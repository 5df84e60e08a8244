# libjansson and small engine pieces, in Dafny

This project models the JSON library that is bundled with the game (`libjansson`) and three small
pieces of the game engine (`libnethack`), and proves what they promise.

* **Printer and parser** (`dump.c`, `load.c`, `utf.c`, `strbuffer.c`).  The printer is modelled twice:
  as a function from values to text, and as the recursive, flag-driven serialiser that walks a heap of
  nodes, sets and clears `visited` marks and writes through a callback that may fail.  The parser is
  modelled as the byte stream with its pushback, the lexer with its token buffer, and the recursive
  descent over them, in classes with the fields of the original; each method is proved equal to a
  function of the remaining input.  On those functions the two round trips are proved: strings and
  numbers to tokens and back, and values to text and back, for every combination of formatting flags.
  What a round trip leaves open is fixed from outside: the scanner is compared with the lexical rules of
  RFC 4627 byte by byte, numbers with its syntax and with the places of their digits, UTF-8 with the syntax
  and the order of RFC 3629, and the printer with a formatter that sees one token after another.
* **Hash table** (`hashtable.c`).  A class with the circular doubly linked list, whose buckets are
  windows into that one list, proved against an ordered table, and the ordered table against a finite
  map.  The hash function is arbitrary, so every pattern of collisions is covered.
* **Values** (`value.c`).  A heap of counted, shared nodes.  Each operation, and so every run of operations,
  keeps the balance of counts, container slots and references that callers own, and the shape of the heap
  that the operations rely on.  Equality, copy and deep copy work on that heap, and growing arrays are
  modelled with their capacity.
* **Format strings** (`pack_unpack.c`).  The two interpreters, and the proof that packing and unpacking
  undo each other; strict unpacking is characterised by the set of keys that were named.
* **Engine** (`ball.c`, `apply.c`, `allmain.c`).  The ball and chain as a state machine, the two-sided
  leash relation, and the apportionment of movement and of energy.

The layers, from the bottom: `Bytes`, `Utf8`, `StrBuffers`, `Tables`, `HashTables`; `Json`, `Grammar`,
`Printing`, `Tokens`; the round trips `StringTrip`, `RoundTrip`, `DocumentTrip`, `Input`, `Loading`,
`Reparse`; the reference descriptions `Lexemes`, `Numbers`, `CodePoints`, `Layouts`; the imperative parser `Streams`, `Unescape`, `Lexer`, `Parser`; the heap `Heaps`, `Stores`,
`Containers`, `Objects`, `Updates`, `Copies`, `Graphs`, `Parts`, `Dumping`, `HeapEqual`, `DeepCopies`,
`Runs`, `GraphTrip`; key order in `InsertionOrder` and `KeyOrder`; `PackFormat`, `Formats`, `Strict`, `Packing`;
`Arrays`; `Ball`, `Leash`, `Turns`.  `dafny verify dfyconfig.toml` checks all of it.

The code implements sections 2 to 2.5 of RFC 4627, UTF-8 as in sections 3 and 4 of RFC 3629, and
surrogate pairs as in sections 2.1 and 2.2 of RFC 2781.

## What was found

Where the code departs from what one would expect, the model follows the code:

* `teleds` ignores the answer of `drag_ball`.  When that refuses (rock keeps the chain alone from following, or
  the ball is out of range, and then the load is too heavy or the chain is caught), the hero arrives without
  ball and chain; `Ball.TornOff` is such a jump.  `Ball.Punishment.Teleport` states that this is the only way for a
  jump to break the link, and that a carried ball is never left behind; no step to a neighbouring square
  breaks it (`Ball.Punishment.Walk`).
* In `drag_ball`, testing whether the chain may stay where it is (`CHAIN_IN_MIDDLE` of the old chain
  square) never succeeds, because that part is reached only when the chain is more than one square away;
  `Ball.Punishment.MoveChain` states which square is taken instead.
* Serials of keys are compared through `int`, so that only their distance modulo 2^32 counts.  Two different
  serials are compared the right way round exactly when that distance is positive and below 2^31: at 0 they
  count as equal, at 2^31 each as less than the other, and beyond 2^31 they change places
  (`InsertionOrder.CompareSerialsExactly`).  JSON_PRESERVE_ORDER keeps the order of first setting, however
  the keys fall into buckets, exactly when all pairs of keys are such (`InsertionOrder.PreservedOrderExactly`),
  which they are while the serials present span less than 2^31.  `InsertionOrder.FarSerialsAreMisordered` is a
  run after which the later key is printed first.
* `json_object_set_new_nocheck` keeps the caller's reference when the key is null, unlike
  `json_object_set_new`, which gives it up (`Objects.ObjectSetNewNocheck`, `Objects.ObjectSetNew`).
* `json_object_update` fails half-way exactly when the other object holds the updated one.  An object that is
  updated from itself may be rehashed under its own iterator, which then goes on in the new order and can
  pass over pairs; the map stays as it is, and it fails exactly when it meets itself among the pairs that it
  visits (`Updates.UpdateSelf`).
* `drag_ball` tests a move for two pathological cases by squared distances.  For a step of the hero they are one
  condition: the rock was between her and the ball already before the step (`Ball.Punishment.PathologicalExactly`).
* `l_isxdigit` accepts every character, so that `\u` followed by letters beyond `f` is scanned, decoded
  as if they were digits, and `\u` followed by anything else ends in a failed assertion.

## Model

| member | source | states |
|---|---|---|
| Utf8.ValidExactly | libjansson/utf.c:165-191 | a byte string is valid exactly when it is a concatenation of encodings of code points up to 0x10FFFF that are no surrogates, and that split is unique |
| Utf8.EncodeDecode | libjansson/utf.c:140-164 | encoding what iteration decodes gives back the bytes of every valid string |
| Utf8.DecodeEncode | libjansson/utf.c:12-46 | decoding what is encoded gives back every sequence of code points, so no two have the same encoding |
| Utf8.FullValueOfEncoded | libjansson/utf.c:84-138 | the check of a multi-byte sequence accepts every encoding and computes its code point; the first byte announces the length |
| Utf8.FullValueIsEncoded | libjansson/utf.c:84-138 | what the check accepts is the one shortest encoding of the code point it computes: no overlong form, no surrogate, nothing above 0x10FFFF |
| Utf8.UnitIsEncoded | libjansson/utf.c:140-164 | what iteration steps over is the encoding of the code point it reports |
| Utf8.UnitOfEncoded | libjansson/utf.c:140-164 | iteration recovers a code point from its encoding, whatever follows |
| CodePoints.CharsExactly | libjansson/utf.c:48-138 | the encodings of code points are exactly the byte sequences that the syntax in section 4 of RFC 3629 calls a character |
| CodePoints.ValidIsOctets | libjansson/utf.c:165-191 | what is valid is exactly a sequence of such characters |
| CodePoints.OrderKept | libjansson/utf.c:12-46 | encodings are ordered like the code points that they encode |
| Utf8.Encode | libjansson/utf.c:12-46 | writes the encoding and its size, refuses exactly what is no code point, and then leaves the buffer alone |
| Utf8.CheckFull | libjansson/utf.c:84-138 | accepts exactly the sequences that denote a code point, and yields it; it never reads past the terminator |
| Utf8.Iterate | libjansson/utf.c:140-164 | stays at the terminator, fails exactly on malformed text, else steps over one code point and yields it |
| Utf8.CheckString | libjansson/utf.c:165-191 | accepts exactly the concatenations of encodings of code points |
| StrBuffers.StrBuffer.constructor | libjansson/strbuffer.c:19-31 | an empty, terminated buffer |
| StrBuffers.StrBuffer.Clear | libjansson/strbuffer.c:41-45 | the contents become empty in the same memory |
| StrBuffers.StrBuffer.AppendBytes | libjansson/strbuffer.c:69-101 | appends to the contents, keeps length below size and the terminator; fails exactly when a size would wrap, and then changes nothing |
| StrBuffers.StrBuffer.AppendByte | libjansson/strbuffer.c:64-67 | the same for one byte |
| StrBuffers.StrBuffer.Pop | libjansson/strbuffer.c:103-112 | takes back the last byte, NUL when there is none |
| Tables.InsertClustered | libjansson/hashtable.c:45-58 | inserting in front of a bucket's first node, or at the end for an empty bucket, keeps every bucket one contiguous run of the list |
| Tables.WindowAfterInsert | libjansson/hashtable.c:45-58 | where the first and last node of every bucket are after an insertion |
| Tables.RemoveClustered | libjansson/hashtable.c:98-133 | removing a node keeps every bucket one contiguous run |
| Tables.WindowAfterRemove | libjansson/hashtable.c:98-133 | where the first and last node of every bucket are after a removal |
| Tables.InsertKeeps | libjansson/hashtable.c:45-58 | an insertion adds exactly the new pair, keeps keys distinct and buckets contiguous |
| Tables.ReinsertKeeps | libjansson/hashtable.c:152-184 | reinserting all pairs into any number of buckets loses and repeats none and makes every bucket contiguous |
| Tables.GrownKeeps | libjansson/hashtable.c:249-253 | growing keeps the map, the serials and the pairs, and afterwards there are fewer pairs than buckets |
| Tables.MapSize | libjansson/value.c:100-109 | the size of a table is the number of its bindings |
| Tables.GetIsLookup | libjansson/hashtable.c:285-299 | get is the lookup in the map |
| Tables.SetIsUpdate | libjansson/hashtable.c:243-283 | set is the map update and keeps the table well-formed; a key that was present keeps its serial |
| Tables.DelIsRemoval | libjansson/hashtable.c:301-305 | del is the removal from the map and keeps the table well-formed |
| Tables.EachBindingOnce | libjansson/hashtable.c:323-350 | the list holds every binding of the map exactly once |
| HashTables.HashTable.constructor | libjansson/hashtable.c:209-235 | an empty table of five buckets |
| HashTables.HashTable.ListInsert | libjansson/hashtable.c:26-32 | links a node in front of another |
| HashTables.HashTable.ListRemove | libjansson/hashtable.c:34-38 | links a node's neighbours to each other |
| HashTables.HashTable.BucketIsEmpty | libjansson/hashtable.c:40-43 | a bucket is empty when both its ends are the list's head |
| HashTables.HashTable.InsertToBucket | libjansson/hashtable.c:45-58 | the list stays a circular doubly linked ring, every bucket the window of its pairs, and the new node is where the ordered table puts it |
| HashTables.HashTable.FindPair | libjansson/hashtable.c:73-96 | finds the node of the key by walking its bucket alone, and nothing exactly when the key is absent |
| HashTables.HashTable.DoDel | libjansson/hashtable.c:98-133 | the table becomes the one without the key, keeps its shape, and the pair that was there is released |
| HashTables.HashTable.DoClear | libjansson/hashtable.c:135-150 | visits and releases every pair once |
| HashTables.HashTable.Relink | libjansson/hashtable.c:172-181 | one step of the rehash: the current node moves to its new bucket while the nodes ahead keep their old links |
| HashTables.HashTable.Rehash | libjansson/hashtable.c:152-184 | the walk ends, has relinked the old nodes once each into the next size of table, and keeps all invariants |
| HashTables.HashTable.Grow | libjansson/hashtable.c:249-253 | there are fewer pairs than buckets afterwards, the map is the same |
| HashTables.HashTable.Set | libjansson/hashtable.c:243-283 | acts as the map update, keeps the first key and its serial, and releases the value it replaces |
| HashTables.HashTable.Lookup | libjansson/hashtable.c:285-299 | the binding of the map |
| HashTables.HashTable.Delete | libjansson/hashtable.c:301-305 | acts as the removal from the map, fails exactly when the key is absent |
| HashTables.HashTable.Clear | libjansson/hashtable.c:307-321 | empties the table, keeps its number of buckets, releases every pair once |
| HashTables.HashTable.Iter | libjansson/hashtable.c:323-326 | the first node, none when empty |
| HashTables.HashTable.IterNext | libjansson/hashtable.c:344-350 | the next node of the list, none behind the last |
| HashTables.HashTable.IterAt | libjansson/hashtable.c:328-342 | the node of a key, none exactly when it is absent |
| HashTables.HashTable.IterSet | libjansson/hashtable.c:364-372 | replaces the value of that binding only |
| HashTables.HashTable.Pairs | libjansson/hashtable.c:323-350 | iterating visits every binding of the map exactly once |
| Json.ComputeHash | libjansson/value.c:30-44 | the loop computes the recursive hash, with sign-extended characters and wrap-around |
| Json.HashIsPolynomial | libjansson/value.c:30-44 | the hash is, modulo 2^64, the number that the signed characters are to the base 33, behind 5381 |
| Json.EqualIsSameValue | libjansson/value.c:900-928 | two values are equal exactly when they denote the same thing, objects being finite maps |
| Json.MembersEqualIsSameMap | libjansson/value.c:288-312 | comparing sizes and then the keys of one side only decides whether two objects are the same map |
| Json.EqualReflexive | libjansson/value.c:900-928 | equality is reflexive |
| Json.EqualSymmetric | libjansson/value.c:288-312 | equality is symmetric |
| Json.EqualTransitive | libjansson/value.c:900-928 | equality is transitive |
| Grammar.ParserDecidesGrammar | libjansson/load.c:818-842 | parsing succeeds exactly on a token string of an array or object followed by the end of the input (unless that is not asked for) in which, when repeats are rejected, no object repeats a key; the tree is unique and the result is what it denotes |
| Grammar.TreeSound | libjansson/load.c:763-816 | whatever the parser accepts is the token string of a grammar tree |
| Grammar.TreeComplete | libjansson/load.c:763-816 | the token string of every tree is parsed back to that tree, whatever follows |
| Grammar.ParseValueIsBuild | libjansson/load.c:650-816 | the parser that fills objects on the way agrees with building the tree first, on every token string |
| Grammar.ClashesIsRepeats | libjansson/load.c:674-684 | testing each key against the object filled so far rejects exactly the objects in which some key is repeated |
| Lexemes.EscapeIsSum | libjansson/load.c:267-289 | four letters or digits are worth what their places to the base 16 say, where letters go on counting behind 9 in either case |
| Lexemes.HexIsRead | libjansson/load.c:267-289 | the four hexadecimal digits of a number, whatever the case of each letter, are read as that number |
| Lexemes.AlnumExactly | libjansson/load.c:278-285 | the assertion fails exactly on a byte that is no digit and no letter |
| Lexemes.EscapeExactly | libjansson/load.c:373-412 | a single escape gives the number that it spells, and is refused exactly for 0 and for a surrogate |
| Lexemes.PairExactly | libjansson/load.c:376-397 | an escape of a high surrogate and one of a low surrogate give the code point whose twenty low bits they carry, any other second number is refused |
| Lexemes.HexEscapeScans | libjansson/load.c:365-419 | a literal of one such escape comes to the UTF-8 form of the code point that it spells |
| Lexemes.EscapesExactly | libjansson/load.c:334-340 | a backslash and a byte other than `u` stand for what the table in section 2.5 of RFC 4627 says, and are refused when it says nothing |
| Lexemes.UnescapedExactly | libjansson/load.c:312-320 | a byte stands for itself exactly when it is no control character |
| Lexemes.NeverClosed | libjansson/load.c:303-310 | without a quote no literal ends |
| Lexemes.LiteralsJoin | libjansson/load.c:365-438 | what two literals come to, one behind the other, is what they come to by themselves |
| Lexemes.BlanksExactly | libjansson/load.c:558-565 | space, tab, newline and carriage return are skipped, and no other byte is |
| Lexemes.MarksExactly | libjansson/load.c:574-575 | the six marks are single bytes, each the token of its own |
| Lexemes.WordsExactly | libjansson/load.c:585-604 | a run of letters is one of the three names exactly when it is spelled like it, with no letter behind it |
| Lexemes.CodePointPrinted | libjansson/dump.c:109-140 | which code points are written as two characters, as small hexadecimal digits, as a surrogate pair, and as they are |
| Numbers.NumbersExactly | libjansson/load.c:452-545 | on input that starts with a digit or a minus sign the longest number of section 2.4 of RFC 4627 is taken, with the value of its digits by their places; there is no token exactly when there is no such number or when it does not fit 64 bits |
| Numbers.DigitsByPlaces | libjansson/load.c:488-500 | a string of digits is worth what the places of its digits to the base 10 say |
| Numbers.NumberLoads | libjansson/load.c:773-782 | a number alone in an array is loaded as the integer or the real that it is, and refused when it does not fit |
| Numbers.PrintedIsDecimal | libjansson/dump.c:184-194 | a printed integer is decimal, without a leading zero |
| StringTrip.StringRoundTrip | libjansson/dump.c:67-152 | scanning a printed string gives the string back, in plain and in ASCII mode, surrogate pairs included, whatever follows |
| StringTrip.PairDecodes | libjansson/load.c:367-397 | a code point above 0xFFFF written as a surrogate pair is decoded to its UTF-8 form |
| StringTrip.CodePointDecodes | libjansson/load.c:346-439 | what is printed for one code point is scanned and decoded to its UTF-8 form |
| StringTrip.DecodedIsShorter | libjansson/load.c:331-342 | decoding never yields more bytes than it reads |
| StringTrip.IntRoundTrip | libjansson/load.c:452-508 | a printed 64-bit integer is scanned back |
| RoundTrip.PrintTokens | libjansson/dump.c:206-400 | the printed text of a value, under any flags and at any depth, scans to the tokens of its tree |
| DocumentTrip.LaterFieldWins | libjansson/load.c:699-702 | building an object lets the later of two equal keys win |
| DocumentTrip.NoRepeats | libjansson/dump.c:276-394 | what is printed of a well-formed value repeats no key |
| DocumentTrip.BuildTree | libjansson/load.c:650-816 | building the tree that is printed gives a value that denotes the same, in whatever order members are printed |
| Input.LongestValidPrefix | libjansson/load.c:142-203 | the stream delivers the longest prefix of its source that is valid UTF-8 |
| Input.EndIsEofExactly | libjansson/load.c:142-203 | the stream ends with EOF exactly when all of its source is valid UTF-8, else with an error |
| Loading.PrintIsClean | libjansson/dump.c:67-152 | printed text is valid UTF-8 without NUL, and ASCII when that is asked for |
| Loading.DocumentRoundTrip | libjansson/load.c:864-881 | for every value with an array or object root, valid NUL-free strings and keys, 64-bit integers and no reals, and all flags, parsing the printed text succeeds and yields an equal value |
| Loading.OnlyValidLoads | libjansson/load.c:567-570 | input that is not valid UTF-8 to its end is refused, unless what follows the value is not looked at |
| Layouts.PrintIsLayout | libjansson/dump.c:45-400 | printing, for all flags and at any depth, is writing the tokens with what belongs between each two of them: a new line and the indentation for each open container, a blank, or nothing |
| Layouts.CompactHasNoBlanks | libjansson/dump.c:45-65 | with JSON_COMPACT and no indentation there is nothing between the tokens |
| Reparse.DecodedIsGood | libjansson/load.c:346-439 | decoding an accepted string literal gives valid UTF-8 without NUL |
| Reparse.TokensAreClean | libjansson/load.c:547-615 | every token scanned from a valid source has valid strings and 64-bit integers |
| Reparse.LoadedCanBeDumped | libjansson/load.c:864-881 | whatever is loaded from a C string without reals can be printed, under all flags, and loads again as an equal value |
| Streams.Stream.constructor | libjansson/load.c:128-140 | everything is still to be delivered |
| Streams.Stream.Get | libjansson/load.c:142-203 | delivers the next byte of the remaining input, or the final status, which no delivered byte equals; position, line and column count what has been delivered |
| Streams.Stream.Unget | libjansson/load.c:205-221 | puts back the last byte: remaining input, position, line and column are as before it was read, and its assertions hold |
| Streams.Stream.Take | libjansson/load.c:184-202 | delivers a cached byte and counts it |
| Streams.NewlinesExactly | libjansson/load.c:185-190 | the line is counted by the newlines delivered |
| Streams.ColumnExactly | libjansson/load.c:185-195 | the column is the number of code points behind the last of them |
| Streams.Stream.Refill | libjansson/load.c:147-182 | caches one code point without changing what remains, and finds the end or the error exactly when nothing remains |
| Streams.Stream.FetchUnit | libjansson/load.c:155-181 | reads exactly the bytes of one code point, and refuses exactly what is none |
| Streams.Stream.FetchContinuation | libjansson/load.c:166-174 | reads the announced bytes; at the end of the source a byte that no code point contains takes their place |
| Streams.Stream.SkipCached | libjansson/load.c:257-265 | delivers a cached continuation byte |
| Unescape.DecodeUnicodeEscape | libjansson/load.c:267-289 | four hexadecimal digits, in either case, give the number that they spell; it aborts exactly on a byte that is no letter or digit |
| Unescape.ReadUnicode | libjansson/load.c:356-405 | one escape or a pair of surrogates gives one code point; an unpaired surrogate and NUL are refused |
| Unescape.DecodeEscape | libjansson/load.c:353-433 | one escape is decoded into the buffer and both places move on, or the decoding ends |
| Unescape.DecodeLiteral | libjansson/load.c:331-439 | decodes the body of a literal in place, within a buffer as long as the literal, to the text that the escapes denote |
| Lexer.Lex.Save | libjansson/load.c:229-232 | the token's text is the input read so far |
| Lexer.Lex.GetSave | libjansson/load.c:234-240 | reads and saves one byte, or the status |
| Lexer.Lex.UngetUnsave | libjansson/load.c:247-255 | takes back the byte from token and stream together; its assertion holds |
| Lexer.Lex.SkipHex | libjansson/load.c:317-325 | steps over four characters, or to the end of the input |
| Lexer.Lex.SkipEscape | libjansson/load.c:312-337 | steps over one escape, fails exactly where none starts |
| Lexer.Lex.FindQuote | libjansson/load.c:291-341 | finds the closing quote exactly when there is one, with the whole literal saved |
| Lexer.Lex.ScanString | libjansson/load.c:291-444 | yields the token that the specification of string literals gives, with the input behind it |
| Lexer.Lex.IntegerDigits | libjansson/load.c:465-479 | accepts exactly a zero or digits that do not start with one |
| Lexer.Lex.FractionDigits | libjansson/load.c:510-521 | accepts exactly a point with at least one digit |
| Lexer.Lex.ExponentDigits | libjansson/load.c:523-537 | accepts exactly an exponent with at least one digit |
| Lexer.Lex.ScanReal | libjansson/load.c:508-545 | yields the lexeme of a real number with the input behind it |
| Lexer.Lex.ScanNumber | libjansson/load.c:452-545 | yields the integer or the real that the specification of numbers gives, and nothing when it does not fit 64 bits |
| Lexer.Lex.ScanWord | libjansson/load.c:587-606 | yields the keyword, or an invalid token for any other word |
| Lexer.Lex.ScanAt | libjansson/load.c:569-612 | yields the token at the current character |
| Lexer.Lex.Scan | libjansson/load.c:547-615 | yields the first token of the remaining input and leaves the input behind it |
| Parser.Advance | libjansson/load.c:547-615 | the lexer moves along the token string of its input |
| Parser.ParseArray | libjansson/load.c:723-761 | agrees with the grammar on arrays, trailing commas and early ends included |
| Parser.ParseMember | libjansson/load.c:663-704 | one member agrees with the grammar, and refuses a key that is there already when repeats are rejected |
| Parser.ParseObject | libjansson/load.c:650-721 | agrees with the grammar on objects, repeated keys included |
| Parser.ParseValue | libjansson/load.c:763-816 | agrees with the grammar on every value |
| Parser.ParseJson | libjansson/load.c:818-842 | agrees with the grammar on the root and on what may follow |
| Parser.JsonLoads | libjansson/load.c:864-881 | the whole parser is the function that the round trips are about |
| Heaps.MoveReferences | libjansson/value.c:420-444 | moving references between a container's slots and the caller keeps every count right |
| Heaps.CountReference | libjansson/jansson.h:98-114 | counting one reference up or down together with the caller's keeps every count right |
| Stores.LiveIffHeld | libjansson/jansson.h:98-114 | a node is alive exactly when something holds it, and a counted node's count is the number of slots and callers that do |
| Stores.Store.Decref | libjansson/jansson.h:108-114 | gives up one reference; a node is deleted exactly when that was the last one; it ends on every finite heap and touches nothing that the node does not lead to |
| Stores.Store.Delete | libjansson/value.c:877-895 | frees a node of count zero after giving up all that its slots hold |
| Stores.Store.ReleaseSlots | libjansson/value.c:388-397 | a container's slots are given up one by one, whatever deletions follow |
| Containers.Incref | libjansson/jansson.h:98-104 | the caller owns one more reference, singletons are not counted |
| Containers.Decref | libjansson/jansson.h:108-114 | the caller's reference is gone and the balance holds |
| Containers.NewNode | libjansson/value.c:747-756 | a new node is owned once by the caller |
| Containers.AcyclicIsGuarded | libjansson/value.c:420-444 | on acyclic values the condition under which container operations are specified always holds |
| Containers.OwnedIsGuarded | libjansson/value.c:420-444 | so it does for every container that a caller owns |
| Containers.ArraySetNew | libjansson/value.c:420-444 | replaces the item, takes the caller's reference also when it fails, gives up the old item, keeps the balance |
| Containers.ArrayAppendNew | libjansson/value.c:488-511 | appends the item under the same accounting |
| Containers.ArrayInsertNew | libjansson/value.c:513-551 | inserts the item under the same accounting |
| Containers.ArrayRemove | libjansson/value.c:553-570 | removes the item and gives it up |
| Containers.ArrayClear | libjansson/value.c:572-586 | empties the array and gives up every item |
| Containers.ArrayExtend | libjansson/value.c:588-608 | appends the items of another array, or its own, counting each once more |
| Objects.SetNodeIsUpdate | libjansson/value.c:147-156 | setting a key updates the map and counts the serial up; a key that was absent gets the serial there was, any other keeps its own |
| Objects.ObjectSetNewNocheck | libjansson/value.c:122-157 | binds the key, counts the serial up, takes the caller's reference except when the key is null, gives up the old value, keeps the balance |
| Objects.ObjectSetNew | libjansson/value.c:159-168 | the same, and refuses exactly keys that are not valid UTF-8 as well |
| Objects.ObjectSetNocheck | libjansson/jansson.h:150-165 | binds the key while the caller keeps its reference |
| Objects.ObjectDel | libjansson/value.c:170-179 | removes the binding, gives up the value, fails exactly when the key is absent |
| Objects.ObjectClear | libjansson/value.c:181-192 | removes every binding and gives up every value |
| Updates.ObjectUpdate | libjansson/value.c:194-216 | updates from another object, owned or borrowed, as long as it stays alive, or from itself; fails exactly when one is no object or the updated object is among the values that are set; keeps the balance and what callers own |
| Updates.UpdateFrom | libjansson/value.c:194-216 | sets every pair of the other object, releasing what they replace |
| Updates.UpdateSelf | libjansson/value.c:194-216 | the same object on both sides: only the counter goes on and the table may be rehashed, no reference is gained or lost |
| Updates.UpdatedIsUnion | libjansson/value.c:194-216 | after a successful update the map is the union, the other object winning; from itself it is as before |
| Updates.SelfSetKeeps | libjansson/value.c:194-216 | setting an object's own pairs again keeps its map and the serials of its keys |
| Updates.OwnedIsUpdatable | libjansson/value.c:194-216 | two objects that callers own can always be updated from each other |
| Updates.BorrowedIsUpdatable | libjansson/value.c:194-216 | so can any two objects to which nothing that the update releases leads |
| Objects.SetAllIsUnion | libjansson/value.c:194-216 | setting all pairs of another object gives the union of the maps, the other one winning |
| Copies.ArrayAppend | libjansson/value.c:632-645 | appends while the caller keeps its reference |
| Copies.ArrayCopy | libjansson/value.c:632-645 | a new array, owned once, with the same items, each counted once more |
| Copies.ObjectCopy | libjansson/value.c:314-337 | a new object, owned once, into which all pairs have been set |
| Copies.CopyIsSameMap | libjansson/value.c:314-337 | that object is the same map |
| Copies.Copy | libjansson/value.c:933-957 | a new node for arrays, objects and counted scalars, the same singleton else |
| Graphs.ClearIffAcyclic | libjansson/dump.c:260-394 | the search along marked nodes succeeds exactly when no walk from the root meets a node twice |
| Graphs.ArrangeUnfolds | libjansson/dump.c:293-327 | sorting a node's members and then unfolding them is unfolding them and then sorting |
| Graphs.UnfoldPrintable | libjansson/dump.c:211-258 | a graph of valid strings without reals unfolds to a printable value |
| Graphs.ArrayText | libjansson/dump.c:211-258 | the text of an array node is made of the texts of its items, shared ones written in full each time |
| Graphs.ObjectText | libjansson/dump.c:260-394 | the text of an object node is made of its arranged members |
| Dumping.DumpIndent | libjansson/dump.c:45-65 | writes the new line and the indentation, in chunks of the white-space table |
| Dumping.EscapeSequence | libjansson/dump.c:97-140 | the escape of a code point, a surrogate pair above 0xFFFF |
| Dumping.DumpString | libjansson/dump.c:67-152 | succeeds exactly on valid UTF-8 and writes the string in quotes with exactly the code points escaped that must be |
| Parts.OnlyClear | libjansson/dump.c:211-258 | the part of a graph that a node leads to decides alone whether the search along marked nodes succeeds |
| Parts.OnlyUnfolds | libjansson/dump.c:211-258 | the part of a graph that a node leads to decides alone what the node unfolds to |
| Parts.OnlyText | libjansson/dump.c:402-417 | a node that leads to valid strings and no reals has the same text in the whole heap as in the part it leads to |
| Dumping.DoDump | libjansson/dump.c:166-400 | ends on every finite graph and touches no node outside the part of the heap that it is given; removes the marks it sets; succeeds exactly when no cycle is met in a part without reals and bad strings, and then writes the text of the unfolded node |
| Dumping.DumpItems | libjansson/dump.c:233-253 | the loop over items, with commas and indentation |
| Dumping.DumpArray | libjansson/dump.c:211-258 | refuses a marked node, marks it meanwhile, unmarks it at its end |
| Dumping.DumpMember | libjansson/dump.c:322-341 | key, separator and value |
| Dumping.DumpMembers | libjansson/dump.c:304-384 | the loop over members; looking up a collected key always succeeds |
| Dumping.DumpObject | libjansson/dump.c:260-394 | the same for objects in hash, key or serial order |
| Dumping.DumpCallback | libjansson/dump.c:438-446 | with a callback that never fails, and when the root leads to valid strings and no reals, whatever else the heap holds, it succeeds exactly when no cycle is reachable, and writes the text of the unfolded graph; the heap is unchanged and all marks are clear afterwards in every case; without JSON_ENCODE_ANY only containers are written |
| GraphTrip.DumpedGraphLoads | libjansson/dump.c:402-417 | the text of an acyclic graph of nodes, with shared nodes, loads as a value equal to what the graph unfolds to |
| HeapEqual.UnfoldSame | libjansson/value.c:900-928 | what a node unfolds to does not depend on the path to it |
| HeapEqual.UnfoldWellFormed | libjansson/value.c:900-928 | what a graph unfolds to has distinct keys in every object, which is what makes equality an equivalence on it |
| HeapEqual.Equal | libjansson/value.c:900-928 | comparing two acyclic graphs is comparing the values that they unfold to |
| HeapEqual.ArrayEqual | libjansson/value.c:610-630 | the same for arrays |
| HeapEqual.ObjectEqual | libjansson/value.c:288-312 | the same for objects, by sizes and the keys of the first |
| DeepCopies.DeepCopy | libjansson/value.c:959-986 | ends on acyclic values; the result is a copy numbered behind all older nodes, owned once, and the old heap is unchanged but for counts |
| DeepCopies.ArrayDeepCopy | libjansson/value.c:647-660 | the same for arrays |
| DeepCopies.ObjectDeepCopy | libjansson/value.c:339-362 | the same for objects |
| DeepCopies.CopyDenotes | libjansson/value.c:959-986 | a copy denotes the same value |
| DeepCopies.CopyIsFresh | libjansson/value.c:959-986 | every node that a walk reaches from a copy is new or a singleton |
| DeepCopies.CopyIsClear | libjansson/value.c:959-986 | a copy has no cycle |
| DeepCopies.DeepCopyWhole | libjansson/value.c:959-986 | the copy equals the original and shares no counted node with it |
| Runs.Perform | libjansson/value.c:100-986 | every operation on values, allowed on the heap as it is, keeps the balance and the shape of the whole heap that the operations rely on, so that a run of any length does |
| Runs.TidyIsNeat | libjansson/value.c:100-986 | that shape is the one each operation keeps cell by cell, on any balanced heap |
| InsertionOrder.RunKeeps | libjansson/value.c:147-156 | after any run of sets and deletes the keys, in the order each was first set since last absent, have increasing serials |
| InsertionOrder.CompareSerialsExactly | libjansson/dump.c:160-164 | the comparison orders two serials in both directions exactly when they are equal or their distance modulo 2^32 is positive and below 2^31, and what it answers in the three other cases |
| InsertionOrder.PreservedOrder | libjansson/dump.c:293-327 | after any run of sets and deletes, serials are distinct, and JSON_PRESERVE_ORDER prints keys in the order of first setting when all of them are so apart |
| InsertionOrder.PreservedOrderExactly | libjansson/dump.c:293-327 | whatever order the table lists the members in, they are sorted into that order, if and only if all serials are so apart |
| InsertionOrder.NarrowIsApart | libjansson/dump.c:160-164 | serials that span less than 2^31 are so apart |
| InsertionOrder.ShortRunIsApart | libjansson/value.c:147-156 | so are all serials after any run with at most 2^31 sets |
| InsertionOrder.LateIsPrinted | libjansson/dump.c:293-327 | a key set n times and then another: they are printed in that order when n modulo 2^32 is positive and below 2^31, and the other way round beyond 2^31 |
| InsertionOrder.FarSerialsAreMisordered | libjansson/dump.c:293-327 | a run after which JSON_PRESERVE_ORDER prints the later key first: one key set 2^31 + 1 times, then another |
| KeyOrder.CompareExactly | libjansson/dump.c:154-158 | a key is less than another exactly when it ends, or has the smaller unsigned byte, where the two first differ |
| KeyOrder.CompareAntisymmetric | libjansson/dump.c:154-158 | comparing keys is antisymmetric, and equal only for the same key |
| KeyOrder.CompareTransitive | libjansson/dump.c:154-158 | comparing keys is transitive |
| KeyOrder.OnlyOneOrder | libjansson/dump.c:318-321 | distinct keys have only one sorted order, whatever the sorting algorithm |
| KeyOrder.SortedByKey | libjansson/dump.c:293-321 | JSON_SORT_KEYS prints the members in the only order in which each key comes, in that sense, before all later ones |
| CodePoints.KeysByCodePoint | libjansson/dump.c:154-158 | for keys of valid UTF-8 that is the order of their code points |
| PackFormat.PackComplete | libjansson/pack_unpack.c:87-220 | packing the format of a template with its arguments gives its value and leaves what follows |
| PackFormat.PackSound | libjansson/pack_unpack.c:87-220 | whatever format and arguments packing accepts are those of a template, and the result is its value |
| PackFormat.ObjectIsFull | libjansson/pack_unpack.c:87-138 | with distinct keys the packed object has exactly the fields of its template |
| PackFormat.UnpackUndoesPack | libjansson/pack_unpack.c:375-490 | unpacking a packed value with the same format returns the same arguments, booleans as 0 or 1, in strict mode too |
| PackFormat.PackThenUnpack | libjansson/pack_unpack.c:492-586 | the same for whole formats, for every format that packing accepts |
| Formats.CharsExactly | libjansson/pack_unpack.c:50-71 | space, tab, newline, comma and colon are skipped wherever they stand, every other character counts |
| Formats.BlanksChangeNothing | libjansson/pack_unpack.c:50-71 | such a character, put in anywhere, changes nothing that packing or unpacking does |
| Formats.UnpackFrame | libjansson/pack_unpack.c:375-490 | unpacking takes what it needs of the format and of the targets, whatever follows |
| Formats.NothingBehind | libjansson/pack_unpack.c:513-521 | a format that packs or unpacks a value fails when a character that counts is put behind it |
| Formats.TypesExactly | libjansson/pack_unpack.c:386-484 | which letters unpack a value, by its type, and that what is stored is the value, an integer cut to the width of its target; a format that is only validated stores nothing |
| Formats.NullStringFails | libjansson/pack_unpack.c:386-404 | a null pointer for a string is refused |
| Strict.StrictExactly | libjansson/pack_unpack.c:224-309 | strict unpacking of well-formed entries that the object has succeeds exactly when every key of the object was named, repeats allowed; it stores what the entries store |
| Strict.ObjectRefuses | libjansson/pack_unpack.c:224-309 | behind entries that unpack, an object format is refused at a null or missing key, at anything but the brace behind `!` or `*`, at any other character, and at its end |
| Strict.ArrayExactly | libjansson/pack_unpack.c:311-373 | unpacking an array, with entries that unpack their items, succeeds exactly when there are no more entries than items and, when it is strict, no fewer; it stores what the entries store |
| Strict.ArrayRefuses | libjansson/pack_unpack.c:311-373 | behind entries that unpack, an array format is refused at anything but the bracket behind `!` or `*`, and at its end |
| Packing.Scanner.NextToken | libjansson/pack_unpack.c:50-71 | steps over spaces, tabs, newlines, commas and colons, takes the next other character, and never moves past a terminator it has returned |
| Packing.DoPackObject | libjansson/pack_unpack.c:89-138 | the loop agrees with the specification of object formats |
| Packing.DoPackArray | libjansson/pack_unpack.c:140-169 | the loop agrees with the specification of array formats |
| Packing.DoPack | libjansson/pack_unpack.c:171-220 | packing agrees with its specification |
| Packing.VPackEx | libjansson/pack_unpack.c:492-524 | refuses null and empty formats and what is left behind the value, else packs |
| Packing.DoUnpackObject | libjansson/pack_unpack.c:224-309 | the loop with its table of named keys agrees with the specification, in which the keys are a set |
| Packing.DoUnpackArray | libjansson/pack_unpack.c:311-373 | the loop agrees with the specification |
| Packing.DoUnpack | libjansson/pack_unpack.c:375-490 | unpacking agrees with its specification |
| Packing.VUnpackEx | libjansson/pack_unpack.c:550-586 | refuses a null root, null and empty formats and what is left behind the value, else unpacks |
| Arrays.ArrayCopy | libjansson/value.c:452-457 | copies a stretch and leaves the rest |
| Arrays.ArrayMove | libjansson/value.c:446-450 | moves a stretch within the table, overlapping or not |
| Arrays.PointerArray.Grow | libjansson/value.c:459-486 | makes room; the capacity is 8 or less than twice the greatest length there has been |
| Arrays.PointerArray.Append | libjansson/value.c:488-511 | appends to the sequence |
| Arrays.PointerArray.Insert | libjansson/value.c:513-551 | inserts into the sequence, fails exactly behind its end and then changes nothing |
| Arrays.PointerArray.Set | libjansson/value.c:420-444 | replaces an element, fails exactly outside |
| Arrays.PointerArray.Remove | libjansson/value.c:553-570 | removes an element, fails exactly outside |
| Arrays.PointerArray.Clear | libjansson/value.c:572-586 | empties the sequence |
| Arrays.PointerArray.Extend | libjansson/value.c:588-608 | concatenates, also with itself |
| Ball.Offsets | libnethack/src/ball.c:420-515 | the squared distances that are possible within two squares, which is why the default branch of the switch is unreachable |
| Ball.Punishment.Lift | libnethack/src/ball.c:312-330 | picks ball and chain up, only when they lie on the floor |
| Ball.Punishment.Place | libnethack/src/ball.c:331-352 | puts them down at the given squares, only when they have been picked up; a carried ball stays with the hero |
| Ball.Punishment.CandidatesExactly | libnethack/src/ball.c:430-444 | with the ball a knight's move away, the two squares that are tried are the only ones next to hero and ball |
| Ball.Punishment.PathologicalExactly | libnethack/src/ball.c:447-459 | for a step of the hero the ball is dragged around a rock exactly when that was between her and the ball already |
| Ball.Punishment.KnightMove | libnethack/src/ball.c:430-483 | with rock on one of the two squares the chain goes to the other, with no rock, or when something is in rock already, to the one closest to it; exactly when it has to be dragged instead |
| Ball.Punishment.MoveChain | libnethack/src/ball.c:420-517 | the new chain square is next to hero and ball and is not rock; which square it is, half way to the ball, half way to the old chain square, or one of the hero's two; it fails exactly when that square is rock and nothing is in rock already |
| Ball.Punishment.Drag | libnethack/src/ball.c:526-623 | refuses exactly with too heavy a load or a caught chain; else ball and chain follow by one square, or to the target after a teleport; nothing stays lifted when it refuses |
| Ball.Punishment.DragBall | libnethack/src/ball.c:369-623 | what it plans keeps hero, chain and ball linked, and puts the chain into no rock; it lifts exactly when it answers true; the ball moves only when the chain alone is hindered |
| Ball.Punishment.Step | libnethack/src/ball.c:369-623 | refuses exactly with the chain blocked and the drag refused; the step taken with the placement it asks for keeps them linked exactly unless the ball is carried and the hero leaves both chain and old square behind, an argument that none of the three callers passes |
| Ball.Punishment.Walk | libnethack/src/ball.c:369-623 | every step to a neighbouring square keeps them linked |
| Ball.Punishment.Unplace | libnethack/src/ball.c:127-143 | takes chain and ball up, only when they lie on the floor |
| Ball.Punishment.PlaceHere | libnethack/src/ball.c:100-125 | puts the chain, and a ball that is not carried, under the hero, only when they have been taken up |
| Ball.Punishment.Teleport | libnethack/src/teleport.c:246-322 | a jump of any width keeps hero, chain and ball linked exactly unless `drag_ball` is called and refuses, and always when the ball is carried; out of range both arrive with her; nothing stays lifted |
| Ball.TornOff | libnethack/src/teleport.c:304-313 | such a refused jump exists: the hero arrives and the chain stays behind |
| Leash.MarkedIffOneLeash | libnethack/src/apply.c:384-438 | a monster is marked exactly when one leash carries its number, and no two do |
| Leash.LeashLeadsToMonster | libnethack/src/apply.c:582-595 | a leash in use leads to a living, marked monster |
| Leash.Level.CountLeashed | libnethack/src/apply.c:384-394 | the number of leashes in use |
| Leash.NumberIsUsed | libnethack/src/apply.c:384-394 | there are as many leashes in use as numbers that they carry |
| Leash.Level.OUnleash | libnethack/src/apply.c:396-405 | frees the leash and unmarks its monster, no other, and keeps the relation |
| Leash.Level.MUnleash | libnethack/src/apply.c:407-425 | unmarks the monster and frees its leash, no other, and keeps the relation |
| Leash.Level.UnleashAll | libnethack/src/apply.c:427-438 | frees every leash and unmarks every monster |
| Leash.Level.UseLeash | libnethack/src/apply.c:440-525 | exactly when a pet is leashed or unleashed, with at most two leashes in use |
| Leash.Level.SlipLeash | libnethack/src/apply.c:554-564 | a cursed leash holds, any other is lost together with the mark |
| Leash.Level.NextToU | libnethack/src/apply.c:542-573 | every leashed monster out of reach slips its leash up to the first one on a cursed leash, which keeps the hero from leaving |
| Leash.Level.Pulled | libnethack/src/apply.c:600-643 | what pulling at one leash does to its monster |
| Leash.Level.CheckLeash | libnethack/src/apply.c:575-647 | each leash in use is pulled once, the "isn't attached to anything" branch is unreachable, what one leash undergoes changes no other monster |
| Leash.Level.Purge | libnethack/src/mon.c:1667-1690 | freeing a dead monster keeps the relation |
| Leash.Level.Arrive | libnethack/src/makemon.c:1106-1109 | a new monster, with a number that no other has, keeps the relation |
| Leash.Level.PickUp | libnethack/src/invent.c:334-370 | an object that is picked up, a leash not in use included, keeps the relation |
| Leash.Level.Die | libnethack/src/apply.c:407-425 | a dying monster is unleashed first, which keeps the relation |
| Turns.RollsLoseNothing | libnethack/src/allmain.c:834-845 | over the four equally likely rolls the amounts add up to four times the speed |
| Turns.AmountExactly | libnethack/src/allmain.c:834-845 | a single roll grants a multiple of 4 less than 4 away from the speed, rounded up for the rolls below what is left over |
| Turns.YouMoveAmount | libnethack/src/allmain.c:834-855 | the loop computes that amount, with the fallback for a stuck player |
| Turns.PlacesDiffer | libnethack/src/allmain.c:912-927 | the turn table is a permutation of 1 to 16 |
| Turns.PlaceIsReversed | libnethack/src/allmain.c:912-927 | the turns take their places in the order of their bits read backwards, so that the first 2, 4 or 8 places are 8, 4 or 2 turns apart |
| Turns.CycleLosesNothing | libnethack/src/allmain.c:1053-1063 | any sixteen consecutive turns add exactly the energy of a cycle |
| Turns.Hero.Regenerate | libnethack/src/allmain.c:1053-1063 | one turn's energy, capped at the maximum |
| Turns.Hero.RegenerateCycle | libnethack/src/allmain.c:1053-1063 | sixteen turns restore the energy of a cycle, up to the maximum |

## Left out

- Real numbers: a real is the text it was read from; `strtod`, printing with 17 digits, overflow and the comparison of doubles are not modelled, and values with reals are excluded from the round trips.
- Running out of memory: every allocation succeeds.  The wrap-around of sizes is modelled for string buffers only, not for the capacity of arrays.
- Input and output through FILE, `json_loadb`, error texts, error positions and `error.c`; of a failing parse only the failure is modelled.
- NUL bytes in the input of the lexer: the source is a C string.  It is assumed to be no longer than `INT_MAX`, because positions are counted in `int`; depth in `do_dump` is not bounded.
- `char` is taken to be signed and `size_t` to have 64 bits.
- Bad hex digits: `\u` followed by letters is decoded as the code does; where the code ends in a failed assertion the model has an `Aborted` token, on which parsing fails.
- Variable arguments: a sequence of an argument type.  Missing arguments, arguments of another type and null pointers that the code stores through are excluded by precondition.
- Parser.ParseValue: the parser builds values rather than counted nodes; filling nodes is covered by the operations on the heap.
- Packing.DoPack: works on values, so that the counts of objects passed with `O` and `o` are not modelled.
- HashTables.HashTable.Set: the code steps past the last of its primes once the table has outgrown it; the precondition `Room` excludes that.
- Heap objects use the ordered tables that the hash table class is proved against, not the class itself.
- `qsort` is modelled by an insertion sort; `KeyOrder.OnlyOneOrder` and `InsertionOrder.PreservedOrder` show that the result does not depend on it.
- Containers.ArrayRemove: the slot past the last entry, which the code moves too, is not moved here; nor is it in `Arrays.PointerArray.Remove`.  The live entries are the same.
- Containers.Incref: a precondition keeps the number of references below the value that marks a singleton, so that no count is saturated.
- Containers.ArraySetNew: asks for a container that a caller owns, or that what it holds does not lead back to; on a cycle the code could delete the container it is working on.  The same holds for removing and clearing; setting a member asks it of the value that is replaced only.
- Stores.Store.Delete: a freed cell is not used again, so that a reference is never reused.
- Updates.ObjectUpdate: asks that the other object outlives what the update releases (`Anchored`): a caller owns it, nothing released leads to it, or something that stays holds it; else the code would read a deleted object.  After a failure only the balance and the shape are stated, not how far the update came.
- `json_object_iter_set_new` on the counted heap; the hash table's part of it is `HashTables.HashTable.IterSet`.
- Copies.ObjectCopy: copies number keys anew in hash order, as the code does; only equality of maps is claimed, not the order of keys.
- Dumping.DumpMember: the result of writing a key is ignored by the code; what is written is stated for valid keys only.
- Dumping.DumpCallback: when the callback fails at some call, or the root leads to a real or to a string that is not UTF-8, only the removal of the marks is stated.
- InsertionOrder.PreservedOrder: the counter of sets is a natural number; that it wraps at 2^64 is not modelled.
- Lexer.Lex.ScanReal: the lexeme and the rest of the input are stated, not the value; a real too large for a double, which the code refuses, is accepted.
- Graphs.ClearIffAcyclic: the marks of other threads or of a callback that prints itself are not modelled.
- Dumping.DumpIndent: a depth and an indentation are natural numbers, without the bound of 31.
- Ball.Punishment.Teleport: what `teleds` does besides moving hero, ball and chain, and a hero who is engulfed, for whom ball and chain lie nowhere.
- Ball.Punishment.DragBall: display, monsters hit by the chain and trap effects answer as an arbitrary `Scene`; coordinates are not bounded by the map.
- `move_bc` of a blind hero, with the glyphs it remembers, and the rest of `ball.c`.
- Leash.Level.CheckLeash: hit points, tameness, messages and the killing of the pet are reduced to whether it dies, through an arbitrary `Pull` for each leash.
- Leash.Level.NextToU: moving a monster next to the hero is reduced to whether it stays out of reach.
- Turns.Hero.Regenerate: what keeps a hero from regenerating, and hunger, are not modelled; nor is the rest of the turn loop.
- Random numbers (`rn2`) are parameters.
- The rest of `allmain.c` and `apply.c`, `achieve.c`, `level.c` and the headers of the game.
