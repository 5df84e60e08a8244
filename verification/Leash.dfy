/**
 The leash relation of `apply.c`, which is kept in two places: a leash carries the number of a
 monster, and a monster is marked as leashed.  Every operation keeps the two in step.
 */
module Leash {

  /** Monster numbers are unsigned; leashes store them as `int`, and 0 for none. */
  type MonsterId = n: nat | 0 < n < 0x1_0000_0000 witness 1

  function AsInt(id: MonsterId): (n: int)
    ensures n != 0 && -0x8000_0000 <= n < 0x8000_0000 && (n - id) % 0x1_0000_0000 == 0
  {
    if id < 0x8000_0000 then id else id - 0x1_0000_0000
  }

  lemma AsIntInjective(a: MonsterId, b: MonsterId)
    requires AsInt(a) == AsInt(b)
    ensures a == b
  {
  }

  datatype Item = Item(isLeash: bool, leashmon: int, cursed: bool)

  datatype Monster = Monster(id: MonsterId, mleashed: bool, tame: bool, dead: bool)

  const MAXLEASHED := 2

  predicate InUse(o: Item) { o.isLeash && o.leashmon != 0 }

  /** The monster numbers that leashes of the inventory carry. */
  function Used(invent: seq<Item>): set<int> {
    set i | 0 <= i < |invent| && InUse(invent[i]) :: invent[i].leashmon
  }

  /** The numbers of the monsters that are marked. */
  function Marked(monsters: seq<Monster>): set<int> {
    set j | 0 <= j < |monsters| && monsters[j].mleashed :: AsInt(monsters[j].id)
  }

  function NumberLeashed(invent: seq<Item>): nat {
    if invent == [] then 0 else NumberLeashed(invent[..|invent| - 1]) + (if InUse(invent[|invent| - 1]) then 1 else 0)
  }

  ghost predicate DistinctIds(monsters: seq<Monster>) {
    forall j, k :: 0 <= j < k < |monsters| ==> monsters[j].id != monsters[k].id
  }

  ghost predicate DistinctUses(invent: seq<Item>) {
    forall i, k :: 0 <= i < k < |invent| && InUse(invent[i]) && InUse(invent[k]) ==>
        invent[i].leashmon != invent[k].leashmon
  }

  /**
   The leash relation is a bijection between the leashes in use and the marked monsters, all alive, and at
   most two are in use.
   */
  ghost predicate Bijection(invent: seq<Item>, monsters: seq<Monster>) {
    && DistinctIds(monsters) && DistinctUses(invent) && Used(invent) == Marked(monsters)
    && NumberLeashed(invent) <= MAXLEASHED
    && forall j :: 0 <= j < |monsters| && monsters[j].dead ==> !monsters[j].mleashed
  }

  /** A monster is marked exactly when exactly one leash carries its number. */
  lemma MarkedIffOneLeash(invent: seq<Item>, monsters: seq<Monster>, j: nat)
    requires Bijection(invent, monsters) && j < |monsters|
    ensures monsters[j].mleashed <==>
              exists i :: 0 <= i < |invent| && InUse(invent[i]) && invent[i].leashmon == AsInt(monsters[j].id)
    ensures forall i, k :: (0 <= i < |invent| && 0 <= k < |invent| && InUse(invent[i]) && InUse(invent[k])
                            && invent[i].leashmon == AsInt(monsters[j].id) &&
                                invent[k].leashmon == AsInt(monsters[j].id)) ==> i == k
  {
    var id := AsInt(monsters[j].id);
    if monsters[j].mleashed {
      assert id in Marked(monsters);
      assert id in Used(invent);
    }
    if i :| 0 <= i < |invent| && InUse(invent[i]) && invent[i].leashmon == id {
      assert id in Used(invent);
      var k :| 0 <= k < |monsters| && monsters[k].mleashed && AsInt(monsters[k].id) == id;
      AsIntInjective(monsters[k].id, monsters[j].id);
    }
  }

  /** Conversely, a leash in use leads to a marked monster that is alive. */
  lemma LeashLeadsToMonster(invent: seq<Item>, monsters: seq<Monster>, i: nat) returns (j: nat)
    requires Bijection(invent, monsters) && i < |invent| && InUse(invent[i])
    ensures j < |monsters| && monsters[j].mleashed && !monsters[j].dead && AsInt(monsters[j].id) == invent[i].leashmon
  {
    assert invent[i].leashmon in Used(invent);
    assert invent[i].leashmon in Marked(monsters);
    j :| 0 <= j < |monsters| && monsters[j].mleashed && AsInt(monsters[j].id) == invent[i].leashmon;
  }

  /** No two leashes in use carry the same number, so that there are as many of them as numbers. */
  lemma {:induction false} NumberIsUsed(invent: seq<Item>)
    requires DistinctUses(invent)
    ensures NumberLeashed(invent) == |Used(invent)|
  {
    if invent != [] {
      hide Used;
      var front, o := invent[..|invent| - 1], invent[|invent| - 1];
      NumberIsUsed(front);
      UsedSnoc(front, o);
      assert front + [o] == invent;
      if InUse(o) {
        LastIsNew(front, o);
      }
    }
  }

  lemma LastIsNew(front: seq<Item>, o: Item)
    requires DistinctUses(front + [o]) && InUse(o)
    ensures o.leashmon !in Used(front)
  {
    var all := front + [o];
    forall i | 0 <= i < |front| && InUse(front[i]) ensures front[i].leashmon != o.leashmon {
      assert all[i] == front[i] && all[|front|] == o;
    }
  }

  lemma UsedSnoc(front: seq<Item>, o: Item)
    ensures Used(front + [o]) == Used(front) + if InUse(o) then {o.leashmon} else {}
  {
    var all := front + [o];
    forall x ensures x in Used(all) <==> x in Used(front) || (InUse(o) && x == o.leashmon) {
      if x in Used(all) {
        var i :| 0 <= i < |all| && InUse(all[i]) && all[i].leashmon == x;
        assert i < |front| ==> front[i] == all[i];
      }
      if x in Used(front) {
        var i :| 0 <= i < |front| && InUse(front[i]) && front[i].leashmon == x;
        assert all[i] == front[i];
      }
      if InUse(o) && x == o.leashmon {
        assert all[|front|] == o;
      }
    }
  }

  lemma {:induction false} CountUpdate(invent: seq<Item>, i: nat, o: Item)
    requires i < |invent|
    ensures NumberLeashed(invent[i := o]) + (if InUse(invent[i]) then 1 else 0) ==
              NumberLeashed(invent) + (if InUse(o) then 1 else 0)
  {
    var n := |invent| - 1;
    if i == n {
      assert invent[i := o][..n] == invent[..n];
    } else {
      assert invent[i := o][..n] == invent[..n][i := o];
      CountUpdate(invent[..n], i, o);
    }
  }

  /** Taking a leash off: its monster is unmarked and its number erased. */
  lemma Detached(invent: seq<Item>, monsters: seq<Monster>, i: nat, o: Item, after: seq<Monster>)
    requires Bijection(invent, monsters) && i < |invent| && InUse(invent[i]) && !InUse(o)
    requires Unmarks(monsters, after, invent[i].leashmon)
    ensures Bijection(invent[i := o], after) && Used(invent[i := o]) == Used(invent) - {invent[i].leashmon}
  {
    var items := invent[i := o];
    CountUpdate(invent, i, o);
    forall x ensures x in Used(items) <==> x in Used(invent) && x != invent[i].leashmon {
      if x in Used(invent) && x != invent[i].leashmon {
        var k :| 0 <= k < |invent| && InUse(invent[k]) && invent[k].leashmon == x;
        assert items[k] == invent[k];
      }
      if x in Used(items) {
        var k :| 0 <= k < |items| && InUse(items[k]) && items[k].leashmon == x;
        assert k != i && items[k] == invent[k];
      }
    }
    UnmarkedSet(monsters, after, invent[i].leashmon);
  }

  /** The monsters with number `n` lose their mark; nothing else changes. */
  ghost predicate Unmarks(before: seq<Monster>, after: seq<Monster>, n: int) {
    |after| == |before| &&
    forall j :: 0 <= j < |after| ==> after[j] == before[j].(mleashed := before[j].mleashed && AsInt(before[j].id) != n)
  }

  lemma UnmarkedSet(before: seq<Monster>, after: seq<Monster>, n: int)
    requires Unmarks(before, after, n)
    ensures Marked(after) == Marked(before) - {n}
  {
    forall x ensures x in Marked(after) <==> x in Marked(before) && x != n {
      if x in Marked(before) && x != n {
        var j :| 0 <= j < |before| && before[j].mleashed && AsInt(before[j].id) == x;
        assert after[j].mleashed && AsInt(after[j].id) == x;
      }
      if x in Marked(after) {
        var j :| 0 <= j < |after| && after[j].mleashed && AsInt(after[j].id) == x;
        assert before[j].mleashed && AsInt(before[j].id) == x;
      }
    }
  }

  /** Putting a leash on a monster that is not marked. */
  lemma Leashed(invent: seq<Item>, monsters: seq<Monster>, i: nat, j: nat)
    requires Bijection(invent, monsters) && i < |invent| && j < |monsters|
    requires invent[i].isLeash && invent[i].leashmon == 0 && !monsters[j].mleashed && !monsters[j].dead &&
              NumberLeashed(invent) < MAXLEASHED
    ensures var id := AsInt(monsters[j].id);
            && Bijection(invent[i := invent[i].(leashmon := id)], monsters[j := monsters[j].(mleashed := true)])
            && Used(invent[i := invent[i].(leashmon := id)]) == Used(invent) + {id}
  {
    var id := AsInt(monsters[j].id);
    var items, pets := invent[i := invent[i].(leashmon := id)], monsters[j := monsters[j].(mleashed := true)];
    CountUpdate(invent, i, items[i]);
    assert id !in Used(invent) by {
      if id in Used(invent) {
        var k :| 0 <= k < |monsters| && monsters[k].mleashed && AsInt(monsters[k].id) == id;
        AsIntInjective(monsters[k].id, monsters[j].id);
      }
    }
    UsedMore(invent, i, id);
    MarkedMore(monsters, j);
    forall a, b | 0 <= a < b < |items| && InUse(items[a]) &&
        InUse(items[b]) ensures items[a].leashmon != items[b].leashmon {
      if a == i {
        assert items[b] == invent[b] && items[b].leashmon in Used(invent);
      } else if b == i {
        assert items[a] == invent[a] && items[a].leashmon in Used(invent);
      }
    }
  }

  lemma UsedMore(invent: seq<Item>, i: nat, id: int)
    requires i < |invent| && invent[i].isLeash && !InUse(invent[i]) && id != 0
    ensures Used(invent[i := invent[i].(leashmon := id)]) == Used(invent) + {id}
  {
    var items := invent[i := invent[i].(leashmon := id)];
    forall x ensures x in Used(items) <==> x in Used(invent) || x == id {
      if x in Used(items) {
        var k :| 0 <= k < |items| && InUse(items[k]) && items[k].leashmon == x;
        assert k != i ==> items[k] == invent[k];
      }
      if x in Used(invent) {
        var k :| 0 <= k < |invent| && InUse(invent[k]) && invent[k].leashmon == x;
        assert items[k] == invent[k];
      }
      if x == id {
        assert items[i].leashmon == x && InUse(items[i]);
      }
    }
  }

  lemma MarkedMore(monsters: seq<Monster>, j: nat)
    requires j < |monsters|
    ensures Marked(monsters[j := monsters[j].(mleashed := true)]) == Marked(monsters) + {AsInt(monsters[j].id)}
  {
    var pets := monsters[j := monsters[j].(mleashed := true)];
    forall x ensures x in Marked(pets) <==> x in Marked(monsters) || x == AsInt(monsters[j].id) {
      if x in Marked(pets) {
        var k :| 0 <= k < |pets| && pets[k].mleashed && AsInt(pets[k].id) == x;
        assert k != j ==> pets[k] == monsters[k];
      }
      if x in Marked(monsters) {
        var k :| 0 <= k < |monsters| && monsters[k].mleashed && AsInt(monsters[k].id) == x;
        assert pets[k].mleashed && AsInt(pets[k].id) == x;
      }
      if x == AsInt(monsters[j].id) {
        assert pets[j].mleashed && AsInt(pets[j].id) == x;
      }
    }
  }

  /** What becomes of the leash `o` when the monster with number `id` slips or breaks it. */
  function Loosened(o: Item, id: int): Item {
    if InUse(o) && o.leashmon == id then o.(leashmon := 0) else o
  }

  /** A cursed leash holds the monster with number `id`. */
  predicate Holds(invent: seq<Item>, id: int) {
    exists i :: 0 <= i < |invent| && InUse(invent[i]) && invent[i].leashmon == id && invent[i].cursed
  }

  /** One of the first `n` monsters is marked, out of reach, and carries the leash `o`. */
  ghost predicate Slipped(o: Item, monsters: seq<Monster>, far: seq<bool>, n: nat)
    requires n <= |monsters| == |far|
  {
    InUse(o) && exists j :: 0 <= j < n && far[j] && monsters[j].mleashed && AsInt(monsters[j].id) == o.leashmon
  }

  /** The monster `j` stops `next_to_u`: it is out of reach on a cursed leash. */
  predicate Stops(invent: seq<Item>, monsters: seq<Monster>, far: seq<bool>, j: nat)
    requires j < |monsters| == |far|
  {
    monsters[j].mleashed && far[j] && Holds(invent, AsInt(monsters[j].id))
  }

  /**
   What `check_leash` sees of a pet on a leash: whether the hero has moved away from it, whether it is
   still within 3 or 5 squares, and whether it needs no breath, has no hit points left and is saved.
   */
  datatype Pull = Pull(away: bool, near3: bool, near5: bool, breathless: bool, exhausted: bool, saved: bool)

  datatype Strain = Slack | Chokes | Snaps

  /** A pet dragged too far is choked by a cursed leash, and breaks any other. */
  function Outcome(o: Item, p: Pull): Strain {
    if !p.away || p.near3 then Slack
    else if o.cursed && !p.breathless then if (p.near5 && !p.exhausted) || p.saved then Slack else Chokes
    else if p.near5 then Slack else Snaps
  }

  function Strained(m: Monster, strain: Strain): Monster {
    match strain
    case Slack => m
    case Chokes => m.(mleashed := false, dead := true)
    case Snaps => m.(mleashed := false)
  }

  /** `check_leash` has dealt with the first `n` items. */
  ghost predicate Checked(items: seq<Item>, pets: seq<Monster>, pulls: seq<Pull>, n: nat, invent: seq<Item>,
          monsters: seq<Monster>)
    requires n <= |items| == |pulls|
  {
    && |invent| == |items| && |monsters| == |pets|
    && (forall k :: 0 <= k < n ==>
          invent[k] == if InUse(items[k]) && Outcome(items[k], pulls[k]) != Slack
                       then items[k].(leashmon := 0) else items[k])
    && (forall k :: n <= k < |items| ==> invent[k] == items[k])
    && (forall k, j ::
          0 <= k < |items| && 0 <= j < |pets| && InUse(items[k]) && items[k].leashmon == AsInt(pets[j].id) ==>
          monsters[j] == if k < n then Strained(pets[j], Outcome(items[k], pulls[k])) else pets[j])
    && (forall j :: 0 <= j < |pets| && AsInt(pets[j].id) !in Used(items) ==> monsters[j] == pets[j])
  }

  lemma CheckedIdle(items: seq<Item>, pets: seq<Monster>, pulls: seq<Pull>, n: nat, invent: seq<Item>,
          monsters: seq<Monster>)
    requires n < |items| == |pulls| && Checked(items, pets, pulls, n, invent, monsters) && !InUse(items[n])
    ensures Checked(items, pets, pulls, n + 1, invent, monsters)
  {
    hide Outcome, Strained, Used;
  }

  /** Each monster has one leash, so that pulling at one leash does not touch what another holds. */
  lemma CheckedPulled(items: seq<Item>, pets: seq<Monster>, pulls: seq<Pull>, n: nat, invent: seq<Item>,
          monsters: seq<Monster>,
                      m: nat, inventAfter: seq<Item>, monstersAfter: seq<Monster>)
    requires Bijection(items, pets) && n < |items| == |pulls| && Checked(items, pets, pulls, n, invent, monsters)
    requires m < |monsters| && InUse(items[n]) && items[n].leashmon == AsInt(monsters[m].id)
    requires monstersAfter == monsters[m := Strained(monsters[m], Outcome(items[n], pulls[n]))]
    requires inventAfter == if Outcome(items[n], pulls[n]) == Slack then invent
              else invent[n := items[n].(leashmon := 0)]
    ensures Checked(items, pets, pulls, n + 1, inventAfter, monstersAfter)
  {
    SameIds(items, pets, pulls, n, invent, monsters);
    hide Outcome, Strained, Used, AsInt;
    assert AsInt(pets[m].id) == items[n].leashmon;
    assert monsters[m] == pets[m];
    assert items[n].leashmon in Used(items) by {
      UsedAt(items, n);
    }
    forall k, j | 0 <= k < |items| && 0 <= j < |pets| && InUse(items[k]) && items[k].leashmon == AsInt(pets[j].id)
      ensures monstersAfter[j] == if k < n + 1 then Strained(pets[j], Outcome(items[k], pulls[k])) else pets[j]
    {
      if k == n {
        AsIntInjective(pets[j].id, pets[m].id);
        assert j == m;
      } else {
        assert j != m;
      }
    }
  }

  lemma UsedAt(items: seq<Item>, n: nat)
    requires n < |items| && InUse(items[n])
    ensures items[n].leashmon in Used(items)
  {
  }

  lemma SameIds(items: seq<Item>, pets: seq<Monster>, pulls: seq<Pull>, n: nat, invent: seq<Item>,
          monsters: seq<Monster>)
    requires n <= |items| == |pulls| && Checked(items, pets, pulls, n, invent, monsters)
    ensures forall j :: 0 <= j < |pets| ==> monsters[j].id == pets[j].id
  {
    forall j | 0 <= j < |pets| ensures monsters[j].id == pets[j].id {
      if AsInt(pets[j].id) in Used(items) {
        var k :| 0 <= k < |items| && InUse(items[k]) && items[k].leashmon == AsInt(pets[j].id);
        assert monsters[j] == if k < n then Strained(pets[j], Outcome(items[k], pulls[k])) else pets[j];
      }
    }
  }

  class Level {
    var invent: seq<Item>
    var monsters: seq<Monster>

    ghost predicate Valid()
      reads this
    {
      Bijection(invent, monsters)
    }

    constructor ()
      ensures Valid() && invent == [] && monsters == []
    {
      invent, monsters := [], [];
    }

    /** `number_leashed`. */
    method CountLeashed() returns (n: nat)
      ensures n == NumberLeashed(invent)
      ensures Valid() ==> n == |Used(invent)|
    {
      n := 0;
      var i := 0;
      while i < |invent|
        invariant 0 <= i <= |invent| && n == NumberLeashed(invent[..i])
      {
        assert invent[..i + 1][..i] == invent[..i];
        if InUse(invent[i]) {
          n := n + 1;
        }
        i := i + 1;
      }
      assert invent[..i] == invent;
      if Valid() {
        NumberIsUsed(invent);
      }
    }

    /** `o_unleash`: the leash is about to be destroyed or stolen. */
    method OUnleash(i: nat)
      requires Valid() && i < |invent| && InUse(invent[i])
      modifies this
      ensures Valid() && invent == old(invent)[i := old(invent)[i].(leashmon := 0)]
      ensures Used(invent) == old(Used(invent)) - {old(invent)[i].leashmon}
      ensures Unmarks(old(monsters), monsters, old(invent)[i].leashmon)
    {
      ghost var before := monsters;
      var j := 0;
      while j < |monsters|
        invariant 0 <= j <= |monsters| == |before| && invent == old(invent)
        invariant forall k :: j <= k < |monsters| ==> monsters[k] == before[k]
        invariant forall k :: 0 <= k < j ==>
                    monsters[k] ==
                        before[k].(mleashed := before[k].mleashed && AsInt(before[k].id) != invent[i].leashmon)
      {
        if AsInt(monsters[j].id) == invent[i].leashmon {
          monsters := monsters[j := monsters[j].(mleashed := false)];
        }
        j := j + 1;
      }
      Detached(invent, before, i, invent[i].(leashmon := 0), monsters);
      invent := invent[i := invent[i].(leashmon := 0)];
    }

    /** `m_unleash`: the monster is about to die, to become wild or to leave. */
    method MUnleash(j: nat)
      requires Valid() && j < |monsters|
      modifies this
      ensures Valid() && monsters == old(monsters)[j := old(monsters)[j].(mleashed := false)]
      ensures |invent| == |old(invent)| && Used(invent) == old(Used(invent)) - {AsInt(old(monsters)[j].id)}
      ensures forall i :: 0 <= i < |invent| ==>
                invent[i] == if old(invent)[i].isLeash && old(invent)[i].leashmon == AsInt(old(monsters)[j].id)
                             then old(invent)[i].(leashmon := 0) else old(invent)[i]
    {
      ghost var before, pets := invent, monsters;
      var id := AsInt(monsters[j].id);
      OnlyOne(before, pets, j);
      var i := 0;
      while i < |invent|
        invariant 0 <= i <= |invent| == |before| && monsters == pets
        invariant forall k :: i <= k < |invent| ==> invent[k] == before[k]
        invariant forall k :: 0 <= k < i ==> invent[k] == Loosened(before[k], id)
      {
        if invent[i].isLeash && invent[i].leashmon == id {
          invent := invent[i := invent[i].(leashmon := 0)];
        }
        i := i + 1;
      }
      monsters := monsters[j := monsters[j].(mleashed := false)];
      Released(before, pets, j, invent);
    }

    /** `unleash_all`. */
    method UnleashAll()
      requires Valid()
      modifies this
      ensures Valid() && Used(invent) == {} && Marked(monsters) == {}
      ensures |invent| == |old(invent)| && |monsters| == |old(monsters)|
      ensures forall k :: 0 <= k < |invent| ==>
                invent[k] == if old(invent)[k].isLeash then old(invent)[k].(leashmon := 0) else old(invent)[k]
      ensures forall j :: 0 <= j < |monsters| ==> monsters[j] == old(monsters)[j].(mleashed := false)
    {
      ghost var items, pets := invent, monsters;
      var i := 0;
      while i < |invent|
        invariant 0 <= i <= |invent| == |items| && monsters == pets && forall k :: i <= k < |items| ==>
                  invent[k] == items[k]
        invariant forall k :: 0 <= k < i ==>
                  invent[k] == if items[k].isLeash then items[k].(leashmon := 0) else items[k]
      {
        if invent[i].isLeash {
          invent := invent[i := invent[i].(leashmon := 0)];
        }
        i := i + 1;
      }
      ghost var loose := invent;
      var j := 0;
      while j < |monsters|
        invariant 0 <= j <= |monsters| == |pets| && invent == loose
        invariant forall k :: 0 <= k < j ==> monsters[k] == pets[k].(mleashed := false)
        invariant forall k :: j <= k < |monsters| ==> monsters[k] == pets[k]
      {
        monsters := monsters[j := monsters[j].(mleashed := false)];
        j := j + 1;
      }
      NoneInUse(invent);
      assert Marked(monsters) == {};
    }

    /** `use_leash` on the creature at the chosen square; none when there is none or the hero changed her mind. */
    method UseLeash(i: nat, target: int) returns (used: bool)
      requires Valid() && i < |invent| && invent[i].isLeash && -1 <= target < |monsters| &&
                (target >= 0 ==> !monsters[target].dead)
      modifies this
      ensures Valid()
      ensures used <==> target >= 0 && old(monsters)[target].tame &&
                        (if old(invent)[i].leashmon == 0
                         then NumberLeashed(old(invent)) < 2 && !old(monsters)[target].mleashed
                         else old(invent)[i].leashmon == AsInt(old(monsters)[target].id))
      ensures !used ==> invent == old(invent) && monsters == old(monsters)
      ensures used && old(invent)[i].leashmon == 0 ==>
                invent == old(invent)[i := old(invent)[i].(leashmon := AsInt(old(monsters)[target].id))] &&
                monsters == old(monsters)[target := old(monsters)[target].(mleashed := true)]
      ensures used && old(invent)[i].leashmon != 0 ==>
                (if old(invent)[i].cursed then invent == old(invent) && monsters == old(monsters)
                 else invent == old(invent)[i := old(invent)[i].(leashmon := 0)] &&
                      monsters == old(monsters)[target := old(monsters)[target].(mleashed := false)])
    {
      var n := CountLeashed();
      if invent[i].leashmon == 0 && n >= MAXLEASHED {
        return false;
      }
      if target < 0 {
        return false;
      }
      if !monsters[target].tame {
        return false;
      }
      if invent[i].leashmon == 0 {
        if monsters[target].mleashed {
          return false;
        }
        Leashed(invent, monsters, i, target);
        monsters := monsters[target := monsters[target].(mleashed := true)];
        invent := invent[i := invent[i].(leashmon := AsInt(monsters[target].id))];
        return true;
      }
      if invent[i].leashmon != AsInt(monsters[target].id) {
        return false;
      } else {
        if invent[i].cursed {
          return true;
        }
        TakenOff(invent, monsters, i, target);
        monsters := monsters[target := monsters[target].(mleashed := false)];
        invent := invent[i := invent[i].(leashmon := 0)];
      }
      return true;
    }

    /**
     `next_to_u`: a leashed monster that cannot be brought next to the hero slips its leash, unless the
     leash is cursed.  `far` says which monsters stay out of reach.  The first one on a cursed leash
     ends the walk over the monsters.
     */
    method NextToU(far: seq<bool>, steedHasAmulet: bool) returns (together: bool, ghost n: nat)
      requires Valid() && |far| == |monsters|
      modifies this
      ensures Valid() && |invent| == |old(invent)| && n <= |monsters| == |old(monsters)|
      ensures forall j: nat :: j < n ==> !Stops(old(invent), old(monsters), far, j)
      ensures n < |monsters| ==> Stops(old(invent), old(monsters), far, n) && !together
      ensures n == |monsters| ==> together == !steedHasAmulet
      ensures forall j :: 0 <= j < |monsters| ==>
                monsters[j] == if j < n && far[j] then old(monsters)[j].(mleashed := false) else old(monsters)[j]
      ensures forall i :: 0 <= i < |invent| ==>
                invent[i] == if Slipped(old(invent)[i], old(monsters), far, n) then old(invent)[i].(leashmon := 0)
                    else old(invent)[i]
    {
      hide Bijection, AsInt, Holds, Used;
      ghost var items, pets := invent, monsters;
      var j := 0;
      while j < |monsters|
        invariant 0 <= j <= |monsters| == |pets| && |invent| == |items| && Valid()
        invariant forall k: nat :: k < j ==> !Stops(items, pets, far, k)
        invariant forall k :: 0 <= k < j ==> monsters[k] == if far[k] then pets[k].(mleashed := false) else pets[k]
        invariant forall k :: j <= k < |pets| ==> monsters[k] == pets[k]
        invariant forall i :: 0 <= i < |items| ==>
                    invent[i] == if Slipped(items[i], pets, far, j) then items[i].(leashmon := 0) else items[i]
      {
        ghost var id := AsInt(monsters[j].id);
        StillHolds(items, pets, far, j, invent, id);
        if !monsters[j].dead && monsters[j].mleashed && far[j] {
          var held := SlipLeash(j);
          if held {
            return false, j;
          }
        }
        j := j + 1;
      }
      return !steedHasAmulet, j;
    }

    /** The inner loop of `next_to_u`; a cursed leash holds. */
    method SlipLeash(j: nat) returns (held: bool)
      requires Valid() && j < |monsters| && monsters[j].mleashed
      modifies this
      ensures Valid() && |invent| == |old(invent)|
      ensures held <==> Holds(old(invent), AsInt(old(monsters)[j].id))
      ensures held <==> exists i :: 0 <= i < |invent| && old(invent)[i].isLeash &&
                                    old(invent)[i].leashmon == AsInt(old(monsters)[j].id) && old(invent)[i].cursed
      ensures held ==> invent == old(invent) && monsters == old(monsters)
      ensures !held ==> monsters == old(monsters)[j := old(monsters)[j].(mleashed := false)]
      ensures !held ==> forall i :: 0 <= i < |invent| ==>
                invent[i] == if old(invent)[i].isLeash && old(invent)[i].leashmon == AsInt(old(monsters)[j].id)
                             then old(invent)[i].(leashmon := 0) else old(invent)[i]
    {
      hide Bijection;
      ghost var items, pets := invent, monsters;
      var id := AsInt(monsters[j].id);
      ghost var slipped := false;
      OnlyOne(items, pets, j);
      var i := 0;
      while i < |invent|
        invariant 0 <= i <= |invent| == |items| && Valid()
        invariant monsters == if slipped then pets[j := pets[j].(mleashed := false)] else pets
        invariant slipped <==> exists k :: 0 <= k < i && InUse(items[k]) && items[k].leashmon == id
        invariant forall k :: 0 <= k < i ==> invent[k] == Loosened(items[k], id)
        invariant forall k :: 0 <= k < i && InUse(items[k]) && items[k].leashmon == id ==> !items[k].cursed
        invariant forall k :: i <= k < |items| ==> invent[k] == items[k]
      {
        if invent[i].isLeash && invent[i].leashmon == id {
          if invent[i].cursed {
            NotYet(items, pets, id, i);
            assert invent == items;
            return true;
          }
          TakenOff(invent, monsters, i, j);
          monsters := monsters[j := monsters[j].(mleashed := false)];
          invent := invent[i := invent[i].(leashmon := 0)];
          slipped := true;
        }
        i := i + 1;
      }
      return false;
    }

    /** A monster dies: it is unleashed first. */
    method Die(j: nat)
      requires Valid() && j < |monsters|
      modifies this
      ensures Valid() && monsters == old(monsters)[j := old(monsters)[j].(mleashed := false, dead := true)]
      ensures |invent| == |old(invent)| && Used(invent) == old(Used(invent)) - {AsInt(old(monsters)[j].id)}
      ensures forall i :: 0 <= i < |invent| ==>
                invent[i] == if old(invent)[i].isLeash && old(invent)[i].leashmon == AsInt(old(monsters)[j].id)
                             then old(invent)[i].(leashmon := 0) else old(invent)[i]
    {
      MUnleash(j);
      ghost var pets := monsters;
      monsters := monsters[j := monsters[j].(dead := true)];
      SameMarks(pets, monsters);
    }

    /** Dead monsters leave the list. */
    method Purge(j: nat)
      requires Valid() && j < |monsters| && monsters[j].dead
      modifies this
      ensures Valid() && monsters == old(monsters[..j] + monsters[j + 1..]) && invent == old(invent)
    {
      Purged(invent, monsters, j);
      monsters := monsters[..j] + monsters[j + 1..];
    }

    /** A monster arrives, or a leash is picked up: neither is in the relation yet. */
    method Arrive(id: MonsterId, tame: bool)
      requires Valid() && forall j :: 0 <= j < |monsters| ==> monsters[j].id != id
      modifies this
      ensures Valid() && monsters == old(monsters) + [Monster(id, false, tame, false)] && invent == old(invent)
    {
      ghost var before := monsters;
      monsters := monsters + [Monster(id, false, tame, false)];
      MarksAppended(before, monsters);
    }

    method PickUp(o: Item)
      requires Valid() && !InUse(o)
      modifies this
      ensures Valid() && invent == old(invent) + [o] && monsters == old(monsters)
    {
      UsesAppended(invent, o);
      invent := invent + [o];
    }

    /** `check_leash`, called when the hero has moved; `pulls` says what each leash undergoes. */
    method CheckLeash(pulls: seq<Pull>)
      requires Valid() && |pulls| == |invent|
      modifies this
      ensures Valid() && |invent| == |old(invent)| && |monsters| == |old(monsters)|
      ensures forall i :: 0 <= i < |invent| ==>
                invent[i] == if InUse(old(invent)[i]) && Outcome(old(invent)[i], pulls[i]) != Slack
                             then old(invent)[i].(leashmon := 0) else old(invent)[i]
      ensures forall i, j :: 0 <= i < |invent| && 0 <= j < |monsters| && InUse(old(invent)[i])
                             && old(invent)[i].leashmon == AsInt(old(monsters)[j].id) ==>
                monsters[j] == Strained(old(monsters)[j], Outcome(old(invent)[i], pulls[i]))
      ensures forall j :: 0 <= j < |monsters| && AsInt(old(monsters)[j].id) !in Used(old(invent)) ==>
                monsters[j] == old(monsters)[j]
    {
      hide Outcome, Strained, Used, Bijection;
      ghost var items, pets := invent, monsters;
      assert Checked(items, pets, pulls, 0, invent, monsters);
      var i := 0;
      while i < |invent|
        invariant 0 <= i <= |invent| == |items| && Valid() && Checked(items, pets, pulls, i, invent, monsters)
      {
        ghost var inventBefore, monstersBefore := invent, monsters;
        if InUse(invent[i]) {
          ghost var k := LeashLeadsToMonster(invent, monsters, i);
          var j := 0;
          while j < |monsters| && (monsters[j].dead || AsInt(monsters[j].id) != invent[i].leashmon)
            invariant 0 <= j <= k
          {
            j := j + 1;
          }
          // the leash in use is always attached to something
          assert j < |monsters|;
          Pulled(j, i, pulls[i]);
          CheckedPulled(items, pets, pulls, i, inventBefore, monstersBefore, j, invent, monsters);
        } else {
          CheckedIdle(items, pets, pulls, i, invent, monsters);
        }
        i := i + 1;
      }
    }

    /** What `check_leash` does to the monster `j` on the leash `i`. */
    method Pulled(j: nat, i: nat, p: Pull)
      requires Valid() && j < |monsters| && i < |invent| && InUse(invent[i]) &&
                invent[i].leashmon == AsInt(monsters[j].id)
      modifies this
      ensures Valid() && |invent| == |old(invent)|
      ensures !p.away || p.near3 ==> monsters == old(monsters) && invent == old(invent)
      ensures p.near5 && !(old(invent)[i].cursed && p.exhausted) ==> monsters == old(monsters) && invent == old(invent)
      ensures p.away && !p.near3 && old(invent)[i].cursed && !p.breathless ==>
                monsters == old(monsters)[j :=
                  if p.saved || (p.near5 && !p.exhausted) then old(monsters)[j]
                  else old(monsters)[j].(mleashed := false, dead := true)]
      ensures p.away && !p.near5 && !p.near3 && !(old(invent)[i].cursed && !p.breathless) ==>
                monsters == old(monsters)[j := old(monsters)[j].(mleashed := false)]
      ensures monsters == old(monsters)[j := Strained(old(monsters)[j], Outcome(old(invent)[i], p))]
      ensures invent == if Outcome(old(invent)[i], p) == Slack then old(invent)
                else old(invent)[i := old(invent)[i].(leashmon := 0)]
    {
      if p.away {
        if p.near3 {
          // still close enough
        } else if invent[i].cursed && !p.breathless {
          if (!p.near5 || p.exhausted) && !p.saved {
            Die(j);
          }
        } else if !p.near5 {
          MUnleash(j);
        }
      }
    }
  }

  /** Monsters that slipped their leashes earlier do not change what holds the next one. */
  lemma StillHolds(items: seq<Item>, pets: seq<Monster>, far: seq<bool>, j: nat, invent: seq<Item>, id: int)
    requires Bijection(items, pets) && j < |pets| == |far| && id == AsInt(pets[j].id) && |invent| == |items|
    requires forall i :: 0 <= i < |items| ==>
               invent[i] == if Slipped(items[i], pets, far, j) then items[i].(leashmon := 0) else items[i]
    ensures Holds(invent, id) <==> Holds(items, id)
    ensures pets[j].dead ==> !pets[j].mleashed
    ensures forall i :: 0 <= i < |items| ==>
              Slipped(items[i], pets, far, j + 1) == (Slipped(items[i], pets, far, j) ||
                                                      (InUse(items[i]) && far[j] && pets[j].mleashed &&
                                                          items[i].leashmon == id))
    ensures forall i :: 0 <= i < |items| && InUse(items[i]) && items[i].leashmon == id ==> invent[i] == items[i]
  {
    forall i | 0 <= i < |items| && InUse(items[i]) && items[i].leashmon == id ensures invent[i] == items[i] {
      if Slipped(items[i], pets, far, j) {
        var k :| 0 <= k < j && far[k] && pets[k].mleashed && AsInt(pets[k].id) == items[i].leashmon;
        AsIntInjective(pets[k].id, pets[j].id);
        assert false;
      }
    }
  }

  lemma NotYet(items: seq<Item>, monsters: seq<Monster>, id: int, i: nat)
    requires i < |items| && Bijection(items, monsters) && InUse(items[i]) && items[i].leashmon == id
    ensures forall k :: 0 <= k < |items| && k != i && InUse(items[k]) ==> items[k].leashmon != id
  {
  }

  lemma OnlyOne(invent: seq<Item>, monsters: seq<Monster>, j: nat)
    requires Bijection(invent, monsters) && j < |monsters|
    ensures AsInt(monsters[j].id) in Used(invent) <==> monsters[j].mleashed
  {
    MarkedIffOneLeash(invent, monsters, j);
  }

  lemma SingleUnmark(monsters: seq<Monster>, j: nat)
    requires DistinctIds(monsters) && j < |monsters|
    ensures Unmarks(monsters, monsters[j := monsters[j].(mleashed := false)], AsInt(monsters[j].id))
  {
    var after := monsters[j := monsters[j].(mleashed := false)];
    forall k | 0 <= k < |after| ensures after[k] ==
        monsters[k].(mleashed := monsters[k].mleashed && AsInt(monsters[k].id) != AsInt(monsters[j].id)) {
      if k != j && AsInt(monsters[k].id) == AsInt(monsters[j].id) {
        AsIntInjective(monsters[k].id, monsters[j].id);
      }
    }
  }

  lemma TakenOff(invent: seq<Item>, monsters: seq<Monster>, i: nat, j: nat)
    requires Bijection(invent, monsters) && i < |invent| && j < |monsters|
    requires InUse(invent[i]) && invent[i].leashmon == AsInt(monsters[j].id)
    ensures Bijection(invent[i := invent[i].(leashmon := 0)], monsters[j := monsters[j].(mleashed := false)])
  {
    SingleUnmark(monsters, j);
    Detached(invent, monsters, i, invent[i].(leashmon := 0), monsters[j := monsters[j].(mleashed := false)]);
  }

  lemma Released(before: seq<Item>, monsters: seq<Monster>, j: nat, after: seq<Item>)
    requires Bijection(before, monsters) && j < |monsters| && |after| == |before|
    requires forall k :: 0 <= k < |after| ==> after[k] == Loosened(before[k], AsInt(monsters[j].id))
    ensures Bijection(after, monsters[j := monsters[j].(mleashed := false)])
    ensures Used(after) == Used(before) - {AsInt(monsters[j].id)}
  {
    var id := AsInt(monsters[j].id);
    if id in Used(before) {
      var i :| 0 <= i < |before| && InUse(before[i]) && before[i].leashmon == id;
      assert after == before[i := before[i].(leashmon := 0)] by {
        forall k | 0 <= k < |after| && k != i ensures after[k] == before[k] {
        }
      }
      SingleUnmark(monsters, j);
      Detached(before, monsters, i, before[i].(leashmon := 0), monsters[j := monsters[j].(mleashed := false)]);
    } else {
      forall k | 0 <= k < |after| ensures after[k] == before[k] {
        if InUse(before[k]) {
          assert before[k].leashmon in Used(before);
        }
      }
      assert after == before;
      OnlyOne(before, monsters, j);
      assert monsters[j := monsters[j].(mleashed := false)] == monsters;
    }
  }

  lemma {:induction false} NoneInUse(invent: seq<Item>)
    requires forall k :: 0 <= k < |invent| ==> !InUse(invent[k])
    ensures NumberLeashed(invent) == 0 && Used(invent) == {}
  {
    if invent != [] {
      NoneInUse(invent[..|invent| - 1]);
    }
  }

  lemma SameMarks(before: seq<Monster>, after: seq<Monster>)
    requires |after| == |before| && forall k :: 0 <= k < |after| ==> after[k] == before[k].(dead := after[k].dead)
    ensures Marked(after) == Marked(before)
  {
    forall x | x in Marked(before) ensures x in Marked(after) {
      var j :| 0 <= j < |before| && before[j].mleashed && AsInt(before[j].id) == x;
      assert after[j].mleashed && AsInt(after[j].id) == x;
    }
    forall x | x in Marked(after) ensures x in Marked(before) {
      var j :| 0 <= j < |after| && after[j].mleashed && AsInt(after[j].id) == x;
      assert before[j].mleashed && AsInt(before[j].id) == x;
    }
  }

  lemma Purged(invent: seq<Item>, monsters: seq<Monster>, j: nat)
    requires Bijection(invent, monsters) && j < |monsters| && monsters[j].dead
    ensures Bijection(invent, monsters[..j] + monsters[j + 1..])
  {
    var after := monsters[..j] + monsters[j + 1..];
    assert forall k {:trigger after[k]} :: 0 <= k < |after| ==> after[k] == monsters[if k < j then k else k + 1];
    forall x | x in Marked(monsters) ensures x in Marked(after) {
      var k :| 0 <= k < |monsters| && monsters[k].mleashed && AsInt(monsters[k].id) == x;
      assert after[if k < j then k else k - 1] == monsters[k];
    }
    forall x | x in Marked(after) ensures x in Marked(monsters) {
      var k :| 0 <= k < |after| && after[k].mleashed && AsInt(after[k].id) == x;
      assert after[k] == monsters[if k < j then k else k + 1];
    }
  }

  lemma MarksAppended(before: seq<Monster>, after: seq<Monster>)
    requires |after| == |before| + 1 && after[..|before|] == before && !after[|before|].mleashed
    ensures Marked(after) == Marked(before)
  {
    assert forall k :: 0 <= k < |before| ==> after[k] == after[..|before|][k];
    forall x | x in Marked(before) ensures x in Marked(after) {
      var j :| 0 <= j < |before| && before[j].mleashed && AsInt(before[j].id) == x;
      assert after[j] == before[j];
    }
    forall x | x in Marked(after) ensures x in Marked(before) {
      var j :| 0 <= j < |after| && after[j].mleashed && AsInt(after[j].id) == x;
      assert after[j] == before[j];
    }
  }

  lemma UsesAppended(invent: seq<Item>, o: Item)
    requires !InUse(o)
    ensures Used(invent + [o]) == Used(invent) && NumberLeashed(invent + [o]) == NumberLeashed(invent)
  {
    var after := invent + [o];
    assert after[..|invent|] == invent;
    forall x | x in Used(invent) ensures x in Used(after) {
      var k :| 0 <= k < |invent| && InUse(invent[k]) && invent[k].leashmon == x;
      assert after[k] == invent[k];
    }
    forall x | x in Used(after) ensures x in Used(invent) {
      var k :| 0 <= k < |after| && InUse(after[k]) && after[k].leashmon == x;
      assert after[k] == invent[k];
    }
  }
}
