/** The growable byte buffer of `strbuffer.c`. */
module StrBuffers {
  import opened Bytes

  const MIN_SIZE: nat := 16
  const FACTOR: nat := 2

  /** The growth test of `strbuffer_append_bytes`: the arithmetic that follows it would wrap. */
  predicate WouldWrap(size: nat, length: nat, extra: nat) {
    size > SIZE_MAX / FACTOR || extra > SIZE_MAX - 1 || length > SIZE_MAX - 1 - extra
  }

  predicate Refuses(size: nat, length: nat, extra: nat) {
    extra >= size - length && WouldWrap(size, length, extra)
  }

  class StrBuffer {
    var value: array<byte>
    var length: nat
    var size: nat

    /** `length < size`, a terminator after the contents, and sizes that fit `size_t`. */
    ghost predicate Valid()
      reads this, value
    {
      MIN_SIZE <= size == value.Length <= SIZE_MAX && length < size && value[length] == 0
    }

    function Contents(): Text
      requires Valid()
      reads this, value
    {
      value[..length]
    }

    constructor ()
      ensures Valid() && fresh(value) && Contents() == []
    {
      size := MIN_SIZE;
      length := 0;
      value := new byte[MIN_SIZE](_ => 0);
    }

    method Clear()
      requires Valid()
      modifies this`length, value
      ensures Valid() && value == old(value) && Contents() == []
    {
      length := 0;
      value[0] := 0;
    }

    method AppendBytes(data: Text) returns (rc: int)
      requires Valid()
      modifies this, value
      ensures Valid() && (value == old(value) || fresh(value))
      ensures rc == 0 || rc == -1
      ensures rc == -1 <==> Refuses(old(size), old(length), |data|)
      ensures rc == 0 ==> Contents() == old(Contents()) + data
      ensures rc == -1 ==> Contents() == old(Contents()) && old(length) + |data| > SIZE_MAX / FACTOR
    {
      ghost var before := Contents();
      if |data| >= size - length {
        if size > SIZE_MAX / FACTOR || |data| > SIZE_MAX - 1 || length > SIZE_MAX - 1 - |data| {
          return -1;
        }
        var newSize := if size * FACTOR > length + |data| + 1 then size * FACTOR else length + |data| + 1;
        assert size * FACTOR <= SIZE_MAX && length + |data| + 1 <= SIZE_MAX;
        var newValue := new byte[newSize](_ => 0);
        forall i | 0 <= i < length {
          newValue[i] := value[i];
        }
        assert newValue[..length] == before;
        value := newValue;
        size := newSize;
      }
      Put(data, before);
      return 0;
    }

    /** The last step of `strbuffer_append_bytes`, when there is room. */
    method Put(data: Text, ghost before: Text)
      requires MIN_SIZE <= size == value.Length <= SIZE_MAX && length + |data| < size && value[..length] == before
      modifies value, this`length
      ensures Valid() && Contents() == before + data
    {
      forall i | 0 <= i < |data| {
        value[length + i] := data[i];
      }
      assert value[..length] == before;
      assert value[..length + |data|] == before + data;
      length := length + |data|;
      value[length] := 0;
    }

    method AppendByte(b: byte) returns (rc: int)
      requires Valid()
      modifies this, value
      ensures Valid() && (value == old(value) || fresh(value))
      ensures rc == 0 || rc == -1
      ensures rc == -1 <==> Refuses(old(size), old(length), 1)
      ensures rc == 0 ==> Contents() == old(Contents()) + [b]
      ensures rc == -1 ==> Contents() == old(Contents()) && old(length) >= SIZE_MAX / FACTOR
    {
      rc := AppendBytes([b]);
    }

    method Pop() returns (c: byte)
      requires Valid()
      modifies this`length, value
      ensures Valid() && value == old(value)
      ensures old(Contents()) == [] ==> c == 0 && Contents() == []
      ensures old(Contents()) != [] ==> old(Contents()) == Contents() + [c]
    {
      if length > 0 {
        length := length - 1;
        c := value[length];
        value[length] := 0;
        assert old(Contents()) == Contents() + [c];
        return c;
      } else {
        return 0;
      }
    }
  }
}
