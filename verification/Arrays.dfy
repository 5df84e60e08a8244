/** The growable pointer array of `json_array_t` in `value.c`, without its reference counts. */
module Arrays {
  import T = Tables

  function Max(a: nat, b: nat): nat { if a > b then a else b }

  lemma PeakIs(a: nat, b: nat)
    ensures Max(a, b) >= b
  {
  }

  lemma Joined<E>(s: seq<E>, k: nat, n: nat)
    requires k + n <= |s|
    ensures s[..k + n] == s[..k] + s[k..k + n]
  {
  }

  /** `array_copy`, between different tables. */
  method ArrayCopy<E>(dest: array<E>, dpos: nat, src: array<E>, spos: nat, count: nat)
    requires dest != src && dpos + count <= dest.Length && spos + count <= src.Length
    modifies dest
    ensures dest[..dpos] == old(dest[..dpos]) && dest[dpos + count..] == old(dest[dpos + count..])
    ensures dest[dpos..dpos + count] == src[spos..spos + count]
  {
    forall i | 0 <= i < count {
      dest[dpos + i] := src[spos + i];
    }
  }

  /** `array_move`: the ranges may overlap. */
  method ArrayMove<E>(table: array<E>, dest: nat, src: nat, count: nat)
    requires dest + count <= table.Length && src + count <= table.Length
    modifies table
    ensures table[..dest] == old(table[..dest]) && table[dest + count..] == old(table[dest + count..])
    ensures table[dest..dest + count] == old(table[src..src + count])
  {
    forall i | 0 <= i < count {
      table[dest + i] := table[src + i];
    }
  }

  class PointerArray<E(0)> {
    var table: array<E>
    var size: nat
    var entries: nat
    /** The largest number of entries there has been. */
    ghost var peak: nat

    /** The capacity is the initial one, or less than twice what was needed at some time. */
    ghost predicate Valid()
      reads this
    {
      size == table.Length && entries <= size && entries <= peak && (size == 8 || size < 2 * peak)
    }

    function Contents(): (s: seq<E>)
      requires Valid()
      reads this, table
    {
      table[..entries]
    }

    constructor ()
      ensures Valid() && fresh(table) && Contents() == [] && size == 8
    {
      entries, size, peak := 0, 8, 0;
      table := new E[8];
    }

    /** `json_array_grow`: room for `amount` more, with the entries copied when `copy` says so. */
    method Grow(amount: nat, copy: bool) returns (oldTable: array<E>)
      requires Valid() && amount > 0
      modifies this`table, this`size
      ensures size == table.Length && entries + amount <= size && (table == old(table) || fresh(table))
      ensures size == 8 || size < 2 * Max(peak, entries + amount)
      ensures table == old(table) ==> size == old(size) && oldTable == table
      ensures table != old(table) && copy ==> oldTable == table && table[..entries] == old(table[..entries])
      ensures table != old(table) && !copy ==> oldTable == old(table)
    {
      if entries + amount <= size {
        return table;
      }
      oldTable := table;
      var newSize := Max(size + amount, size * 2);
      var newTable := new E[newSize];
      size := newSize;
      table := newTable;
      if copy {
        ArrayCopy(table, 0, oldTable, 0, entries);
        assert table[..entries] == oldTable[..entries];
        return table;
      }
    }

    method Append(value: E)
      requires Valid()
      modifies this, table
      ensures Valid() && (table == old(table) || fresh(table)) && Contents() == old(Contents()) + [value]
      ensures peak == Max(old(peak), entries)
    {
      var _ := Grow(1, true);
      table[entries] := value;
      assert table[..entries] == old(Contents());
      entries := entries + 1;
      peak := Max(peak, entries);
      assert table[..entries] == table[..entries - 1] + [value];
    }

    /** `json_array_insert_new` without its ownership; -1 when the index is out of range. */
    method Insert(index: nat, value: E) returns (rc: int)
      requires Valid()
      modifies this, table
      ensures Valid() && (table == old(table) || fresh(table))
      ensures rc == (if index <= old(entries) then 0 else -1)
      ensures rc == 0 ==> Contents() == T.InsertAt(old(Contents()), index, value) && peak == Max(old(peak), entries)
      ensures rc == -1 ==> Contents() == old(Contents()) && table == old(table) && peak == old(peak)
    {
      if index > entries {
        return -1;
      }
      ghost var before := Contents();
      var oldTable := Grow(1, false);
      OpenGap(oldTable, index);
      PutInGap(index, value, before);
      return 0;
    }

    /** The entries from `index` on move up, within the table or into a new one. */
    method OpenGap(oldTable: array<E>, index: nat)
      requires index <= entries < size == table.Length && entries <= oldTable.Length
      modifies table
      ensures table[..index] == old(oldTable[..index]) && table[index + 1..entries + 1] == old(oldTable[index..entries])
    {
      if oldTable != table {
        ArrayCopy(table, 0, oldTable, 0, index);
        ghost var front := table[..index];
        ArrayCopy(table, index + 1, oldTable, index, entries - index);
        assert table[..index] == table[..index + 1][..index] == front;
      } else {
        ArrayMove(table, index + 1, index, entries - index);
        assert table[..index] == table[..index + 1][..index] == old(table[..index + 1][..index]);
      }
    }

    method PutInGap(index: nat, value: E, ghost before: seq<E>)
      requires size == table.Length && entries < size && index <= entries == |before| &&
                (size == 8 || size < 2 * Max(peak, entries + 1))
      requires entries <= peak
      requires table[..index] == before[..index] && table[index + 1..entries + 1] == before[index..]
      modifies table, this`entries, this`peak
      ensures Valid() && Contents() == T.InsertAt(before, index, value) && peak == Max(old(peak), entries)
    {
      table[index] := value;
      entries := entries + 1;
      peak := Max(peak, entries);
      assert table[..index] == before[..index];
      assert table[..entries] == table[..index] + [value] + table[index + 1..entries];
    }

    method Set(index: nat, value: E) returns (rc: int)
      requires Valid()
      modifies table
      ensures Valid() && rc == (if index < entries then 0 else -1)
      ensures Contents() == if rc == 0 then old(Contents())[index := value] else old(Contents())
    {
      if index >= entries {
        return -1;
      }
      table[index] := value;
      return 0;
    }

    /** `json_array_remove`: the live entries behind the index move down. */
    method Remove(index: nat) returns (rc: int)
      requires Valid()
      modifies this`entries, table
      ensures Valid() && rc == (if index < old(entries) then 0 else -1)
      ensures Contents() == if rc == 0 then T.RemoveAt(old(Contents()), index) else old(Contents())
    {
      if index >= entries {
        return -1;
      }
      ghost var before := Contents();
      ArrayMove(table, index, index + 1, entries - index - 1);
      entries := entries - 1;
      assert table[..entries] == before[..index] + before[index + 1..];
      return 0;
    }

    method Clear()
      requires Valid()
      modifies this`entries
      ensures Valid() && Contents() == []
    {
      entries := 0;
    }

    /** `json_array_extend`; `other` may be this array, whose table may just have been replaced. */
    method Extend(other: PointerArray<E>)
      requires Valid() && other.Valid() && (other == this || other.table != table)
      modifies this, table
      ensures Valid() && (table == old(table) || fresh(table))
      ensures Contents() == old(Contents()) + old(other.Contents())
      ensures peak == Max(old(peak), entries)
      ensures other != this ==> other.Valid() && other.Contents() == old(other.Contents())
    {
      ghost var before, added := Contents(), other.Contents();
      var n := other.entries;
      if n > 0 {
        var _ := Grow(n, true);
      }
      assert table[..entries] == before;
      AppendAll(other.table, n, before, added);
    }

    /** The first `n` entries of `source`, which may be this array's own table, go behind the entries. */
    method AppendAll(source: array<E>, n: nat, ghost before: seq<E>, ghost added: seq<E>)
      requires size == table.Length && entries + n <= size && n <= source.Length && entries <= peak
      requires size == 8 || size < 2 * Max(peak, entries + n)
      requires table[..entries] == before && source[..n] == added
      modifies table, this`entries, this`peak
      ensures Valid() && Contents() == before + added && peak == Max(old(peak), entries)
    {
      hide Max;
      if source == table {
        ArrayMove(table, entries, 0, n);
      } else {
        ArrayCopy(table, entries, source, 0, n);
      }
      Joined(table[..], entries, n);
      entries := entries + n;
      peak := Max(peak, entries);
      PeakIs(old(peak), entries);
    }
  }
}
