/**
  The wrap-around field iterator of pb_common.c, and the memory layout it walks.
 */
module NanopbFieldIter {
  import opened Words
  import opened NanopbWire
  import opened NanopbMessage
  import opened NanopbDecode

  /** The bytes that the data of an entry occupies in the struct. */
  function Extent(f: Field): nat
  {
    if f.htype.REPEATED? then f.dataSize * f.arraySize else f.dataSize
  }

  /** Where a fresh walk from the start of the description finds the data of entry i. */
  function Offset(d: Desc, i: nat): nat
    requires i < |d|
  {
    if i == 0 then d[0].dataOffset
    else if Cont(d, i) then Offset(d, i - 1)
    else Offset(d, i - 1) + Extent(d[i - 1]) + d[i].dataOffset
  }

  /** Entries of one slot are at one address; that is what makes them share storage. */
  lemma {:induction false} OffsetOfHome(d: Desc, i: nat)
    requires i < |d|
    ensures Offset(d, i) == Offset(d, Home(d, i))
  {
    if Cont(d, i) { OffsetOfHome(d, i - 1); }
  }

  /**
    Data of different slots never overlaps, up to the members of a oneof other than the last:
    a later slot starts where the last entry before it ends, or after.
   */
  lemma {:induction false} SlotsDisjoint(d: Desc, i: nat, j: nat)
    requires i < j < |d| && Home(d, i) != Home(d, j)
    requires i + 1 < |d| && !Cont(d, i + 1)
    ensures Offset(d, i) + Extent(d[i]) <= Offset(d, j)
    decreases j
  {
    if j > i + 1 {
      if Home(d, j - 1) == Home(d, i) {
        HomeBetween(d, j - 1, i + 1);
      }
      SlotsDisjoint(d, i, j - 1);
    }
  }

  class FieldIter {
    const start: Desc
    var pos: nat
    var requiredFieldIndex: nat
    var pData: nat

    /** The iterator state is what a fresh walk to `pos` would have produced. */
    ghost predicate Valid()
      reads this
    {
      if start == [] then pos == 0 && requiredFieldIndex == 0
      else pos < |start| && requiredFieldIndex == RequiredIndex(start, pos) && pData == Offset(start, pos)
    }

    /** pb_field_iter_begin. The terminator of an empty description has offset 0. */
    constructor (fields: Desc)
      ensures Valid() && start == fields && pos == 0
    {
      start := fields;
      pos := 0;
      requiredFieldIndex := 0;
      pData := if fields == [] then 0 else fields[0].dataOffset;
    }

    /** pb_field_iter_begin on an iterator in use: the wrap-around. */
    method Rewind()
      modifies this
      ensures Valid() && pos == 0
    {
      pos := 0;
      requiredFieldIndex := 0;
      pData := if start == [] then 0 else start[0].dataOffset;
    }

    /** pb_field_iter_next */
    method Next() returns (more: bool)
      requires Valid()
      modifies this
      ensures Valid()
      ensures more <==> old(pos) + 1 < |start|
      ensures pos == if more then old(pos) + 1 else 0
    {
      if start == [] {
        return false;
      }
      var prev := start[pos];
      pos := pos + 1;
      if pos == |start| {
        Rewind();
        return false;
      }
      var prevSize := prev.dataSize;
      if prev.htype.ONEOF? && start[pos].htype.ONEOF? && start[pos].dataOffset == PB_SIZE_MAX {
        // The next member of the same oneof is stored where this one is.
        return true;
      } else if prev.htype.REPEATED? {
        prevSize := prevSize * prev.arraySize;
      }
      if prev.htype.REQUIRED? {
        requiredFieldIndex := requiredFieldIndex + 1;
      }
      pData := pData + prevSize + start[pos].dataOffset;
      return true;
    }

    /**
      pb_field_iter_find: search from the current entry, around the end, back to where it
      started. The terminator of an empty description matches tag 0.
     */
    method Find(tag: nat) returns (found: bool)
      requires Valid()
      modifies this
      ensures Valid()
      ensures found <==> (start == [] && tag == 0) || exists i :: 0 <= i < |start| && start[i].tag == tag
      ensures found && start != [] ==> start[pos].tag == tag
      ensures !found ==> pos == old(pos)
    {
      if start == [] {
        return tag == 0;
      }
      var first := pos;
      ghost var steps := 0;
      while true
        invariant Valid() && 0 <= steps < |start|
        invariant pos == if first + steps < |start| then first + steps else first + steps - |start|
        invariant forall i :: first <= i < |start| && i < first + steps ==> start[i].tag != tag
        invariant forall i :: 0 <= i < first && i < first + steps - |start| ==> start[i].tag != tag
        decreases |start| - steps
      {
        if start[pos].tag == tag {
          return true;
        }
        var _ := Next();
        if pos == first {
          return false;
        }
        steps := steps + 1;
      }
    }
  }
}
