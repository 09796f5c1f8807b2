/** pb_field_iter_t: walking a descriptor while recomputing struct offsets from its deltas. */
module FieldIterator {
  import opened Words
  import opened Descriptor
  import opened RequiredBits

  /** Bytes the member occupies in the struct: data_size tells the size of a single array entry. */
  function MemberSize(f: Field): nat {
    if f.htype.Repeated? then f.dataSize * f.arraySize else f.dataSize
  }

  /** What the iterator's pData holds, relative to the struct, when it stands at entry i. */
  function DataAt(fields: seq<Field>, i: nat): int
    requires i < |fields|
  {
    if i == 0 then fields[0].dataOffset
    else if Joined(fields, i) then DataAt(fields, i - 1)
    else DataAt(fields, i - 1) + MemberSize(fields[i - 1]) + fields[i].dataOffset
  }

  /** What pSize holds: inside a union it is not recomputed. */
  function CellAt(fields: seq<Field>, i: nat): int
    requires i < |fields|
  {
    if Joined(fields, i) then CellAt(fields, i - 1) else DataAt(fields, i) + fields[i].sizeOffset
  }

  // ----- the layout the descriptor was generated from

  /** Offsets of each entry's data and of its has_/count/which_ cell; the cell of an entry without one is its data. */
  datatype Layout = Layout(data: seq<nat>, cell: seq<int>)

  /** Entry i was written by the PB_FIELD macros for this layout: FIRST, UNION or OTHER placement. */
  predicate Generated(fields: seq<Field>, l: Layout, i: nat)
    requires i < |fields| == |l.data| == |l.cell|
  {
    && fields[i].sizeOffset == l.cell[i] - l.data[i]
    && if i == 0 then fields[0].dataOffset == l.data[0]
       else if fields[i].dataOffset == PB_SIZE_MAX then
         // PB_DATAOFFSET_UNION: another member of the union the previous entry belongs to.
         && fields[i - 1].htype.Oneof? && fields[i].htype.Oneof?
         && l.data[i] == l.data[i - 1] && l.cell[i] == l.cell[i - 1]
       else
         // PB_DATAOFFSET_OTHER: the gap after the previous member.
         fields[i].dataOffset == l.data[i] - l.data[i - 1] - MemberSize(fields[i - 1])
  }

  predicate Describes(fields: seq<Field>, l: Layout) {
    |fields| == |l.data| == |l.cell| && forall i :: 0 <= i < |fields| ==> Generated(fields, l, i)
  }

  /** The iterator inverts the macros: at every entry its pointers are the true offsets, unions included. */
  lemma {:induction false} PointersAreTrue(fields: seq<Field>, l: Layout, i: nat)
    requires Describes(fields, l) && i < |fields|
    ensures DataAt(fields, i) == l.data[i] && CellAt(fields, i) == l.cell[i]
  {
    assert Generated(fields, l, i);
    if i > 0 { PointersAreTrue(fields, l, i - 1); }
  }

  class FieldIter {
    const start: seq<Field>
    const destStruct: int
    var pos: nat
    var requiredFieldIndex: nat
    var pData: int
    var pSize: int
    /** The slot pData points at, in the message values of Descriptor. */
    var slot: nat

    /** pos stands at an entry, or at the terminator of an empty descriptor. */
    ghost predicate Valid()
      reads this
    {
      if start == [] then pos == 0 && requiredFieldIndex == 0
      else
        && pos < |start|
        && requiredFieldIndex == RequiredBefore(start, pos)
        && pData == destStruct + DataAt(start, pos)
        && pSize == destStruct + CellAt(start, pos)
        && slot == SlotOf(start, pos)
    }

    /** pb_field_iter_begin. */
    constructor (fields: seq<Field>, destStruct: int)
      ensures Valid() && start == fields && this.destStruct == destStruct && pos == 0
    {
      start, this.destStruct := fields, destStruct;
      new;
      Begin();
    }

    method Begin()
      modifies this
      ensures Valid() && pos == 0
    {
      pos, requiredFieldIndex, slot := 0, 0, 0;
      pData := destStruct + (if start == [] then 0 else start[0].dataOffset);
      pSize := pData + (if start == [] then 0 else start[0].sizeOffset);
    }

    /** pb_field_iter_next: one step of the cycle; false on the step that returns to the first entry. */
    method Next() returns (more: bool)
      requires Valid()
      modifies this
      ensures Valid()
      ensures more == (old(pos) + 1 < |start|)
      ensures pos == if more then old(pos) + 1 else 0
    {
      if start == [] {
        return false;
      }
      var prev := start[pos];
      pos := pos + 1;
      if pos == |start| {
        Begin();
        return false;
      }
      if prev.htype.Oneof? && start[pos].htype.Oneof? && start[pos].dataOffset == PB_SIZE_MAX {
        return true;
      }
      var prevSize := prev.dataSize;
      if prev.htype.Repeated? {
        prevSize := prevSize * prev.arraySize;
      }
      if prev.htype.Required? {
        requiredFieldIndex := requiredFieldIndex + 1;
      }
      pData := pData + prevSize + start[pos].dataOffset;
      pSize := pData + start[pos].sizeOffset;
      slot := slot + 1;
      return true;
    }

    /**
     pb_field_iter_find: from wherever the iterator stands, one cycle finds the entry with the tag if there
     is one, and otherwise comes back to where it started. An empty descriptor's terminator has tag 0.
     */
    method Seek(tag: nat) returns (found: bool)
      requires Valid() && DistinctTags(start)
      modifies this
      ensures Valid()
      ensures found <==> Find(start, tag).Some? || (start == [] && tag == 0)
      ensures found && start != [] ==> Find(start, tag) == Some(pos)
      ensures !found ==> pos == old(pos)
    {
      if start == [] {
        // do { if (pos->tag == tag) return true; next } while (pos != start): the terminator only.
        return tag == 0;
      }
      var first := pos;
      ghost var wrapped := false;
      var again := true;
      while again
        invariant Valid()
        invariant if wrapped then (if again then pos < first else pos == first) else again && first <= pos
        invariant forall j :: (if wrapped then 0 <= j < pos || first <= j < |start| else first <= j < pos) ==> start[j].tag != tag
        decreases if wrapped then first - pos else |start| + |start| - pos, again
      {
        if start[pos].tag == tag {
          FindIs(start, pos);
          return true;
        }
        var more := Next();
        wrapped := wrapped || !more;
        again := pos != first;
      }
      return false;
    }
  }
}
