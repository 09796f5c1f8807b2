/** Array counts at every depth of a struct, and structs in which all but one array entry are in order. */
module ArrayCounts {
  import opened Words
  import opened Scalars
  import opened Descriptor
  import opened FieldIterator
  import opened FailedRuns
  import opened StructLayout

  // ----- all counts within bounds

  /** Every array count of the struct, at every depth, is within array_size. */
  ghost predicate Deep(fields: seq<Field>, bytes: seq<byte>)
    requires Laid(fields, |bytes|)
    decreases fields, 3
  {
    forall i :: 0 <= i < |fields| ==> DeepEntry(fields, bytes, i)
  }

  ghost predicate DeepEntry(fields: seq<Field>, bytes: seq<byte>, i: nat)
    requires Laid(fields, |bytes|) && i < |fields|
    decreases fields, 2
  {
    assert InStruct(fields, i, |bytes|) && fields[i] in fields;
    DeepSlot(fields[i], DataBytes(fields, bytes, i), CellBytes(fields, bytes, i))
  }

  /** A union's content counts as the named member's. */
  ghost predicate DeepSlot(f: Field, data: seq<byte>, cell: seq<byte>)
    requires LaidField(f) && |data| == MemberSize(f) && |cell| == CellSize(f)
    decreases f, 2
  {
    match f.htype
    case Required => DeepItem(f, data)
    case Optional => DeepItem(f, data)
    case Repeated => FromLittleEndian(cell) <= f.arraySize && DeepItems(f, data, FromLittleEndian(cell))
    case Oneof => FromLittleEndian(cell) == f.tag ==> DeepItem(f, data)
  }

  /** The first n entries of an array. */
  ghost predicate DeepItems(f: Field, data: seq<byte>, n: nat)
    requires LaidField(f) && |data| == f.dataSize * f.arraySize && n <= f.arraySize
    decreases f, 1
  {
    forall k :: 0 <= k < n ==> DeepItem(f, Nth(f, data, k))
  }

  ghost predicate DeepItem(f: Field, bytes: seq<byte>)
    requires LaidField(f) && |bytes| == f.dataSize
    decreases f, 0
  {
    f.ltype.LSubmessage? ==> Deep(f.ltype.fields, bytes)
  }

  /** Bytes that represent something have their counts within bounds. */
  lemma {:induction false} HoldsDeepItem(f: Field, bytes: seq<byte>, item: Item)
    requires LaidField(f) && |bytes| == f.dataSize && Holds(f, bytes, item)
    ensures DeepItem(f, bytes)
    decreases f, 0
  {
    if f.ltype.LSubmessage? { HoldsDeep(f.ltype.fields, bytes, item.slots); }
  }

  lemma {:induction false} HoldsDeepItems(f: Field, data: seq<byte>, items: seq<Item>)
    requires LaidField(f) && |data| == f.dataSize * f.arraySize && HoldsItems(f, data, items)
    ensures DeepItems(f, data, |items|)
    decreases f, 1
  {
    forall k | 0 <= k < |items| ensures DeepItem(f, Nth(f, data, k)) {
      assert HoldsNth(f, data, k, items[k]);
      HoldsDeepItem(f, Nth(f, data, k), items[k]);
    }
  }

  lemma {:induction false} HoldsDeepSlot(f: Field, data: seq<byte>, cell: seq<byte>, slot: Slot)
    requires LaidField(f) && |data| == MemberSize(f) && |cell| == CellSize(f) && HoldsSlot(f, data, cell, slot)
    ensures DeepSlot(f, data, cell)
    decreases f, 2
  {
    if f.htype.Repeated? {
      HoldsDeepItems(f, data, slot.items);
    } else if f.htype.Oneof? ==> slot.which == f.tag {
      HoldsDeepItem(f, data, slot.item);
    }
  }

  lemma {:induction false} HoldsDeep(fields: seq<Field>, bytes: seq<byte>, msg: seq<Slot>)
    requires Laid(fields, |bytes|) && HoldsAll(fields, bytes, msg)
    ensures Deep(fields, bytes)
    decreases fields, 3
  {
    forall i | 0 <= i < |fields| ensures DeepEntry(fields, bytes, i) {
      assert HoldsAt(fields, bytes, msg, i) && InStruct(fields, i, |bytes|) && fields[i] in fields;
      assert HoldsEntry(fields, bytes, i, msg[SlotOf(fields, i)]);
      HoldsDeepSlot(fields[i], DataBytes(fields, bytes, i), CellBytes(fields, bytes, i), msg[SlotOf(fields, i)]);
    }
  }

  // ----- all but one array entry

  /** All counts are within bounds, except possibly in the array entry at the end of the path, its array's last. */
  ghost predicate Loose(fields: seq<Field>, bytes: seq<byte>, path: seq<Hop>)
    requires Laid(fields, |bytes|)
    decreases fields, 3
  {
    && path != [] && path[0].entry < |fields|
    && (forall i :: 0 <= i < |fields| && i != path[0].entry ==> DeepEntry(fields, bytes, i))
    && LooseEntry(fields, bytes, path[0].entry, path[0].item, path[1..])
  }

  ghost predicate LooseEntry(fields: seq<Field>, bytes: seq<byte>, i: nat, item: nat, path: seq<Hop>)
    requires Laid(fields, |bytes|) && i < |fields|
    decreases fields, 2
  {
    assert InStruct(fields, i, |bytes|) && fields[i] in fields;
    LooseSlot(fields[i], DataBytes(fields, bytes, i), CellBytes(fields, bytes, i), item, path)
  }

  /** The array's last entry is free where the path ends; a longer path goes on inside it. */
  ghost predicate LooseSlot(f: Field, data: seq<byte>, cell: seq<byte>, item: nat, path: seq<Hop>)
    requires LaidField(f) && |data| == MemberSize(f) && |cell| == CellSize(f)
    decreases f, 1
  {
    match f.htype
    case Required => LooseItem(f, data, path)
    case Optional => LooseItem(f, data, path)
    case Repeated =>
      && FromLittleEndian(cell) == item + 1 <= f.arraySize && f.ltype.LSubmessage?
      && DeepItems(f, data, item) && (path != [] ==> LooseItem(f, Nth(f, data, item), path))
    case Oneof => FromLittleEndian(cell) == f.tag && LooseItem(f, data, path)
  }

  ghost predicate LooseItem(f: Field, bytes: seq<byte>, path: seq<Hop>)
    requires LaidField(f) && |bytes| == f.dataSize
    decreases f, 0
  {
    f.ltype.LSubmessage? && Loose(f.ltype.fields, bytes, path)
  }

  /** How far counts are within bounds after a failure: everywhere, or up to a stale array entry. */
  ghost predicate Counts(fields: seq<Field>, bytes: seq<byte>, stale: Option<seq<Hop>>)
    requires Laid(fields, |bytes|)
  {
    match stale
    case None => Deep(fields, bytes)
    case Some(path) => Loose(fields, bytes, path)
  }

  ghost predicate SlotCounts(f: Field, data: seq<byte>, cell: seq<byte>, item: nat, stale: Option<seq<Hop>>)
    requires LaidField(f) && |data| == MemberSize(f) && |cell| == CellSize(f)
  {
    match stale
    case None => DeepSlot(f, data, cell)
    case Some(path) => LooseSlot(f, data, cell, item, path)
  }

  ghost predicate ItemCounts(f: Field, bytes: seq<byte>, stale: Option<seq<Hop>>)
    requires LaidField(f) && |bytes| == f.dataSize
  {
    match stale
    case None => DeepItem(f, bytes)
    case Some(path) => LooseItem(f, bytes, path)
  }

  /** Entry p's bytes changed: the counts of all others, union mates included, are within bounds as before. */
  lemma {:induction false} OtherCounts(fields: seq<Field>, a: seq<byte>, b: seq<byte>, p: nat, i: nat)
    requires Laid(fields, |a|) && DistinctTags(fields) && p < |fields| && i < |fields| && i != p
    requires OnlyEntry(fields, a, b, p) && DeepEntry(fields, a, i)
    requires fields[p].htype.Oneof? ==> InStruct(fields, p, |b|) && FromLittleEndian(CellBytes(fields, b, p)) == fields[p].tag
    ensures DeepEntry(fields, b, i)
  {
    if SlotOf(fields, i) != SlotOf(fields, p) {
      EntryBytesKept(fields, a, b, p, i);
    } else {
      SameCell(fields, b, i, p);
      assert fields[i].tag != fields[p].tag;
    }
  }

  lemma {:induction false} CountsStored(fields: seq<Field>, a: seq<byte>, b: seq<byte>, p: nat, item: nat,
                                      stale: Option<seq<Hop>>)
    requires Laid(fields, |a|) && DistinctTags(fields) && p < |fields| && OnlyEntry(fields, a, b, p)
    requires Deep(fields, a) && InStruct(fields, p, |b|) && fields[p] in fields
    requires fields[p].htype.Oneof? ==> FromLittleEndian(CellBytes(fields, b, p)) == fields[p].tag
    requires SlotCounts(fields[p], DataBytes(fields, b, p), CellBytes(fields, b, p), item, stale)
    ensures Counts(fields, b, Under(p, item, stale))
  {
    forall i | 0 <= i < |fields| && i != p ensures DeepEntry(fields, b, i) {
      assert DeepEntry(fields, a, i);
      OtherCounts(fields, a, b, p, i);
    }
    if stale.None? {
      assert DeepEntry(fields, b, p);
    } else {
      var path := [Hop(p, item)] + stale.value;
      assert path[1..] == stale.value;
      assert LooseEntry(fields, b, p, item, stale.value);
    }
  }
}
