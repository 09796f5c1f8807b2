/**
 Field descriptors (pb_field_t) and the message values they describe.

 A message struct is a sequence of slots: one slot per descriptor entry, except that the members of a
 union share the slot of the union's first member, exactly as they share memory in the C struct.
 */
module Descriptor {
  import opened Words
  import opened Scalars

  datatype LType =
    | LVarint | LUVarint | LSVarint | LFixed32 | LFixed64
    | LBytes | LString | LSubmessage(fields: seq<Field>) | LFixedLengthBytes

  datatype HType = Required | Optional | Repeated | Oneof

  /** pb_field_t; `init` is the default value `ptr` points to, when it is not a submessage descriptor. */
  datatype Field = Field(
    tag: nat, ltype: LType, htype: HType, dataOffset: nat, sizeOffset: int,
    dataSize: nat, arraySize: nat, init: Option<Item>)

  /** The content of one data cell. `Text` holds the bytes before the terminator; `Unset` is unwritten union memory. */
  datatype Item = Int(v: int) | Blob(bytes: seq<byte>) | Text(bytes: seq<byte>) | Msg(slots: seq<Slot>) | Unset

  /** A data cell together with its has_, _count or which_ cell. */
  datatype Slot = Single(item: Item) | Opt(has: bool, item: Item) | Arr(items: seq<Item>) | Union(which: nat, item: Item)

  const BYTES_HEADER := 4  // offsetof(pb_bytes_array_t, bytes) under PB_FIELD_32BIT
  const TAG_LIMIT := 0x2000_0000

  // ----- types of a field

  predicate Packable(t: LType) {
    t.LVarint? || t.LUVarint? || t.LSVarint? || t.LFixed32? || t.LFixed64?
  }

  /** PB_WT_VARINT, PB_WT_64BIT, PB_WT_STRING, PB_WT_32BIT. */
  function WireType(t: LType): nat {
    match t
    case LVarint | LUVarint | LSVarint => 0
    case LFixed32 => 5
    case LFixed64 => 1
    case _ => 2
  }

  const WT_STRING := 2

  /** An OPTIONAL field without a has_ cell: proto3 presence. */
  predicate Implicit(f: Field) {
    f.htype.Optional? && f.sizeOffset == 0
  }

  // ----- slots

  /** Does entry i lie in the same union as entry i-1 (pb_field_iter_next does not advance)? */
  predicate Joined(fields: seq<Field>, i: nat)
    requires i < |fields|
  {
    i > 0 && fields[i - 1].htype.Oneof? && fields[i].htype.Oneof? && fields[i].dataOffset == PB_SIZE_MAX
  }

  /** The slot that holds entry i. */
  function SlotOf(fields: seq<Field>, i: nat): (s: nat)
    requires i < |fields|
    ensures s <= i
  {
    if i == 0 then 0 else SlotOf(fields, i - 1) + (if Joined(fields, i) then 0 else 1)
  }

  function SlotCount(fields: seq<Field>): nat {
    if fields == [] then 0 else SlotOf(fields, |fields| - 1) + 1
  }

  lemma {:induction false} SlotMonotone(fields: seq<Field>, i: nat, j: nat)
    requires i <= j < |fields|
    ensures SlotOf(fields, i) <= SlotOf(fields, j) < SlotCount(fields)
    decreases |fields| - i + |fields| - j
  {
    if j + 1 < |fields| {
      SlotMonotone(fields, i, j + 1);
      if i < j { SlotMonotone(fields, i + 1, j); }
    } else if i < j {
      SlotMonotone(fields, i + 1, j);
    }
  }

  /** Only members of one union share a slot. */
  lemma {:induction false} SharedSlot(fields: seq<Field>, i: nat, j: nat)
    requires i < j < |fields| && SlotOf(fields, i) == SlotOf(fields, j)
    ensures fields[i].htype.Oneof? && fields[j].htype.Oneof?
    decreases j
  {
    SlotMonotone(fields, i, j - 1);
    if i < j - 1 {
      SharedSlot(fields, i, j - 1);
    }
  }

  /** Every slot belongs to some entry. */
  lemma {:induction false} SlotHasEntry(fields: seq<Field>, s: nat, n: nat) returns (i: nat)
    requires n < |fields| && s <= SlotOf(fields, n)
    ensures i <= n && SlotOf(fields, i) == s
    decreases n
  {
    if SlotOf(fields, n) == s {
      i := n;
    } else {
      i := SlotHasEntry(fields, s, n - 1);
    }
  }

  // ----- defaults (pb_field_set_to_default, pb_message_set_to_defaults)

  function ZeroItem(f: Field): Item {
    match f.ltype
    case LBytes => Blob([])
    case LString => Text([])
    case LFixedLengthBytes => Blob(Zeros(f.dataSize))
    case _ => Int(0)
  }

  function DefaultItem(f: Field): Item
    decreases f, 0
  {
    if f.ltype.LSubmessage? then Msg(Defaults(f.ltype.fields))
    else if f.init.Some? then f.init.value
    else ZeroItem(f)
  }

  function DefaultSlot(f: Field): Slot
    decreases f, 1
  {
    match f.htype
    case Required => Single(DefaultItem(f))
    case Optional => if Implicit(f) then Single(DefaultItem(f)) else Opt(false, DefaultItem(f))
    case Repeated => Arr([])
    case Oneof => Union(0, Unset)
  }

  function DefaultsUpTo(fields: seq<Field>, n: nat): (msg: seq<Slot>)
    requires n <= |fields|
    ensures |msg| == if n == 0 then 0 else SlotOf(fields, n - 1) + 1
    decreases fields, 0, n
  {
    if n == 0 then []
    else
      var before := DefaultsUpTo(fields, n - 1);
      if Joined(fields, n - 1) then before else before + [DefaultSlot(fields[n - 1])]
  }

  function Defaults(fields: seq<Field>): (msg: seq<Slot>)
    ensures |msg| == SlotCount(fields)
    decreases fields, 1
  {
    DefaultsUpTo(fields, |fields|)
  }

  lemma {:induction false} DefaultsUpToAt(fields: seq<Field>, n: nat, i: nat)
    requires i < n <= |fields|
    ensures SlotOf(fields, i) < |DefaultsUpTo(fields, n)|
    ensures DefaultsUpTo(fields, n)[SlotOf(fields, i)] == DefaultSlot(fields[i])
    decreases n
  {
    SlotMonotone(fields, i, n - 1);
    if i < n - 1 {
      DefaultsUpToAt(fields, n - 1, i);
    } else if Joined(fields, i) {
      DefaultsUpToAt(fields, n - 1, i - 1);
    }
  }

  /** After default initialisation each entry's slot holds that entry's default. */
  lemma DefaultsAt(fields: seq<Field>, i: nat)
    requires i < |fields|
    ensures SlotOf(fields, i) < |Defaults(fields)|
    ensures Defaults(fields)[SlotOf(fields, i)] == DefaultSlot(fields[i])
  {
    DefaultsUpToAt(fields, |fields|, i);
  }

  // ----- lookup by tag

  function FindFrom(fields: seq<Field>, tag: nat, i: nat): (r: Option<nat>)
    requires i <= |fields|
    ensures r.Some? ==> i <= r.value < |fields| && fields[r.value].tag == tag
    ensures r.None? ==> forall j :: i <= j < |fields| ==> fields[j].tag != tag
    decreases |fields| - i
  {
    if i == |fields| then None
    else if fields[i].tag == tag then Some(i)
    else FindFrom(fields, tag, i + 1)
  }

  /** The entry with the given tag, if any. */
  function Find(fields: seq<Field>, tag: nat): (r: Option<nat>)
    ensures r.Some? ==> r.value < |fields| && fields[r.value].tag == tag
    ensures r.None? ==> forall j :: 0 <= j < |fields| ==> fields[j].tag != tag
  {
    FindFrom(fields, tag, 0)
  }

  predicate DistinctTags(fields: seq<Field>) {
    forall i, j {:trigger fields[i].tag, fields[j].tag} :: 0 <= i < j < |fields| ==> fields[i].tag != fields[j].tag
  }

  lemma FindIs(fields: seq<Field>, i: nat)
    requires DistinctTags(fields) && i < |fields|
    ensures Find(fields, fields[i].tag) == Some(i)
  {
  }

  // ----- what a descriptor must look like, and what fits its struct

  /** A value the memory of one data cell of f can hold. */
  predicate FitsItem(f: Field, item: Item)
    decreases item, 0
  {
    match f.ltype
    case LVarint | LSVarint => item.Int? && FitsSigned(f.dataSize, item.v)
    case LUVarint => item.Int? && FitsUnsigned(f.dataSize, item.v)
    case LFixed32 => item.Int? && FitsUnsigned(4, item.v)
    case LFixed64 => item.Int? && FitsUnsigned(8, item.v)
    case LBytes => item.Blob? && |item.bytes| + BYTES_HEADER <= f.dataSize
    case LString => item.Text? && |item.bytes| <= f.dataSize
    case LFixedLengthBytes => item.Blob? && |item.bytes| == f.dataSize
    case LSubmessage(sub) => item.Msg? && Fits(sub, item.slots)
  }

  /** What the slot of entry f can hold; for a union, seen from the member f. */
  predicate FitsSlot(f: Field, slot: Slot)
    decreases slot, 1
  {
    match f.htype
    case Required => slot.Single? && FitsItem(f, slot.item)
    case Optional => if Implicit(f) then slot.Single? && FitsItem(f, slot.item) else slot.Opt? && FitsItem(f, slot.item)
    case Repeated => slot.Arr? && |slot.items| <= f.arraySize && forall x :: x in slot.items ==> FitsItem(f, x)
    case Oneof => slot.Union? && (slot.which == f.tag ==> FitsItem(f, slot.item))
  }

  /** A message value the struct of `fields` can hold. */
  predicate Fits(fields: seq<Field>, msg: seq<Slot>)
    decreases msg, 3
  {
    |msg| == SlotCount(fields) && forall i :: 0 <= i < |fields| ==> FitsEntry(fields, msg, i)
  }

  predicate FitsEntry(fields: seq<Field>, msg: seq<Slot>, i: nat)
    requires i < |fields|
    decreases msg, 2
  {
    SlotOf(fields, i) < |msg| && FitsSlot(fields[i], msg[SlotOf(fields, i)])
  }

  /** A descriptor entry as the PB_FIELD macros produce them. */
  predicate WellFormedField(f: Field)
    decreases f, 0
  {
    && 1 <= f.tag < TAG_LIMIT
    && f.dataSize < TWO_32 && f.arraySize < TWO_32
    && (match f.ltype
        case LVarint | LUVarint | LSVarint => ValidWidth(f.dataSize)
        case LFixed32 => f.dataSize == 4
        case LFixed64 => f.dataSize == 8
        case LBytes => f.dataSize >= BYTES_HEADER
        case LString => f.dataSize >= 1
        case LFixedLengthBytes => true
        case LSubmessage(sub) => f.init.None? && !Implicit(f) && WellFormed(sub))
    && (f.init.Some? ==> FitsItem(f, f.init.value))
  }

  predicate WellFormed(fields: seq<Field>)
    decreases fields, 1
  {
    DistinctTags(fields) && forall f :: f in fields ==> WellFormedField(f)
  }

  lemma FitsAt(fields: seq<Field>, msg: seq<Slot>, i: nat)
    requires Fits(fields, msg) && i < |fields|
    ensures SlotOf(fields, i) < |msg| && FitsSlot(fields[i], msg[SlotOf(fields, i)])
  {
    assert FitsEntry(fields, msg, i);
  }

  lemma FieldAt(fields: seq<Field>, i: nat)
    requires WellFormed(fields) && i < |fields|
    ensures WellFormedField(fields[i])
  {
    assert fields[i] in fields;
  }

  /** Default initialisation yields a value that fits the struct. */
  lemma {:induction false} DefaultItemFits(f: Field)
    requires WellFormedField(f)
    ensures FitsItem(f, DefaultItem(f))
    decreases f, 0
  {
    if f.ltype.LSubmessage? {
      DefaultsFit(f.ltype.fields);
    }
  }

  lemma {:induction false} DefaultsFit(fields: seq<Field>)
    requires WellFormed(fields)
    ensures Fits(fields, Defaults(fields))
    decreases fields, 1
  {
    forall i | 0 <= i < |fields|
      ensures FitsEntry(fields, Defaults(fields), i)
    {
      DefaultsAt(fields, i);
      assert fields[i] in fields;
      DefaultItemFits(fields[i]);
      assert fields[i].tag != 0;
    }
  }
}
