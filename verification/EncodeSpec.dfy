/** The bytes the encoder produces for a message value; None where it reports an error. */
module EncodeSpec {
  import opened Words
  import opened Varint
  import opened Scalars
  import opened Descriptor

  /** One after the other; an error on either side is an error. */
  function Cat(a: Option<seq<byte>>, b: Option<seq<byte>>): Option<seq<byte>> {
    if a.None? || b.None? then None else Some(a.value + b.value)
  }

  /** pb_encode_tag. */
  function TagBytes(wire: nat, tag: nat): (bs: seq<byte>)
    ensures |bs| >= 1
  {
    EncodeVarint(tag * 8 + wire)
  }

  /** pb_encode_string: a length prefix and the content. */
  function Delimit(bs: seq<byte>): (r: seq<byte>)
    ensures |r| > |bs|
  {
    EncodeVarint(|bs|) + bs
  }

  /** The strnlen loop of pb_enc_string. */
  function CString(bs: seq<byte>, max: nat): (r: seq<byte>)
    ensures r <= bs && |r| <= max
    ensures forall i :: 0 <= i < |r| ==> r[i] != 0
    ensures |r| < |bs| && |r| < max ==> bs[|r|] == 0
  {
    if bs == [] || max == 0 || bs[0] == 0 then [] else [bs[0]] + CString(bs[1..], max - 1)
  }

  /** pb_check_proto3_default_value for everything but submessages. */
  predicate IsZero(f: Field, item: Item) {
    match f.ltype
    case LBytes => item == Blob([])
    case LString => item.Text? && CString(item.bytes, f.dataSize) == []
    case LFixedLengthBytes => f.dataSize == 0
    case _ => item == Int(0)
  }

  /** The 64-bit word a varint-coded field writes: sign extended, or zigzag coded. */
  function WireWord(f: Field, v: int): (w: nat)
    ensures w < TWO_64
  {
    if f.ltype.LSVarint? then ZigZag(v) % TWO_64 else VarintWord(v)
  }

  /** A scalar cell always holds some number. */
  function IntOf(item: Item): int {
    if item.Int? then item.v else 0
  }

  /** The pb_enc_* function of a packable type. */
  function EncodeScalar(f: Field, v: int): Option<seq<byte>>
    requires Packable(f.ltype)
  {
    match f.ltype
    case LFixed32 => Some(LittleEndian(v % TWO_32, 4))
    case LFixed64 => Some(LittleEndian(v % TWO_64, 8))
    case _ => if ValidWidth(f.dataSize) then Some(EncodeVarint(WireWord(f, v))) else None
  }

  /** The pb_enc_* functions of byte strings: the content that gets delimited. */
  function ItemContent(f: Field, item: Item): Option<seq<byte>> {
    match (f.ltype, item)
    case (LBytes, Blob(bs)) => if |bs| + BYTES_HEADER > f.dataSize then None else Some(bs)
    case (LString, Text(bs)) => Some(CString(bs, f.dataSize))
    case (LFixedLengthBytes, Blob(bs)) => if |bs| == f.dataSize then Some(bs) else None
    case _ => None
  }

  /** One item, without its tag. */
  function EncodeItem(f: Field, item: Item): Option<seq<byte>>
    decreases item, 0
  {
    if Packable(f.ltype) then
      EncodeScalar(f, IntOf(item))
    else
      var content :=
        if f.ltype.LSubmessage? then if item.Msg? then Encode(f.ltype.fields, item.slots) else None
        else ItemContent(f, item);
      if content.None? then None else Some(Delimit(content.value))
  }

  /** The data part of a packed array. */
  function EncodePayload(f: Field, items: seq<Item>): Option<seq<byte>>
    requires Packable(f.ltype)
  {
    if items == [] then Some([])
    else Cat(EncodeScalar(f, IntOf(items[0])), EncodePayload(f, items[1..]))
  }

  /** A tagged item. */
  function EncodeRecord(f: Field, item: Item): Option<seq<byte>>
    decreases item, 1
  {
    Cat(Some(TagBytes(WireType(f.ltype), f.tag)), EncodeItem(f, item))
  }

  /** An unpacked array: a tagged item each. */
  function EncodeRecords(f: Field, items: seq<Item>): Option<seq<byte>>
    decreases items, 2
  {
    if items == [] then Some([])
    else Cat(EncodeRecord(f, items[0]), EncodeRecords(f, items[1..]))
  }

  /** encode_array. */
  function EncodeArray(f: Field, items: seq<Item>): Option<seq<byte>>
    decreases items, 3
  {
    if items == [] then Some([])
    else if |items| > f.arraySize then None
    else if Packable(f.ltype) then
      match EncodePayload(f, items)
      case None => None
      case Some(bs) => Some(TagBytes(WT_STRING, f.tag) + Delimit(bs))
    else EncodeRecords(f, items)
  }

  /** Is there anything to write for entry f? */
  predicate Present(f: Field, slot: Slot) {
    match f.htype
    case Required => true
    case Optional => if Implicit(f) then slot.Single? && !IsZero(f, slot.item) else slot.Opt? && slot.has
    case Repeated => slot.Arr? && slot.items != []
    case Oneof => slot.Union? && slot.which == f.tag
  }

  /** encode_basic_field. */
  function EncodeField(f: Field, slot: Slot): Option<seq<byte>>
    decreases slot, 4
  {
    if !Present(f, slot) then Some([])
    else if slot.Arr? then (if f.htype.Repeated? then EncodeArray(f, slot.items) else None)
    else if f.htype.Repeated? then None
    else EncodeRecord(f, slot.item)
  }

  /** The field loop of pb_encode from entry i on. */
  function EncodeFrom(fields: seq<Field>, msg: seq<Slot>, i: nat): Option<seq<byte>>
    requires |msg| == SlotCount(fields) && i <= |fields|
    decreases msg, 5, |fields| - i
  {
    if i == |fields| then Some([])
    else
      SlotMonotone(fields, i, i);
      Cat(EncodeField(fields[i], msg[SlotOf(fields, i)]), EncodeFrom(fields, msg, i + 1))
  }

  /** pb_encode; a value of the wrong shape cannot occur in C and is an error here. */
  function Encode(fields: seq<Field>, msg: seq<Slot>): Option<seq<byte>>
    decreases msg, 6
  {
    if |msg| == SlotCount(fields) then EncodeFrom(fields, msg, 0) else None
  }

  // ----- every length prefix that gets written is below a limit

  predicate ItemLengthsBelow(f: Field, item: Item, limit: nat)
    decreases item, 0
  {
    f.ltype.LSubmessage? && item.Msg? ==>
      && LengthsBelow(f.ltype.fields, item.slots, limit)
      && (Encode(f.ltype.fields, item.slots).Some? ==> |Encode(f.ltype.fields, item.slots).value| < limit)
  }

  predicate SlotLengthsBelow(f: Field, slot: Slot, limit: nat)
    decreases slot, 1
  {
    Present(f, slot) ==>
      if slot.Arr? then
        if Packable(f.ltype) then EncodePayload(f, slot.items).Some? ==> |EncodePayload(f, slot.items).value| < limit
        else forall x :: x in slot.items ==> ItemLengthsBelow(f, x, limit)
      else ItemLengthsBelow(f, slot.item, limit)
  }

  predicate EntryLengthsBelow(fields: seq<Field>, msg: seq<Slot>, i: nat, limit: nat)
    requires i < |fields|
    decreases msg, 2
  {
    SlotOf(fields, i) < |msg| ==> SlotLengthsBelow(fields[i], msg[SlotOf(fields, i)], limit)
  }

  predicate LengthsBelow(fields: seq<Field>, msg: seq<Slot>, limit: nat)
    decreases msg, 3
  {
    forall i :: 0 <= i < |fields| ==> EntryLengthsBelow(fields, msg, i, limit)
  }

  // ----- no errors on well-formed values

  /** Everything a struct can hold encodes: the error branches need memory the descriptor does not describe. */
  lemma {:induction false} FitsEncodesItem(f: Field, item: Item)
    requires WellFormedField(f) && FitsItem(f, item)
    ensures EncodeItem(f, item).Some?
    decreases item, 0
  {
    if f.ltype.LSubmessage? {
      FitsEncodes(f.ltype.fields, item.slots);
    }
  }

  lemma {:induction false} FitsEncodesItems(f: Field, items: seq<Item>)
    requires WellFormedField(f) && forall x :: x in items ==> FitsItem(f, x)
    ensures EncodeRecords(f, items).Some?
    ensures Packable(f.ltype) ==> EncodePayload(f, items).Some?
    decreases items, 2
  {
    if items != [] {
      FitsEncodesItem(f, items[0]);
      FitsEncodesItems(f, items[1..]);
    }
  }

  lemma {:induction false} FitsEncodesSlot(f: Field, slot: Slot)
    requires WellFormedField(f) && FitsSlot(f, slot)
    ensures EncodeField(f, slot).Some?
    decreases slot, 4
  {
    if slot.Arr? {
      FitsEncodesItems(f, slot.items);
    } else if Present(f, slot) {
      FitsEncodesItem(f, slot.item);
    }
  }

  lemma {:induction false} FitsEncodesFrom(fields: seq<Field>, msg: seq<Slot>, i: nat)
    requires WellFormed(fields) && Fits(fields, msg) && i <= |fields|
    ensures EncodeFrom(fields, msg, i).Some?
    decreases msg, 5, |fields| - i
  {
    if i < |fields| {
      FieldAt(fields, i);
      FitsAt(fields, msg, i);
      FitsEncodesSlot(fields[i], msg[SlotOf(fields, i)]);
      FitsEncodesFrom(fields, msg, i + 1);
    }
  }

  /** pb_encode reports no error on a message that fits its struct. */
  lemma {:induction false} FitsEncodes(fields: seq<Field>, msg: seq<Slot>)
    requires WellFormed(fields) && Fits(fields, msg)
    ensures Encode(fields, msg).Some?
    decreases msg, 6
  {
    FitsEncodesFrom(fields, msg, 0);
  }
}
