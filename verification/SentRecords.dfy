/**
 What the encoder sends, told from the outside: which values an implicit-presence field leaves out, which records a
 message consists of and in what order, and on which values the encoder reports an error.
 */
module SentRecords {
  import opened Words
  import opened Varint
  import opened Scalars
  import opened Descriptor
  import opened DecodeSpec
  import opened EncodeSpec
  import opened Records
  import opened Delivery

  // ----- implicit presence

  /** The values a field without a has_ cell leaves out: zero, nothing, a string that ends at once. */
  predicate Blank(f: Field, item: Item) {
    match f.ltype
    case LVarint | LUVarint | LSVarint | LFixed32 | LFixed64 => item == Int(0)
    case LBytes => item == Blob([])
    case LString => item.Text? && (item.bytes == [] || item.bytes[0] == 0)
    case LFixedLengthBytes => f.dataSize == 0
    case LSubmessage(_) => false
  }

  lemma {:induction false} OneSlot(f: Field, slot: Slot)
    ensures Encode([f], [slot]) == EncodeField(f, slot)
  {
    var fields, msg := [f], [slot];
    assert SlotOf(fields, 0) == 0 && SlotCount(fields) == 1 && fields[0] == f && msg[0] == slot;
    assert EncodeFrom(fields, msg, 1) == Some([]);
    assert EncodeFrom(fields, msg, 0) == Cat(EncodeField(fields[0], msg[0]), EncodeFrom(fields, msg, 1));
    var e := EncodeField(f, slot);
    if e.Some? { assert e.value + [] == e.value; }
  }

  /** A blank value is not sent; any other is its tag and its item. */
  lemma {:induction false} ImplicitSent(f: Field, item: Item)
    requires WellFormedField(f) && Implicit(f) && FitsItem(f, item)
    ensures Encode([f], [Single(item)]) == Some([]) <==> Blank(f, item)
    ensures !Blank(f, item) ==>
              && EncodeItem(f, item).Some?
              && Encode([f], [Single(item)]) == Some(TagBytes(WireType(f.ltype), f.tag) + EncodeItem(f, item).value)
  {
    OneSlot(f, Single(item));
    FitsEncodesItem(f, item);
  }

  // ----- the records of a message, in order

  /** s is exactly these records, by field number and wire type, each of the extent its wire type gives it. */
  predicate Consists(s: seq<byte>, heads: seq<(nat, nat)>)
    decreases |heads|, 0
  {
    if heads == [] then s == []
    else s != [] && ReadTag(s).Tag? && (ReadTag(s).tag, ReadTag(s).wire) == heads[0] && Continues(ReadTag(s), heads[1..])
  }

  predicate Continues(t: TagRead, heads: seq<(nat, nat)>)
    requires t.Tag?
    decreases |heads|, 1
  {
    SkipField(t.wire, t.rest).Done? && Consists(SkipField(t.wire, t.rest).rest, heads)
  }

  function Copies(head: (nat, nat), n: nat): seq<(nat, nat)> {
    if n == 0 then [] else [head] + Copies(head, n - 1)
  }

  /** The records an entry should send: arrays of numbers in one packed record, other arrays item by item. */
  function SentHeads(f: Field, slot: Slot): seq<(nat, nat)>
    requires FitsSlot(f, slot)
  {
    var head := (f.tag, WireType(f.ltype));
    match f.htype
    case Required => [head]
    case Optional =>
      if f.sizeOffset == 0 then if Blank(f, slot.item) then [] else [head]
      else if slot.has then [head] else []
    case Repeated =>
      if !Packable(f.ltype) then Copies(head, |slot.items|)
      else if slot.items == [] then [] else [(f.tag, 2)]
    case Oneof => if slot.which == f.tag then [head] else []
  }

  /** One entry after the other, in the descriptor's order. */
  function MessageHeads(fields: seq<Field>, msg: seq<Slot>, i: nat): seq<(nat, nat)>
    requires Fits(fields, msg) && i <= |fields|
    decreases |fields| - i
  {
    if i == |fields| then []
    else
      FitsAt(fields, msg, i);
      SentHeads(fields[i], msg[SlotOf(fields, i)]) + MessageHeads(fields, msg, i + 1)
  }

  lemma {:induction false} HeadStep(wire: nat, tag: nat, payload: seq<byte>, tail: seq<byte>, heads: seq<(nat, nat)>)
    requires wire < 8 && 1 <= tag < TAG_LIMIT && SkipField(wire, payload + tail) == Done((), tail) && Consists(tail, heads)
    ensures Consists(TagBytes(wire, tag) + payload + tail, [(tag, wire)] + heads)
  {
    var s := TagBytes(wire, tag) + payload + tail;
    ReadTagBytes(wire, tag, payload + tail);
    assert s == TagBytes(wire, tag) + (payload + tail);
    OneMore(s, Tag(tag, wire, payload + tail), tail, heads);
  }

  lemma OneMore(s: seq<byte>, t: TagRead, tail: seq<byte>, heads: seq<(nat, nat)>)
    requires s != [] && t.Tag? && ReadTag(s) == t && SkipField(t.wire, t.rest) == Done((), tail) && Consists(tail, heads)
    ensures Consists(s, [(t.tag, t.wire)] + heads)
  {
    assert ([(t.tag, t.wire)] + heads)[1..] == heads;
    assert Continues(t, heads);
  }

  lemma {:induction false} RecordHead(f: Field, item: Item, tail: seq<byte>, heads: seq<(nat, nat)>)
    requires WellFormedField(f) && FitsItem(f, item) && ItemLengthsBelow(f, item, TWO_32) && Consists(tail, heads)
    ensures EncodeRecord(f, item).Some?
    ensures Consists(EncodeRecord(f, item).value + tail, [(f.tag, WireType(f.ltype))] + heads)
  {
    FitsEncodesItem(f, item);
    if !Packable(f.ltype) { ContentIsShort(f, item); }
    SkipItem(f, item, tail);
    HeadStep(WireType(f.ltype), f.tag, EncodeItem(f, item).value, tail, heads);
  }

  lemma {:induction false} RecordsHeads(f: Field, items: seq<Item>, tail: seq<byte>, heads: seq<(nat, nat)>)
    requires WellFormedField(f) && forall x :: x in items ==> FitsItem(f, x) && ItemLengthsBelow(f, x, TWO_32)
    requires Consists(tail, heads)
    ensures EncodeRecords(f, items).Some?
    ensures Consists(EncodeRecords(f, items).value + tail, Copies((f.tag, WireType(f.ltype)), |items|) + heads)
    decreases |items|
  {
    var head := (f.tag, WireType(f.ltype));
    if items == [] {
      assert [] + tail == tail && Copies(head, 0) + heads == heads;
    } else {
      assert items[0] in items;
      RecordsHeads(f, items[1..], tail, heads);
      AndOneRecord(f, items[0], EncodeRecords(f, items[1..]).value, tail, head, Copies(head, |items| - 1), heads);
    }
  }

  lemma {:induction false} AndOneRecord(f: Field, item: Item, bs: seq<byte>, tail: seq<byte>, head: (nat, nat),
                                        more: seq<(nat, nat)>, heads: seq<(nat, nat)>)
    requires WellFormedField(f) && FitsItem(f, item) && ItemLengthsBelow(f, item, TWO_32)
    requires head == (f.tag, WireType(f.ltype)) && Consists(bs + tail, more + heads)
    ensures EncodeRecord(f, item).Some?
    ensures Consists(EncodeRecord(f, item).value + bs + tail, [head] + more + heads)
  {
    RecordHead(f, item, bs + tail, more + heads);
    var a := EncodeRecord(f, item).value;
    assert a + bs + tail == a + (bs + tail);
    assert [head] + more + heads == [head] + (more + heads);
  }

  lemma {:induction false} RunHead(f: Field, items: seq<Item>, tail: seq<byte>, heads: seq<(nat, nat)>)
    requires WellFormedField(f) && Packable(f.ltype) && EncodePayload(f, items).Some? && Consists(tail, heads)
    requires |EncodePayload(f, items).value| < TWO_32
    ensures Consists(TagBytes(WT_STRING, f.tag) + Delimit(EncodePayload(f, items).value) + tail, [(f.tag, 2)] + heads)
  {
    TakeDelimit(EncodePayload(f, items).value, tail);
    HeadStep(WT_STRING, f.tag, Delimit(EncodePayload(f, items).value), tail, heads);
  }

  lemma {:induction false} FieldHeads(f: Field, slot: Slot, tail: seq<byte>, heads: seq<(nat, nat)>)
    requires WellFormedField(f) && FitsSlot(f, slot) && SlotLengthsBelow(f, slot, TWO_32) && Consists(tail, heads)
    ensures EncodeField(f, slot).Some? && Consists(EncodeField(f, slot).value + tail, SentHeads(f, slot) + heads)
  {
    FitsEncodesSlot(f, slot);
    if SentHeads(f, slot) == [] {
      assert EncodeField(f, slot) == Some([]);
      assert [] + tail == tail && [] + heads == heads;
    } else if !slot.Arr? {
      RecordHead(f, slot.item, tail, heads);
    } else if Packable(f.ltype) {
      FitsEncodesItems(f, slot.items);
      RunHead(f, slot.items, tail, heads);
    } else {
      RecordsHeads(f, slot.items, tail, heads);
    }
  }

  lemma {:induction false} NextHeads(fields: seq<Field>, msg: seq<Slot>, i: nat, more: seq<byte>, heads: seq<(nat, nat)>)
    requires WellFormed(fields) && Fits(fields, msg) && Short(fields, msg) && i < |fields| && Consists(more, heads)
    requires EncodeFrom(fields, msg, i + 1) == Some(more)
    requires SlotOf(fields, i) < |msg| && FitsSlot(fields[i], msg[SlotOf(fields, i)])
    ensures EncodeFrom(fields, msg, i).Some?
    ensures Consists(EncodeFrom(fields, msg, i).value, SentHeads(fields[i], msg[SlotOf(fields, i)]) + heads)
  {
    FieldAt(fields, i);
    assert EntryLengthsBelow(fields, msg, i, TWO_32);
    FieldHeads(fields[i], msg[SlotOf(fields, i)], more, heads);
  }

  lemma {:induction false} HeadsFrom(fields: seq<Field>, msg: seq<Slot>, i: nat)
    requires WellFormed(fields) && Fits(fields, msg) && Short(fields, msg) && i <= |fields|
    ensures EncodeFrom(fields, msg, i).Some? && Consists(EncodeFrom(fields, msg, i).value, MessageHeads(fields, msg, i))
    decreases |fields| - i
  {
    if i < |fields| {
      HeadsFrom(fields, msg, i + 1);
      FitsAt(fields, msg, i);
      NextHeads(fields, msg, i, EncodeFrom(fields, msg, i + 1).value, MessageHeads(fields, msg, i + 1));
    }
  }

  /**
   An encoded message is, record by record, what its entries should send, in the descriptor's order: a reader that
   knows nothing of the descriptor sees exactly these field numbers and wire types.
   */
  lemma {:induction false} EncodedHeads(fields: seq<Field>, msg: seq<Slot>)
    requires WellFormed(fields) && Fits(fields, msg) && Short(fields, msg)
    ensures Encode(fields, msg).Some? && Consists(Encode(fields, msg).value, MessageHeads(fields, msg, 0))
  {
    HeadsFrom(fields, msg, 0);
  }

  /** There is only one way to see it. */
  lemma {:induction false} HeadsUnique(s: seq<byte>, a: seq<(nat, nat)>, b: seq<(nat, nat)>)
    requires Consists(s, a) && Consists(s, b)
    ensures a == b
    decreases |a|
  {
    if a != [] && b != [] {
      HeadsUnique(SkipField(ReadTag(s).wire, ReadTag(s).rest).rest, a[1..], b[1..]);
      assert a == [a[0]] + a[1..] && b == [b[0]] + b[1..];
    }
  }

  // ----- errors

  /** Values the encoder accepts: byte strings within their buffers, counts within array_size, in all that is sent. */
  predicate ItemEncodes(f: Field, item: Item)
    decreases item, 0
  {
    match f.ltype
    case LVarint | LUVarint | LSVarint | LFixed32 | LFixed64 => true
    case LBytes => item.Blob? && |item.bytes| + BYTES_HEADER <= f.dataSize
    case LString => item.Text?
    case LFixedLengthBytes => item.Blob? && |item.bytes| == f.dataSize
    case LSubmessage(sub) => item.Msg? && Encodes(sub, item.slots)
  }

  predicate SlotEncodes(f: Field, slot: Slot)
    decreases slot, 1
  {
    match f.htype
    case Required => !slot.Arr? && ItemEncodes(f, slot.item)
    case Optional =>
      if f.sizeOffset == 0 then slot.Single? ==> (Blank(f, slot.item) || ItemEncodes(f, slot.item))
      else slot.Opt? && slot.has ==> ItemEncodes(f, slot.item)
    case Repeated => slot.Arr? ==> |slot.items| <= f.arraySize && forall x :: x in slot.items ==> ItemEncodes(f, x)
    case Oneof => slot.Union? && slot.which == f.tag ==> ItemEncodes(f, slot.item)
  }

  predicate EncodesFrom(fields: seq<Field>, msg: seq<Slot>, i: nat)
    requires |msg| == SlotCount(fields) && i <= |fields|
    decreases msg, 2, |fields| - i
  {
    if i == |fields| then true
    else
      SlotMonotone(fields, i, i);
      SlotEncodes(fields[i], msg[SlotOf(fields, i)]) && EncodesFrom(fields, msg, i + 1)
  }

  predicate Encodes(fields: seq<Field>, msg: seq<Slot>)
    decreases msg, 3
  {
    |msg| == SlotCount(fields) && EncodesFrom(fields, msg, 0)
  }

  lemma {:induction false} ItemEncodesIff(f: Field, item: Item)
    requires WellFormedField(f)
    ensures EncodeItem(f, item).Some? <==> ItemEncodes(f, item)
    decreases item, 0
  {
    if f.ltype.LSubmessage? && item.Msg? { EncodesIff(f.ltype.fields, item.slots); }
  }

  lemma {:induction false} ItemsEncodeIff(f: Field, items: seq<Item>)
    requires WellFormedField(f)
    ensures EncodeRecords(f, items).Some? <==> forall x :: x in items ==> ItemEncodes(f, x)
    ensures Packable(f.ltype) ==> EncodePayload(f, items).Some?
    decreases items, 2
  {
    if items != [] {
      ItemEncodesIff(f, items[0]);
      ItemsEncodeIff(f, items[1..]);
      assert items == [items[0]] + items[1..];
    }
  }

  lemma {:induction false} SlotEncodesIff(f: Field, slot: Slot)
    requires WellFormedField(f)
    ensures EncodeField(f, slot).Some? <==> SlotEncodes(f, slot)
    decreases slot, 4
  {
    if slot.Arr? {
      ItemsEncodeIff(f, slot.items);
    } else {
      ItemEncodesIff(f, slot.item);
      if Implicit(f) { BlankIsZero(f, slot.item); }
    }
  }

  /** A blank value is what pb_check_proto3_default_value finds to be one. */
  lemma BlankIsZero(f: Field, item: Item)
    requires WellFormedField(f) && !f.ltype.LSubmessage?
    ensures IsZero(f, item) <==> Blank(f, item)
  {
  }

  lemma {:induction false} EncodesFromIff(fields: seq<Field>, msg: seq<Slot>, i: nat)
    requires WellFormed(fields) && |msg| == SlotCount(fields) && i <= |fields|
    ensures EncodeFrom(fields, msg, i).Some? <==> EncodesFrom(fields, msg, i)
    decreases msg, 5, |fields| - i
  {
    if i < |fields| {
      SlotMonotone(fields, i, i);
      FieldAt(fields, i);
      SlotEncodesIff(fields[i], msg[SlotOf(fields, i)]);
      EncodesFromIff(fields, msg, i + 1);
    }
  }

  /** The encoder reports an error exactly on the other values: an array over its array_size, a byte string over its buffer. */
  lemma {:induction false} EncodesIff(fields: seq<Field>, msg: seq<Slot>)
    requires WellFormed(fields)
    ensures Encode(fields, msg).Some? <==> Encodes(fields, msg)
    decreases msg, 6
  {
    if |msg| == SlotCount(fields) { EncodesFromIff(fields, msg, 0); }
  }
}
