/** pb_encode.c: the encoder as it runs, proved to write what EncodeSpec says or to count it. */
module Encoder {
  import opened Words
  import opened Varint
  import opened Scalars
  import opened Descriptor
  import opened EncodeSpec
  import Spec = EncodeSpec
  import opened OutputStream
  import opened FieldIterator

  // ----- primitives

  /** Bytes written with the top bit set so far, and the value still to be written. */
  ghost predicate Emitting(v: nat, bytes: seq<byte>, value: nat) {
    if value > 0 then Varint.EncodeVarint(v) == bytes + Varint.EncodeVarint(value)
    else bytes != [] && bytes[|bytes| - 1] >= 128 && Varint.EncodeVarint(v) == ClearTop(bytes)
  }

  /** buffer[i-1] &= 0x7F. */
  ghost function ClearTop(bytes: seq<byte>): seq<byte>
    requires bytes != [] && bytes[|bytes| - 1] >= 128
  {
    bytes[..|bytes| - 1] + [bytes[|bytes| - 1] - 128]
  }

  lemma EmittingStep(v: nat, bytes: seq<byte>, value: nat)
    requires value > 0 && Emitting(v, bytes, value)
    ensures Emitting(v, bytes + [value % 128 + 128], value / 128)
    ensures |bytes| + 1 <= |Varint.EncodeVarint(v)|
  {
    var next := bytes + [value % 128 + 128];
    if value < 128 {
      assert ClearTop(next) == bytes + [value];
    } else {
      assert bytes + ([value % 128 + 128] + Varint.EncodeVarint(value / 128)) == next + Varint.EncodeVarint(value / 128);
    }
  }

  /** The buffer loop of pb_encode_varint for values above 0x7F. */
  method VarintBytes(v: nat) returns (bytes: seq<byte>)
    requires 128 <= v < TWO_64
    ensures bytes == Varint.EncodeVarint(v)
  {
    AtMostTenBytes(v);
    var buffer := new byte[10];
    var value, i := v, 0;
    assert buffer[..0] + Varint.EncodeVarint(v) == Varint.EncodeVarint(v);
    while value > 0
      invariant 0 <= i <= 10 && value >= 0 && Emitting(v, buffer[..i], value)
      decreases value
    {
      EmittingStep(v, buffer[..i], value);
      ghost var before := buffer[..i];
      buffer[i] := value % 128 + 128;
      value := value / 128;
      i := i + 1;
      assert buffer[..i] == before + [buffer[i - 1]];
    }
    ghost var all := buffer[..i];
    buffer[i - 1] := buffer[i - 1] - 128;
    bytes := buffer[..i];
    assert bytes == ClearTop(all);
  }

  /** pb_encode_varint. */
  method EncodeVarint(stream: OStream, value: nat) returns (ok: bool)
    requires stream.Valid() && value < TWO_64
    modifies stream, stream.buf
    ensures stream.Valid()
    ensures Emits(stream.sizing, stream.maxSize, old(stream.Now()), stream.Now(), Some(Varint.EncodeVarint(value)), ok)
  {
    if value <= 0x7F {
      ok := stream.Write([value]);
    } else {
      var bytes := VarintBytes(value);
      ok := stream.Write(bytes);
    }
  }

  /** pb_encode_tag. */
  method EncodeTag(stream: OStream, wire: nat, tag: nat) returns (ok: bool)
    requires stream.Valid() && wire < 8 && tag < TWO_32
    modifies stream, stream.buf
    ensures stream.Valid()
    ensures Emits(stream.sizing, stream.maxSize, old(stream.Now()), stream.Now(), Some(TagBytes(wire, tag)), ok)
  {
    ok := EncodeVarint(stream, tag * 8 + wire);
  }

  /** pb_encode_string. */
  method EncodeString(stream: OStream, bytes: seq<byte>) returns (ok: bool)
    requires stream.Valid() && |bytes| < TWO_64
    modifies stream, stream.buf
    ensures stream.Valid()
    ensures Emits(stream.sizing, stream.maxSize, old(stream.Now()), stream.Now(), Some(Delimit(bytes)), ok)
  {
    ghost var s0 := stream.Now();
    ok := EncodeVarint(stream, |bytes|);
    ghost var s1 := stream.Now();
    if !ok {
      EmitsFails(stream.sizing, stream.maxSize, s0, s1, Some(Varint.EncodeVarint(|bytes|)), Some(bytes));
      return;
    }
    ok := stream.Write(bytes);
    EmitsBoth(stream.sizing, stream.maxSize, s0, s1, stream.Now(), Some(Varint.EncodeVarint(|bytes|)), Some(bytes), ok);
  }

  /** The strnlen loop of pb_enc_string. */
  method StringLength(bytes: seq<byte>, max: nat) returns (size: nat)
    ensures size <= |bytes| && bytes[..size] == CString(bytes, max)
  {
    size := 0;
    while size < max && size < |bytes| && bytes[size] != 0
      invariant size <= |bytes| && size <= max
      invariant forall i :: 0 <= i < size ==> bytes[i] != 0
    {
      size := size + 1;
    }
    ghost var r := CString(bytes, max);
    assert size <= |r|;
    assert forall i :: 0 <= i < |r| ==> r[i] == bytes[i] && r[i] != 0;
    assert |r| <= size;
  }

  // ----- items

  /** The encoder of a packable type. */
  method EncodeScalarItem(stream: OStream, f: Field, item: Item) returns (ok: bool)
    requires stream.Valid() && Packable(f.ltype)
    modifies stream, stream.buf
    ensures stream.Valid()
    ensures Emits(stream.sizing, stream.maxSize, old(stream.Now()), stream.Now(), EncodeItem(f, item), ok)
  {
    match f.ltype {
      case LFixed32 => ok := stream.Write(LittleEndian(IntOf(item) % TWO_32, 4));
      case LFixed64 => ok := stream.Write(LittleEndian(IntOf(item) % TWO_64, 8));
      case LVarint | LUVarint | LSVarint =>
        if !ValidWidth(f.dataSize) {
          return false;
        }
        ok := EncodeVarint(stream, WireWord(f, IntOf(item)));
    }
  }

  /** pb_enc_bytes, pb_enc_string, pb_enc_fixed_length_bytes. */
  method EncodeContent(stream: OStream, f: Field, item: Item) returns (ok: bool)
    requires stream.Valid() && !Packable(f.ltype) && !f.ltype.LSubmessage?
    requires f.dataSize < TWO_32
    modifies stream, stream.buf
    ensures stream.Valid()
    ensures Emits(stream.sizing, stream.maxSize, old(stream.Now()), stream.Now(), EncodeItem(f, item), ok)
  {
    match (f.ltype, item) {
      case (LBytes, Blob(bs)) =>
        if |bs| + BYTES_HEADER > f.dataSize {
          return false;
        }
        ok := EncodeString(stream, bs);
      case (LString, Text(bs)) =>
        var size := StringLength(bs, f.dataSize);
        ok := EncodeString(stream, bs[..size]);
      case (LFixedLengthBytes, Blob(bs)) =>
        if |bs| != f.dataSize {
          return false;
        }
        ok := EncodeString(stream, bs);
      case _ => ok := false;
    }
  }

  // ----- fields and messages

  /** Tags and sizes are pb_size_t values, at every depth. */
  ghost predicate Descriptor32(fields: seq<Field>)
    decreases fields, 1
  {
    forall f :: f in fields ==> Field32(f)
  }

  ghost predicate Field32(f: Field)
    decreases f, 0
  {
    f.tag < TWO_32 && f.dataSize < TWO_32 && (f.ltype.LSubmessage? ==> Descriptor32(f.ltype.fields))
  }

  /** pb_encode_submessage: size first, then write into a window of exactly that size. */
  method EncodeSubmessage(stream: OStream, fields: seq<Field>, slots: seq<Slot>) returns (ok: bool)
    requires stream.Valid() && Descriptor32(fields) && LengthsBelow(fields, slots, TWO_64)
    requires |slots| == SlotCount(fields)
    requires Spec.Encode(fields, slots).Some? ==> |Spec.Encode(fields, slots).value| < TWO_64
    modifies stream, stream.buf
    ensures stream.Valid()
    ensures Emits(stream.sizing, stream.maxSize, old(stream.Now()), stream.Now(), Delimited(Spec.Encode(fields, slots)), ok)
    decreases slots, 8
  {
    ghost var s0, out := stream.Now(), Spec.Encode(fields, slots);
    var counter := new OStream.Sizing();
    ok := Encode(counter, fields, slots);
    if !ok {
      return;
    }
    var size := counter.bytesWritten;
    ghost var prefix := Some(Varint.EncodeVarint(size));
    ok := EncodeVarint(stream, size);
    ghost var s1 := stream.Now();
    if !ok {
      EmitsFails(stream.sizing, stream.maxSize, s0, s1, prefix, out);
      return;
    }
    if stream.sizing {
      stream.Count(out.value, size);
      EmitsBoth(true, stream.maxSize, s0, s1, stream.Now(), prefix, out, true);
      return;
    }
    if stream.bytesWritten + size > stream.maxSize {
      EmitsBoth(false, stream.maxSize, s0, s1, s1, prefix, out, false);
      return false;
    }
    ok := EncodeInWindow(stream, fields, slots, size);
    EmitsBoth(false, stream.maxSize, s0, s1, stream.Now(), prefix, out, ok);
  }

  /** The second pass of pb_encode_submessage, through a substream limited to the size counted before. */
  method EncodeInWindow(stream: OStream, fields: seq<Field>, slots: seq<Slot>, size: nat) returns (ok: bool)
    requires stream.Valid() && !stream.sizing && Descriptor32(fields) && LengthsBelow(fields, slots, TWO_64)
    requires |slots| == SlotCount(fields)
    requires Spec.Encode(fields, slots).Some? && size == |Spec.Encode(fields, slots).value|
    requires stream.bytesWritten + size <= stream.maxSize
    modifies stream, stream.buf
    ensures stream.Valid() && ok
    ensures Emits(false, stream.maxSize, old(stream.Now()), stream.Now(), Spec.Encode(fields, slots), true)
    decreases slots, 7
  {
    var window := new OStream.Window(stream.buf, stream.state, size);
    var status := Encode(window, fields, slots);
    stream.bytesWritten := stream.bytesWritten + window.bytesWritten;
    stream.state := window.state;
    // "submsg size changed" cannot happen: the second pass wrote what the first one counted.
    assert status && window.bytesWritten == size;
    if window.bytesWritten != size {
      return false;
    }
    return status;
  }

  ghost function Delimited(content: Option<seq<byte>>): Option<seq<byte>> {
    match content
    case None => None
    case Some(bs) => Some(Delimit(bs))
  }

  /** PB_ENCODERS: the encoder of the field's type. */
  method EncodeOne(stream: OStream, f: Field, item: Item) returns (ok: bool)
    requires stream.Valid() && Field32(f) && ItemLengthsBelow(f, item, TWO_64)
    modifies stream, stream.buf
    ensures stream.Valid()
    ensures Emits(stream.sizing, stream.maxSize, old(stream.Now()), stream.Now(), EncodeItem(f, item), ok)
    decreases item, 0
  {
    if Packable(f.ltype) {
      ok := EncodeScalarItem(stream, f, item);
    } else if !f.ltype.LSubmessage? {
      ok := EncodeContent(stream, f, item);
    } else if item.Msg? && |item.slots| == SlotCount(f.ltype.fields) {
      ok := EncodeSubmessage(stream, f.ltype.fields, item.slots);
    } else {
      ok := false;
    }
  }

  /** A tag for the field's own wire type, then the item. */
  method EncodeTagged(stream: OStream, f: Field, item: Item) returns (ok: bool)
    requires stream.Valid() && Field32(f) && ItemLengthsBelow(f, item, TWO_64)
    modifies stream, stream.buf
    ensures stream.Valid()
    ensures Emits(stream.sizing, stream.maxSize, old(stream.Now()), stream.Now(), EncodeRecord(f, item), ok)
    decreases item, 1
  {
    ghost var s0 := stream.Now();
    ok := EncodeTag(stream, WireType(f.ltype), f.tag);
    ghost var s1, tag := stream.Now(), Some(TagBytes(WireType(f.ltype), f.tag));
    if !ok {
      EmitsFails(stream.sizing, stream.maxSize, s0, s1, tag, EncodeItem(f, item));
      return;
    }
    ok := EncodeOne(stream, f, item);
    EmitsBoth(stream.sizing, stream.maxSize, s0, s1, stream.Now(), tag, EncodeItem(f, item), ok);
  }

  /** The data loop of a packed array, on a real or a sizing stream. */
  method EncodePackedItems(stream: OStream, f: Field, items: seq<Item>) returns (ok: bool)
    requires stream.Valid() && Packable(f.ltype)
    modifies stream, stream.buf
    ensures stream.Valid()
    ensures Emits(stream.sizing, stream.maxSize, old(stream.Now()), stream.Now(), EncodePayload(f, items), ok)
  {
    ghost var s0 := stream.Now();
    EmitsNothing(stream.sizing, stream.maxSize, s0);
    var i := 0;
    while i < |items|
      invariant 0 <= i <= |items| && stream.Valid()
      invariant Emits(stream.sizing, stream.maxSize, s0, stream.Now(), EncodePayload(f, items[..i]), true)
    {
      ghost var s1 := stream.Now();
      ok := EncodeScalarItem(stream, f, items[i]);
      PayloadSplit(f, items, i);
      EmitsBoth(stream.sizing, stream.maxSize, s0, s1, stream.Now(), EncodePayload(f, items[..i]), EncodeItem(f, items[i]), ok);
      if !ok {
        EmitsFails(stream.sizing, stream.maxSize, s0, stream.Now(), EncodePayload(f, items[..i + 1]),
                   EncodePayload(f, items[i + 1..]));
        return;
      }
      i := i + 1;
    }
    assert items[..i] == items;
    ok := true;
  }

  lemma {:induction false} PayloadAppend(f: Field, a: seq<Item>, b: seq<Item>)
    requires Packable(f.ltype)
    ensures EncodePayload(f, a + b) == Cat(EncodePayload(f, a), EncodePayload(f, b))
  {
    if a == [] {
      assert a + b == b;
      if EncodePayload(f, b).Some? { assert [] + EncodePayload(f, b).value == EncodePayload(f, b).value; }
    } else {
      PayloadAppend(f, a[1..], b);
      assert (a + b)[1..] == a[1..] + b;
      CatAssociative(EncodeScalar(f, IntOf(a[0])), EncodePayload(f, a[1..]), EncodePayload(f, b));
    }
  }

  lemma CatAssociative(a: Option<seq<byte>>, b: Option<seq<byte>>, c: Option<seq<byte>>)
    ensures Cat(Cat(a, b), c) == Cat(a, Cat(b, c))
  {
    if a.Some? && b.Some? && c.Some? {
      assert a.value + b.value + c.value == a.value + (b.value + c.value);
    }
  }

  lemma PayloadSplit(f: Field, items: seq<Item>, i: nat)
    requires Packable(f.ltype) && i < |items|
    ensures EncodePayload(f, items[..i + 1]) == Cat(EncodePayload(f, items[..i]), EncodeItem(f, items[i]))
    ensures EncodePayload(f, items) == Cat(EncodePayload(f, items[..i + 1]), EncodePayload(f, items[i + 1..]))
  {
    assert items[..i + 1] == items[..i] + [items[i]];
    PayloadAppend(f, items[..i], [items[i]]);
    if EncodeItem(f, items[i]).Some? {
      var x := EncodeItem(f, items[i]).value;
      assert x + [] == x;
    }
    assert items == items[..i + 1] + items[i + 1..];
    PayloadAppend(f, items[..i + 1], items[i + 1..]);
  }

  lemma {:induction false} FixedPayload(f: Field, items: seq<Item>)
    requires f.ltype.LFixed32? || f.ltype.LFixed64?
    ensures EncodePayload(f, items).Some?
    ensures |EncodePayload(f, items).value| == (if f.ltype.LFixed32? then 4 else 8) * |items|
  {
    if items != [] { FixedPayload(f, items[1..]); }
  }

  /** The total size of a packed array: a multiplication for fixed-width types, a sizing pass otherwise. */
  method PackedSize(f: Field, items: seq<Item>) returns (ok: bool, size: nat)
    requires Packable(f.ltype)
    ensures ok == EncodePayload(f, items).Some?
    ensures ok ==> size == |EncodePayload(f, items).value|
  {
    if f.ltype.LFixed32? {
      FixedPayload(f, items);
      return true, 4 * |items|;
    }
    if f.ltype.LFixed64? {
      FixedPayload(f, items);
      return true, 8 * |items|;
    }
    var counter := new OStream.Sizing();
    ok := EncodePackedItems(counter, f, items);
    size := counter.bytesWritten;
  }

  /** The packed branch of encode_array. */
  method EncodePacked(stream: OStream, f: Field, items: seq<Item>) returns (ok: bool)
    requires stream.Valid() && Packable(f.ltype) && Field32(f)
    requires EncodePayload(f, items).Some? ==> |EncodePayload(f, items).value| < TWO_64
    modifies stream, stream.buf
    ensures stream.Valid()
    ensures Emits(stream.sizing, stream.maxSize, old(stream.Now()), stream.Now(),
                  Cat(Some(TagBytes(WT_STRING, f.tag)), Delimited(EncodePayload(f, items))), ok)
  {
    ghost var s0, tag, out := stream.Now(), Some(TagBytes(WT_STRING, f.tag)), EncodePayload(f, items);
    ok := EncodeTag(stream, WT_STRING, f.tag);
    ghost var s1 := stream.Now();
    if !ok {
      EmitsFails(stream.sizing, stream.maxSize, s0, s1, tag, Delimited(out));
      return;
    }
    ok := EncodePackedBody(stream, f, items);
    EmitsBoth(stream.sizing, stream.maxSize, s0, s1, stream.Now(), tag, Delimited(out), ok);
  }

  /** Length prefix and data of a packed array. */
  method EncodePackedBody(stream: OStream, f: Field, items: seq<Item>) returns (ok: bool)
    requires stream.Valid() && Packable(f.ltype)
    requires EncodePayload(f, items).Some? ==> |EncodePayload(f, items).value| < TWO_64
    modifies stream, stream.buf
    ensures stream.Valid()
    ensures Emits(stream.sizing, stream.maxSize, old(stream.Now()), stream.Now(), Delimited(EncodePayload(f, items)), ok)
  {
    ghost var s0, out := stream.Now(), EncodePayload(f, items);
    var size;
    ok, size := PackedSize(f, items);
    if !ok {
      return;
    }
    ghost var prefix := Some(Varint.EncodeVarint(size));
    ok := EncodeVarint(stream, size);
    ghost var s1 := stream.Now();
    if !ok {
      EmitsFails(stream.sizing, stream.maxSize, s0, s1, prefix, out);
      return;
    }
    if stream.sizing {
      stream.Count(out.value, size);
    } else {
      ok := EncodePackedItems(stream, f, items);
    }
    EmitsBoth(stream.sizing, stream.maxSize, s0, s1, stream.Now(), prefix, out, ok);
  }

  /** The unpacked branch of encode_array. */
  method EncodeUnpacked(stream: OStream, f: Field, items: seq<Item>) returns (ok: bool)
    requires stream.Valid() && Field32(f) && forall x :: x in items ==> ItemLengthsBelow(f, x, TWO_64)
    modifies stream, stream.buf
    ensures stream.Valid()
    ensures Emits(stream.sizing, stream.maxSize, old(stream.Now()), stream.Now(), EncodeRecords(f, items), ok)
    decreases items, 2
  {
    ghost var s0 := stream.Now();
    EmitsNothing(stream.sizing, stream.maxSize, s0);
    var i := 0;
    while i < |items|
      invariant 0 <= i <= |items| && stream.Valid()
      invariant Emits(stream.sizing, stream.maxSize, s0, stream.Now(), EncodeRecords(f, items[..i]), true)
    {
      ghost var s1 := stream.Now();
      ok := EncodeTagged(stream, f, items[i]);
      RecordsSplit(f, items, i);
      EmitsBoth(stream.sizing, stream.maxSize, s0, s1, stream.Now(), EncodeRecords(f, items[..i]), EncodeRecord(f, items[i]), ok);
      if !ok {
        EmitsFails(stream.sizing, stream.maxSize, s0, stream.Now(), EncodeRecords(f, items[..i + 1]),
                   EncodeRecords(f, items[i + 1..]));
        return;
      }
      i := i + 1;
    }
    assert items[..i] == items;
    ok := true;
  }

  lemma {:induction false} RecordsAppend(f: Field, a: seq<Item>, b: seq<Item>)
    ensures EncodeRecords(f, a + b) == Cat(EncodeRecords(f, a), EncodeRecords(f, b))
    decreases |a|
  {
    if a == [] {
      assert a + b == b;
      if EncodeRecords(f, b).Some? { assert [] + EncodeRecords(f, b).value == EncodeRecords(f, b).value; }
    } else {
      RecordsAppend(f, a[1..], b);
      assert (a + b)[1..] == a[1..] + b;
      CatAssociative(EncodeRecord(f, a[0]), EncodeRecords(f, a[1..]), EncodeRecords(f, b));
    }
  }

  lemma RecordsSplit(f: Field, items: seq<Item>, i: nat)
    requires i < |items|
    ensures EncodeRecords(f, items[..i + 1]) == Cat(EncodeRecords(f, items[..i]), EncodeRecord(f, items[i]))
    ensures EncodeRecords(f, items) == Cat(EncodeRecords(f, items[..i + 1]), EncodeRecords(f, items[i + 1..]))
  {
    assert items[..i + 1] == items[..i] + [items[i]];
    RecordsAppend(f, items[..i], [items[i]]);
    if EncodeRecord(f, items[i]).Some? {
      var x := EncodeRecord(f, items[i]).value;
      assert x + [] == x;
    }
    assert items == items[..i + 1] + items[i + 1..];
    RecordsAppend(f, items[..i + 1], items[i + 1..]);
  }

  /** encode_basic_field, with encode_array for the repeated case. */
  method EncodeBasicField(stream: OStream, f: Field, slot: Slot) returns (ok: bool)
    requires stream.Valid() && Field32(f) && SlotLengthsBelow(f, slot, TWO_64)
    modifies stream, stream.buf
    ensures stream.Valid()
    ensures Emits(stream.sizing, stream.maxSize, old(stream.Now()), stream.Now(), EncodeField(f, slot), ok)
    decreases slot, 4
  {
    EmitsNothing(stream.sizing, stream.maxSize, stream.Now());
    if !Present(f, slot) {
      return true;
    }
    if slot.Arr? != f.htype.Repeated? {
      return false;
    }
    if slot.Arr? {
      if |slot.items| > f.arraySize {
        return false;
      }
      if Packable(f.ltype) {
        ok := EncodePacked(stream, f, slot.items);
      } else {
        ok := EncodeUnpacked(stream, f, slot.items);
      }
    } else {
      ok := EncodeTagged(stream, f, slot.item);
    }
  }

  /** The first n entries of a message. */
  ghost function EncodeUpTo(fields: seq<Field>, msg: seq<Slot>, n: nat): Option<seq<byte>>
    requires |msg| == SlotCount(fields) && n <= |fields|
  {
    if n == 0 then Some([])
    else
      SlotMonotone(fields, n - 1, n - 1);
      Cat(EncodeUpTo(fields, msg, n - 1), EncodeField(fields[n - 1], msg[SlotOf(fields, n - 1)]))
  }

  lemma {:induction false} EncodeSplit(fields: seq<Field>, msg: seq<Slot>, n: nat)
    requires |msg| == SlotCount(fields) && n <= |fields|
    ensures EncodeFrom(fields, msg, 0) == Cat(EncodeUpTo(fields, msg, n), EncodeFrom(fields, msg, n))
  {
    if n == 0 {
      var all := EncodeFrom(fields, msg, 0);
      if all.Some? { assert [] + all.value == all.value; }
    } else {
      SlotMonotone(fields, n - 1, n - 1);
      EncodeSplit(fields, msg, n - 1);
      CatAssociative(EncodeUpTo(fields, msg, n - 1), EncodeField(fields[n - 1], msg[SlotOf(fields, n - 1)]),
                     EncodeFrom(fields, msg, n));
    }
  }

  /** The field loop: one more entry on top of the first n. */
  lemma EmitsNext(sizing: bool, max: nat, s0: Snap, s1: Snap, s2: Snap, fields: seq<Field>, msg: seq<Slot>, n: nat, ok: bool)
    requires |msg| == SlotCount(fields) && n < |fields| && SlotOf(fields, n) < |msg|
    requires Emits(sizing, max, s0, s1, EncodeUpTo(fields, msg, n), true)
    requires Emits(sizing, max, s1, s2, EncodeField(fields[n], msg[SlotOf(fields, n)]), ok)
    ensures Emits(sizing, max, s0, s2, EncodeUpTo(fields, msg, n + 1), ok)
    ensures !ok ==> Emits(sizing, max, s0, s2, EncodeFrom(fields, msg, 0), false)
  {
    EmitsBoth(sizing, max, s0, s1, s2, EncodeUpTo(fields, msg, n), EncodeField(fields[n], msg[SlotOf(fields, n)]), ok);
    EncodeSplit(fields, msg, n + 1);
    if !ok { EmitsFails(sizing, max, s0, s2, EncodeUpTo(fields, msg, n + 1), EncodeFrom(fields, msg, n + 1)); }
  }

  lemma EncodeWhole(fields: seq<Field>, msg: seq<Slot>)
    requires |msg| == SlotCount(fields)
    ensures EncodeUpTo(fields, msg, |fields|) == EncodeFrom(fields, msg, 0)
  {
    EncodeSplit(fields, msg, |fields|);
    var all := EncodeUpTo(fields, msg, |fields|);
    if all.Some? { assert all.value + [] == all.value; }
  }

  /** From s0 on, the first n entries have been written. */
  ghost predicate Written(sizing: bool, max: nat, s0: Snap, s: Snap, fields: seq<Field>, msg: seq<Slot>, n: nat)
    requires |msg| == SlotCount(fields) && n <= |fields|
  {
    Emits(sizing, max, s0, s, EncodeUpTo(fields, msg, n), true)
  }

  lemma WrittenAll(sizing: bool, max: nat, s0: Snap, s: Snap, fields: seq<Field>, msg: seq<Slot>)
    requires |msg| == SlotCount(fields) && Written(sizing, max, s0, s, fields, msg, |fields|)
    ensures Emits(sizing, max, s0, s, Spec.Encode(fields, msg), true)
  {
    EncodeWhole(fields, msg);
  }

  /** One entry of the loop in pb_encode, which started at s0. */
  method EncodeEntry(stream: OStream, fields: seq<Field>, msg: seq<Slot>, i: nat, slot: nat, ghost s0: Snap)
    returns (ok: bool)
    requires stream.Valid() && Descriptor32(fields) && LengthsBelow(fields, msg, TWO_64)
    requires |msg| == SlotCount(fields) && i < |fields| && slot == SlotOf(fields, i)
    requires Written(stream.sizing, stream.maxSize, s0, stream.Now(), fields, msg, i)
    modifies stream, stream.buf
    ensures stream.Valid()
    ensures ok ==> Written(stream.sizing, stream.maxSize, s0, stream.Now(), fields, msg, i + 1)
    ensures !ok ==> Emits(stream.sizing, stream.maxSize, s0, stream.Now(), Spec.Encode(fields, msg), false)
    decreases msg, 5
  {
    ghost var s1 := stream.Now();
    SlotMonotone(fields, i, i);
    assert fields[i] in fields && EntryLengthsBelow(fields, msg, i, TWO_64);
    ok := EncodeBasicField(stream, fields[i], msg[slot]);
    EmitsNext(stream.sizing, stream.maxSize, s0, s1, stream.Now(), fields, msg, i, ok);
  }

  /** pb_encode. */
  method Encode(stream: OStream, fields: seq<Field>, msg: seq<Slot>) returns (ok: bool)
    requires stream.Valid() && Descriptor32(fields) && LengthsBelow(fields, msg, TWO_64)
    requires |msg| == SlotCount(fields)
    modifies stream, stream.buf
    ensures stream.Valid()
    ensures Emits(stream.sizing, stream.maxSize, old(stream.Now()), stream.Now(), Spec.Encode(fields, msg), ok)
    decreases msg, 6
  {
    ghost var s0 := stream.Now();
    EmitsNothing(stream.sizing, stream.maxSize, s0);
    if fields == [] {
      return true;
    }
    var iter := new FieldIter(fields, 0);
    var more := true;
    ghost var n := 0;
    while more
      invariant stream.Valid() && iter.Valid() && iter.start == fields && fresh(iter)
      invariant 0 <= n <= |fields| && if more then n == iter.pos < |fields| else n == |fields|
      invariant Written(stream.sizing, stream.maxSize, s0, stream.Now(), fields, msg, n)
      decreases |fields| - n, more
    {
      ok := EncodeEntry(stream, fields, msg, iter.pos, iter.slot, s0);
      if !ok {
        return;
      }
      n := n + 1;
      more := iter.Next();
    }
    WrittenAll(stream.sizing, stream.maxSize, s0, stream.Now(), fields, msg);
    ok := true;
  }

  // ----- sizing and writing agree

  /** pb_get_encoded_size: the length of what a real encode writes, found without writing anything. */
  method GetEncodedSize(fields: seq<Field>, msg: seq<Slot>) returns (ok: bool, size: nat)
    requires Descriptor32(fields) && LengthsBelow(fields, msg, TWO_64) && |msg| == SlotCount(fields)
    ensures ok == Spec.Encode(fields, msg).Some?
    ensures ok ==> size == |Spec.Encode(fields, msg).value|
  {
    var stream := new OStream.Sizing();
    ok := Encode(stream, fields, msg);
    size := stream.bytesWritten;
  }

  /**
   A real encode into a buffer succeeds exactly when the counted size fits: in every buffer of at least that
   capacity, and in no smaller one. It writes that many bytes and touches nothing behind them.
   */
  method EncodeToBuffer(fields: seq<Field>, msg: seq<Slot>, buf: array<byte>) returns (ok: bool, written: nat)
    requires Descriptor32(fields) && LengthsBelow(fields, msg, TWO_64) && |msg| == SlotCount(fields)
    modifies buf
    ensures ok <==> Spec.Encode(fields, msg).Some? && |Spec.Encode(fields, msg).value| <= buf.Length
    ensures ok ==> written == |Spec.Encode(fields, msg).value|
    ensures ok ==> buf[..] == Spec.Encode(fields, msg).value + old(buf[..])[written..]
  {
    var stream := new OStream.Window(buf, 0, buf.Length);
    ok := Encode(stream, fields, msg);
    written := stream.bytesWritten;
    if ok {
      assert old(buf[..])[..0] + Spec.Encode(fields, msg).value == Spec.Encode(fields, msg).value;
    }
  }
}
