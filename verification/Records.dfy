/** Reading back single records: tags, scalars, delimited content, and skipping what the reader does not know. */
module Records {
  import opened Words
  import opened Varint
  import opened Scalars
  import opened Descriptor
  import opened DecodeSpec
  import opened EncodeSpec

  lemma ReadTagBytes(wire: nat, tag: nat, tail: seq<byte>)
    requires wire < 8 && 1 <= tag < TAG_LIMIT
    ensures ReadTag(TagBytes(wire, tag) + tail) == Tag(tag, wire, tail)
  {
    var v := tag * 8 + wire;
    RoundTrip32(v, tail);
    assert v / 8 == tag && v % 8 == wire;
  }

  lemma TakeDelimit(bs: seq<byte>, tail: seq<byte>)
    requires |bs| < TWO_32
    ensures TakeDelimited(Delimit(bs) + tail) == Done(bs, tail)
  {
    RoundTrip32(|bs|, bs + tail);
    assert Delimit(bs) + tail == EncodeVarint(|bs|) + (bs + tail);
    assert (bs + tail)[..|bs|] == bs && (bs + tail)[|bs|..] == tail;
  }

  /** What a reader's cell receives when a writer sends v through a scalar field of the same type. */
  function DeliverScalar(r: Field, w: Field, v: int): Option<Item>
    requires Packable(w.ltype) && r.ltype == w.ltype
  {
    match w.ltype
    case LFixed32 => Some(Int(v % TWO_32))
    case LFixed64 => Some(Int(v % TWO_64))
    case _ =>
      match WordCell(r, WireWord(w, v))
      case None => None
      case Some(x) => Some(Int(x))
  }

  /** Fail where the delivery fails, otherwise the delivered value with `tail` left. */
  function Arrives<T>(d: Option<T>, tail: seq<byte>): Parse<T> {
    match d
    case None => Fail
    case Some(x) => Done(x, tail)
  }

  lemma FixedArrives(v: nat, n: nat, tail: seq<byte>)
    requires v < Pow256(n)
    ensures FixedItem(LittleEndian(v, n) + tail, n) == Done(Int(v), tail)
  {
    var s := LittleEndian(v, n) + tail;
    assert s[..n] == LittleEndian(v, n) && s[n..] == tail;
    LittleEndianRoundTrip(v, n);
  }

  lemma ScalarArrives(r: Field, w: Field, v: int, tail: seq<byte>)
    requires Packable(w.ltype) && r.ltype == w.ltype && EncodeScalar(w, v).Some?
    ensures ReadScalar(r, EncodeScalar(w, v).value + tail) == Arrives(DeliverScalar(r, w, v), tail)
    ensures |EncodeScalar(w, v).value| >= 1
  {
    FixedWidths();
    match w.ltype
    case LFixed32 => FixedArrives(v % TWO_32, 4, tail);
    case LFixed64 => FixedArrives(v % TWO_64, 8, tail);
    case LVarint | LUVarint | LSVarint => RoundTrip64(WireWord(w, v), tail);
  }

  /** A scalar the writer's cell holds reaches a reader's cell of the same width unchanged. */
  lemma ScalarSurvives(f: Field, v: int)
    requires Packable(f.ltype) && FitsItem(f, Int(v))
    ensures DeliverScalar(f, f, v) == Some(Int(v))
  {
    match f.ltype
    case LVarint => VarintRoundTrip(f.dataSize, v);
    case LUVarint => UVarintRoundTrip(f.dataSize, v);
    case LSVarint => ZigZagSurvives(f, v);
    case LFixed32 =>
    case LFixed64 =>
  }

  lemma ZigZagSurvives(f: Field, v: int)
    requires f.ltype.LSVarint? && FitsItem(f, Int(v))
    ensures DeliverScalar(f, f, v) == Some(Int(v))
  {
    SVarintRoundTrip(f.dataSize, v);
    assert WireWord(f, v) == ZigZag(v);
  }

  /** The items of a packed run, appended as long as the reader's array has room. */
  function DeliverRun(r: Field, w: Field, have: seq<Item>, items: seq<Item>): Option<seq<Item>>
    requires Packable(w.ltype) && r.ltype == w.ltype
    decreases |items|
  {
    if items == [] then Some(have)
    else if |have| >= r.arraySize || !items[0].Int? then None
    else match DeliverScalar(r, w, items[0].v)
      case None => None
      case Some(x) => DeliverRun(r, w, have + [x], items[1..])
  }

  lemma {:induction false} RunArrives(r: Field, w: Field, have: seq<Item>, items: seq<Item>)
    requires Packable(w.ltype) && r.ltype == w.ltype && EncodePayload(w, items).Some?
    requires forall x :: x in items ==> x.Int?
    ensures ReadPacked(r, have, EncodePayload(w, items).value) == DeliverRun(r, w, have, items)
    decreases |items|
  {
    if items != [] {
      var rest := EncodePayload(w, items[1..]).value;
      assert items[0] in items;
      ScalarArrives(r, w, items[0].v, rest);
      var d := DeliverScalar(r, w, items[0].v);
      if d.Some? {
        RunArrives(r, w, have + [d.value], items[1..]);
      }
    }
  }

  /** When reader and writer cells agree, a run arrives whole exactly when the array has room for it. */
  lemma {:induction false} RunSurvives(f: Field, have: seq<Item>, items: seq<Item>)
    requires Packable(f.ltype) && forall x :: x in items ==> FitsItem(f, x)
    ensures DeliverRun(f, f, have, items) ==
            if items == [] || |have| + |items| <= f.arraySize then Some(have + items) else None
    decreases |items|
  {
    if items != [] {
      assert items[0] in items;
      ScalarSurvives(f, items[0].v);
      RunSurvives(f, have + [items[0]], items[1..]);
      assert have + [items[0]] + items[1..] == have + items;
    } else {
      assert have + items == have;
    }
  }

  /** Skipping an encoded item consumes exactly that item, whatever its type. */
  lemma SkipItem(f: Field, item: Item, tail: seq<byte>)
    requires EncodeItem(f, item).Some?
    requires !Packable(f.ltype) ==> ContentOf(f, item).Some? && |ContentOf(f, item).value| < TWO_32
    ensures SkipField(WireType(f.ltype), EncodeItem(f, item).value + tail) == Done((), tail)
  {
    match f.ltype
    case LVarint | LUVarint | LSVarint => SkipEncoded(WireWord(f, IntOf(item)), tail);
    case LFixed32 => SkipFixed(LittleEndian(IntOf(item) % TWO_32, 4), tail);
    case LFixed64 => SkipFixed(LittleEndian(IntOf(item) % TWO_64, 8), tail);
    case LBytes | LString | LFixedLengthBytes | LSubmessage(_) => TakeDelimit(ContentOf(f, item).value, tail);
  }

  lemma SkipFixed(bs: seq<byte>, tail: seq<byte>)
    ensures Take(bs + tail, |bs|) == Done(bs, tail)
  {
    assert (bs + tail)[..|bs|] == bs && (bs + tail)[|bs|..] == tail;
  }

  /** The delimited part of a non-packable item. */
  function ContentOf(f: Field, item: Item): Option<seq<byte>> {
    if f.ltype.LSubmessage? then if item.Msg? then Encode(f.ltype.fields, item.slots) else None
    else ItemContent(f, item)
  }

  /** What the record loop does with a tag and everything after it. */
  function Dispatch(fields: seq<Field>, msg: seq<Slot>, seen: set<nat>, wire: nat, tag: nat, after: seq<byte>): Loop
    requires |msg| == SlotCount(fields)
  {
    match Find(fields, tag)
    case None =>
      if fields == [] && tag == 0 then Failed
      else (match SkipField(wire, after)
            case Fail => Failed
            case Done(_, r) => RunLoop(fields, msg, seen, r))
    case Some(i) =>
      SlotMonotone(fields, i, i);
      match ReadField(fields[i], msg[SlotOf(fields, i)], wire, after)
      case Fail => Failed
      case Done(slot, r) => RunLoop(fields, msg[SlotOf(fields, i) := slot], seen + {i}, r)
  }

  lemma LoopStep(fields: seq<Field>, msg: seq<Slot>, seen: set<nat>, wire: nat, tag: nat, after: seq<byte>)
    requires |msg| == SlotCount(fields)
    requires wire < 8 && 1 <= tag < TAG_LIMIT
    ensures RunLoop(fields, msg, seen, TagBytes(wire, tag) + after) == Dispatch(fields, msg, seen, wire, tag, after)
  {
    ReadTagBytes(wire, tag, after);
    assert TagBytes(wire, tag) + after != [];
  }
}
