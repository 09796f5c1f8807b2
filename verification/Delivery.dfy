/**
 Sending a message from one descriptor to another.

 `Deliver` says, on values alone, what a reader's struct holds after receiving a writer's message:
 entries are matched by tag, unknown ones are dropped, singular submessages merge, union members and
 array items start fresh, and the reader's capacities decide what is refused. The theorem is that
 encoding with the writer's descriptor and decoding with the reader's computes exactly that.
 */
module Delivery {
  import opened Words
  import opened Descriptor
  import opened DecodeSpec
  import opened EncodeSpec
  import opened Records
  import opened RequiredBits

  // ----- which descriptors can talk to each other

  /** Same wire format; a packed array needs an array on the other side. */
  predicate Compatible(r: Field, w: Field)
    decreases w, 0
  {
    && (if w.ltype.LSubmessage? then r.ltype.LSubmessage? && CompatibleAll(r.ltype.fields, w.ltype.fields)
        else r.ltype == w.ltype)
    && (w.htype.Repeated? && Packable(w.ltype) ==> r.htype.Repeated?)
  }

  /** Every entry the reader knows is compatible; order, presence rules, unions and capacities may differ. */
  predicate CompatibleAll(reader: seq<Field>, writer: seq<Field>)
    decreases writer, 1
  {
    forall w :: w in writer ==> Find(reader, w.tag).Some? ==> Compatible(reader[Find(reader, w.tag).value], w)
  }

  /** Every length prefix fits the reader's 32-bit varint. */
  predicate Short(writer: seq<Field>, msg: seq<Slot>) {
    LengthsBelow(writer, msg, TWO_32)
  }

  // ----- delivery on values

  function DeliverItem(r: Field, w: Field, prior: Item, item: Item): Option<Item>
    requires Compatible(r, w)
    decreases item, 0
  {
    if Packable(w.ltype) then if item.Int? then DeliverScalar(r, w, item.v) else None
    else if w.ltype.LSubmessage? then
      if !item.Msg? then None
      else match Deliver(r.ltype.fields, w.ltype.fields, BaseOf(r.ltype.fields, prior), item.slots)
        case None => None
        case Some(msg) => Some(Msg(msg))
    else match ItemContent(w, item)
      case None => None
      case Some(bs) => ContentItem(r, bs)
  }

  /** Where entry r puts a received item, or None when there is no room or no item. */
  function Place(r: Field, slot: Slot, item: Option<Item>): Option<Slot> {
    if item.None? then None
    else match r.htype
      case Required => Some(Single(item.value))
      case Optional => Some(if Implicit(r) then Single(item.value) else Opt(true, item.value))
      case Oneof => Some(Union(r.tag, item.value))
      case Repeated => if |ItemsOf(slot)| >= r.arraySize then None else Some(Arr(ItemsOf(slot) + [item.value]))
  }

  /** One tagged item reaches the reader's entry r. */
  function DeliverRecord(r: Field, w: Field, slot: Slot, item: Item): Option<Slot>
    requires Compatible(r, w)
    decreases item, 1
  {
    Place(r, slot, DeliverItem(r, w, PriorOf(r, slot), item))
  }

  function DeliverRecords(r: Field, w: Field, slot: Slot, items: seq<Item>): Option<Slot>
    requires Compatible(r, w)
    decreases items, 2
  {
    if items == [] then Some(slot)
    else match DeliverRecord(r, w, slot, items[0])
      case None => None
      case Some(next) => DeliverRecords(r, w, next, items[1..])
  }

  /** Everything the writer's slot sends to the reader's entry r. */
  function DeliverField(r: Field, w: Field, slot: Slot, sent: Slot): Option<Slot>
    requires Compatible(r, w)
    decreases sent, 3
  {
    if !sent.Arr? then DeliverRecord(r, w, slot, sent.item)
    else if Packable(w.ltype) then
      match DeliverRun(r, w, ItemsOf(slot), sent.items)
      case None => None
      case Some(items) => Some(Arr(items))
    else DeliverRecords(r, w, slot, sent.items)
  }

  /** The reader's struct and the entries it has met. */
  datatype State = State(msg: seq<Slot>, seen: set<nat>)

  function DeliverFrom(reader: seq<Field>, writer: seq<Field>, st: State, msg: seq<Slot>, i: nat): (r: Option<State>)
    requires CompatibleAll(reader, writer)
    requires |st.msg| == SlotCount(reader) && |msg| == SlotCount(writer) && i <= |writer|
    ensures r.Some? ==> |r.value.msg| == SlotCount(reader)
    decreases msg, 4, |writer| - i
  {
    if i == |writer| then Some(st)
    else
      SlotMonotone(writer, i, i);
      var sent := msg[SlotOf(writer, i)];
      var found := Find(reader, writer[i].tag);
      if !Present(writer[i], sent) || found.None? then DeliverFrom(reader, writer, st, msg, i + 1)
      else
        var k := found.value;
        SlotMonotone(reader, k, k);
        match DeliverField(reader[k], writer[i], st.msg[SlotOf(reader, k)], sent)
        case None => None
        case Some(slot) =>
          DeliverFrom(reader, writer, State(st.msg[SlotOf(reader, k) := slot], st.seen + {k}), msg, i + 1)
  }

  /** The reader's struct after receiving msg on top of `base`, or None when the reader refuses. */
  function Deliver(reader: seq<Field>, writer: seq<Field>, base: seq<Slot>, msg: seq<Slot>): (r: Option<seq<Slot>>)
    requires CompatibleAll(reader, writer) && |base| == SlotCount(reader)
    ensures r.Some? ==> |r.value| == SlotCount(reader)
    decreases msg, 5
  {
    if |msg| != SlotCount(writer) then None
    else match DeliverFrom(reader, writer, State(base, {}), msg, 0)
      case None => None
      case Some(st) => if RequiredSeen(reader, st.seen) then Some(st.msg) else None
  }

  // ----- the wire carries out the delivery

  /** A sendable item: it fits the writer's cell and its length prefixes fit. */
  predicate Sendable(w: Field, item: Item) {
    WellFormedField(w) && FitsItem(w, item) && ItemLengthsBelow(w, item, TWO_32)
  }

  lemma ContentIsShort(w: Field, item: Item)
    requires Sendable(w, item) && !Packable(w.ltype)
    ensures ContentOf(w, item).Some? && |ContentOf(w, item).value| < TWO_32
    ensures EncodeItem(w, item) == Some(Delimit(ContentOf(w, item).value))
  {
    FitsEncodesItem(w, item);
  }

  lemma {:induction false} ItemArrives(r: Field, w: Field, prior: Item, item: Item, tail: seq<byte>)
    requires Compatible(r, w) && Sendable(w, item) && EncodeItem(w, item).Some?
    ensures ReadItem(r, prior, EncodeItem(w, item).value + tail) == Arrives(DeliverItem(r, w, prior, item), tail)
    decreases item, 0
  {
    if Packable(w.ltype) {
      ScalarArrives(r, w, item.v, tail);
    } else {
      ContentIsShort(w, item);
      TakeDelimit(ContentOf(w, item).value, tail);
      if w.ltype.LSubmessage? {
        MessageDelivered(r.ltype.fields, w.ltype.fields, BaseOf(r.ltype.fields, prior), item.slots);
      }
    }
  }

  lemma FieldFromItem(r: Field, slot: Slot, wire: nat, s: seq<byte>, item: Option<Item>, tail: seq<byte>)
    requires !(wire == WT_STRING && Packable(r.ltype))
    requires ReadItem(r, PriorOf(r, slot), s) == Arrives(item, tail)
    ensures ReadField(r, slot, wire, s) == Arrives(Place(r, slot, item), tail)
  {
  }

  /** One record, known to the reader. */
  lemma {:induction false} RecordArrives(r: Field, w: Field, slot: Slot, item: Item, tail: seq<byte>)
    requires Compatible(r, w) && Sendable(w, item) && EncodeItem(w, item).Some?
    ensures ReadField(r, slot, WireType(w.ltype), EncodeItem(w, item).value + tail)
         == Arrives(DeliverRecord(r, w, slot, item), tail)
    decreases item, 1
  {
    var prior := PriorOf(r, slot);
    var d := DeliverItem(r, w, prior, item);
    ItemArrives(r, w, prior, item, tail);
    assert !(WireType(w.ltype) == WT_STRING && Packable(r.ltype));
    FieldFromItem(r, slot, WireType(w.ltype), EncodeItem(w, item).value + tail, d, tail);
  }

  /** The record loop after `st` has been reached, or the failure it reports. */
  function Resume(reader: seq<Field>, st: Option<State>, tail: seq<byte>): Loop
    requires st.Some? ==> |st.value.msg| == SlotCount(reader)
  {
    match st
    case None => Failed
    case Some(s) => RunLoop(reader, s.msg, s.seen, tail)
  }

  /** The reader's state after a record that entry k accepted into `slot`. */
  function Store(reader: seq<Field>, st: State, k: nat, slot: Option<Slot>): (r: Option<State>)
    requires k < |reader| && |st.msg| == SlotCount(reader)
    ensures r.Some? ==> |r.value.msg| == SlotCount(reader)
  {
    SlotMonotone(reader, k, k);
    match slot
    case None => None
    case Some(s) => Some(State(st.msg[SlotOf(reader, k) := s], st.seen + {k}))
  }

  function SlotAt(reader: seq<Field>, st: State, k: nat): Slot
    requires k < |reader| && |st.msg| == SlotCount(reader)
  {
    SlotMonotone(reader, k, k);
    st.msg[SlotOf(reader, k)]
  }

  lemma {:induction false} RecordStep(reader: seq<Field>, st: State, w: Field, item: Item, tail: seq<byte>)
    requires |st.msg| == SlotCount(reader)
    requires Find(reader, w.tag).Some? ==> Compatible(reader[Find(reader, w.tag).value], w)
    requires Sendable(w, item) && EncodeRecord(w, item).Some?
    ensures RunLoop(reader, st.msg, st.seen, EncodeRecord(w, item).value + tail) ==
            match Find(reader, w.tag)
            case None => RunLoop(reader, st.msg, st.seen, tail)
            case Some(k) =>
              Resume(reader, Store(reader, st, k, DeliverRecord(reader[k], w, SlotAt(reader, st, k), item)), tail)
    decreases item, 2
  {
    var body := EncodeItem(w, item).value;
    assert EncodeRecord(w, item).value + tail == TagBytes(WireType(w.ltype), w.tag) + (body + tail);
    LoopStep(reader, st.msg, st.seen, WireType(w.ltype), w.tag, body + tail);
    var found := Find(reader, w.tag);
    if found.None? {
      if !Packable(w.ltype) { ContentIsShort(w, item); }
      SkipItem(w, item, tail);
    } else {
      RecordArrives(reader[found.value], w, SlotAt(reader, st, found.value), item, tail);
    }
  }

  /** An unpacked array, item by item. */
  lemma {:induction false} RecordsStep(reader: seq<Field>, st: State, w: Field, items: seq<Item>, tail: seq<byte>)
    requires |st.msg| == SlotCount(reader)
    requires Find(reader, w.tag).Some? ==> Compatible(reader[Find(reader, w.tag).value], w)
    requires items != [] && (forall x :: x in items ==> Sendable(w, x)) && EncodeRecords(w, items).Some?
    ensures RunLoop(reader, st.msg, st.seen, EncodeRecords(w, items).value + tail) ==
            match Find(reader, w.tag)
            case None => RunLoop(reader, st.msg, st.seen, tail)
            case Some(k) =>
              Resume(reader, Store(reader, st, k, DeliverRecords(reader[k], w, SlotAt(reader, st, k), items)), tail)
    decreases items, 3
  {
    var more := EncodeRecords(w, items[1..]).value;
    assert EncodeRecords(w, items).value + tail == EncodeRecord(w, items[0]).value + (more + tail);
    assert items[0] in items;
    RecordStep(reader, st, w, items[0], more + tail);
    var found := Find(reader, w.tag);
    if |items| == 1 {
      assert more + tail == tail;
    } else if found.None? {
      RecordsStep(reader, st, w, items[1..], tail);
    } else {
      var k := found.value;
      var first := DeliverRecord(reader[k], w, SlotAt(reader, st, k), items[0]);
      if first.Some? {
        var st' := Store(reader, st, k, first).value;
        RecordsStep(reader, st', w, items[1..], tail);
        StoreTwice(reader, st, k, first.value, DeliverRecords(reader[k], w, first.value, items[1..]));
      }
    }
  }

  lemma StoreTwice(reader: seq<Field>, st: State, k: nat, first: Slot, second: Option<Slot>)
    requires k < |reader| && |st.msg| == SlotCount(reader)
    ensures var st' := Store(reader, st, k, Some(first)).value;
            && SlotAt(reader, st', k) == first
            && Store(reader, st', k, second) == Store(reader, st, k, second)
  {
    SlotMonotone(reader, k, k);
    var s := SlotOf(reader, k);
    if second.Some? {
      assert st.msg[s := first][s := second.value] == st.msg[s := second.value];
      assert st.seen + {k} + {k} == st.seen + {k};
    }
  }

  /** A packed record, read by an entry that knows it. */
  lemma RunField(r: Field, w: Field, slot: Slot, items: seq<Item>, tail: seq<byte>)
    requires w.htype.Repeated? && WellFormedField(w) && Packable(w.ltype) && Compatible(r, w)
    requires EncodePayload(w, items).Some? && |EncodePayload(w, items).value| < TWO_32
    requires forall x :: x in items ==> x.Int?
    ensures ReadField(r, slot, WT_STRING, Delimit(EncodePayload(w, items).value) + tail) ==
            Arrives(DeliverField(r, w, slot, Arr(items)), tail)
  {
    TakeDelimit(EncodePayload(w, items).value, tail);
    RunArrives(r, w, ItemsOf(slot), items);
  }

  /** A packed array: one record. */
  lemma RunStep(reader: seq<Field>, st: State, w: Field, items: seq<Item>, tail: seq<byte>)
    requires |st.msg| == SlotCount(reader)
    requires w.htype.Repeated? && WellFormedField(w) && Packable(w.ltype)
    requires Find(reader, w.tag).Some? ==> Compatible(reader[Find(reader, w.tag).value], w)
    requires EncodePayload(w, items).Some? && |EncodePayload(w, items).value| < TWO_32
    requires forall x :: x in items ==> x.Int?
    ensures RunLoop(reader, st.msg, st.seen, TagBytes(WT_STRING, w.tag) + Delimit(EncodePayload(w, items).value) + tail) ==
            match Find(reader, w.tag)
            case None => RunLoop(reader, st.msg, st.seen, tail)
            case Some(k) =>
              Resume(reader, Store(reader, st, k, DeliverField(reader[k], w, SlotAt(reader, st, k), Arr(items))), tail)
  {
    var bs := EncodePayload(w, items).value;
    var after := Delimit(bs) + tail;
    assert TagBytes(WT_STRING, w.tag) + Delimit(bs) + tail == TagBytes(WT_STRING, w.tag) + after;
    LoopStep(reader, st.msg, st.seen, WT_STRING, w.tag, after);
    TakeDelimit(bs, tail);
    var found := Find(reader, w.tag);
    if found.Some? { RunField(reader[found.value], w, SlotAt(reader, st, found.value), items, tail); }
  }

  /** Everything entry w sends. */
  lemma {:induction false} FieldStep(reader: seq<Field>, st: State, w: Field, sent: Slot, tail: seq<byte>)
    requires |st.msg| == SlotCount(reader)
    requires Find(reader, w.tag).Some? ==> Compatible(reader[Find(reader, w.tag).value], w)
    requires WellFormedField(w) && FitsSlot(w, sent) && SlotLengthsBelow(w, sent, TWO_32)
    requires Present(w, sent) && EncodeField(w, sent).Some?
    ensures RunLoop(reader, st.msg, st.seen, EncodeField(w, sent).value + tail) ==
            match Find(reader, w.tag)
            case None => RunLoop(reader, st.msg, st.seen, tail)
            case Some(k) =>
              Resume(reader, Store(reader, st, k, DeliverField(reader[k], w, SlotAt(reader, st, k), sent)), tail)
    decreases sent, 4
  {
    if !sent.Arr? {
      RecordStep(reader, st, w, sent.item, tail);
    } else if Packable(w.ltype) {
      RunStep(reader, st, w, sent.items, tail);
    } else {
      RecordsStep(reader, st, w, sent.items, tail);
    }
  }

  lemma {:induction false} LoopArrives(reader: seq<Field>, writer: seq<Field>, st: State, msg: seq<Slot>, i: nat,
                                       tail: seq<byte>)
    requires CompatibleAll(reader, writer) && |st.msg| == SlotCount(reader)
    requires WellFormed(writer) && Fits(writer, msg) && Short(writer, msg)
    requires i <= |writer| && EncodeFrom(writer, msg, i).Some?
    ensures RunLoop(reader, st.msg, st.seen, EncodeFrom(writer, msg, i).value + tail)
         == Resume(reader, DeliverFrom(reader, writer, st, msg, i), tail)
    decreases msg, 5, |writer| - i
  {
    if i == |writer| {
      assert EncodeFrom(writer, msg, i).value + tail == tail;
    } else {
      FieldAt(writer, i);
      FitsAt(writer, msg, i);
      var w, sent := writer[i], msg[SlotOf(writer, i)];
      assert EntryLengthsBelow(writer, msg, i, TWO_32);
      assert w in writer;
      var more := EncodeFrom(writer, msg, i + 1).value;
      assert EncodeFrom(writer, msg, i).value + tail == EncodeField(w, sent).value + (more + tail);
      if !Present(w, sent) {
        assert EncodeField(w, sent).value + (more + tail) == more + tail;
        LoopArrives(reader, writer, st, msg, i + 1, tail);
      } else {
        FieldStep(reader, st, w, sent, more + tail);
        NextArrives(reader, writer, st, msg, i, tail);
      }
    }
  }

  lemma {:induction false} NextArrives(reader: seq<Field>, writer: seq<Field>, st: State, msg: seq<Slot>, i: nat,
                                       tail: seq<byte>)
    requires CompatibleAll(reader, writer) && |st.msg| == SlotCount(reader)
    requires WellFormed(writer) && Fits(writer, msg) && Short(writer, msg)
    requires i < |writer| && EncodeFrom(writer, msg, i + 1).Some?
    requires SlotOf(writer, i) < |msg| && Present(writer[i], msg[SlotOf(writer, i)])
    ensures var w, sent := writer[i], msg[SlotOf(writer, i)];
            var after := EncodeFrom(writer, msg, i + 1).value + tail;
            Resume(reader, DeliverFrom(reader, writer, st, msg, i), tail) ==
            match Find(reader, w.tag)
            case None => RunLoop(reader, st.msg, st.seen, after)
            case Some(k) =>
              assert w in writer;
              Resume(reader, Store(reader, st, k, DeliverField(reader[k], w, SlotAt(reader, st, k), sent)), after)
    decreases msg, 5, |writer| - i, 0
  {
    var w, sent := writer[i], msg[SlotOf(writer, i)];
    assert w in writer;
    var found := Find(reader, w.tag);
    if found.None? {
      LoopArrives(reader, writer, st, msg, i + 1, tail);
    } else {
      var next := Store(reader, st, found.value, DeliverField(reader[found.value], w, SlotAt(reader, st, found.value), sent));
      if next.Some? {
        LoopArrives(reader, writer, next.value, msg, i + 1, tail);
      }
    }
  }

  /** Encoding with the writer's descriptor and decoding with the reader's is delivery. */
  lemma {:induction false} MessageDelivered(reader: seq<Field>, writer: seq<Field>, base: seq<Slot>, msg: seq<Slot>)
    requires CompatibleAll(reader, writer) && |base| == SlotCount(reader)
    requires WellFormed(writer) && Fits(writer, msg) && Short(writer, msg)
    ensures Encode(writer, msg).Some?
    ensures DecodeNoInit(reader, base, Encode(writer, msg).value) == Arrives(Deliver(reader, writer, base, msg), [])
    decreases msg, 6
  {
    FitsEncodes(writer, msg);
    var bs := Encode(writer, msg).value;
    LoopArrives(reader, writer, State(base, {}), msg, 0, []);
    assert bs + [] == bs;
  }

  /**
   Encoding with the writer's descriptor and decoding with the reader's, on any struct contents, is delivery. The
   required counts of the reader are those the decoder's final check is defined for.
   */
  lemma MessageArrives(reader: seq<Field>, writer: seq<Field>, base: seq<Slot>, msg: seq<Slot>)
    requires CompatibleAll(reader, writer) && Decodable(reader) && |base| == SlotCount(reader)
    requires WellFormed(writer) && Fits(writer, msg) && Short(writer, msg)
    ensures Encode(writer, msg).Some?
    ensures DecodeNoInit(reader, base, Encode(writer, msg).value) == Arrives(Deliver(reader, writer, base, msg), [])
  {
    MessageDelivered(reader, writer, base, msg);
  }
}
