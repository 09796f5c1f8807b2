/** Packed and unpacked encodings of one array are interchangeable, in any mixture. */
module PackedRuns {
  import opened Words
  import opened Descriptor
  import opened DecodeSpec
  import opened EncodeSpec
  import opened Records
  import opened Delivery

  /** A piece of an array on the wire: a packed run, possibly empty, or a single tagged item. */
  datatype Chunk = Run(items: seq<Item>) | One(item: Item)

  function ChunkItems(c: Chunk): seq<Item> {
    match c
    case Run(items) => items
    case One(item) => [item]
  }

  function Flatten(chunks: seq<Chunk>): seq<Item> {
    if chunks == [] then [] else ChunkItems(chunks[0]) + Flatten(chunks[1..])
  }

  /** The items fit the cell, and a run's length prefix fits the reader's 32-bit varint. */
  predicate ChunkOk(f: Field, c: Chunk)
    requires Packable(f.ltype)
  {
    && (forall x :: x in ChunkItems(c) ==> FitsItem(f, x))
    && match c
       case Run(items) => EncodePayload(f, items).Some? && |EncodePayload(f, items).value| < TWO_32
       case One(item) => EncodeRecord(f, item).Some?
  }

  function ChunkBytes(f: Field, c: Chunk): seq<byte>
    requires Packable(f.ltype) && ChunkOk(f, c)
  {
    match c
    case Run(items) => TagBytes(WT_STRING, f.tag) + Delimit(EncodePayload(f, items).value)
    case One(item) => EncodeRecord(f, item).value
  }

  function WireBytes(f: Field, chunks: seq<Chunk>): seq<byte>
    requires Packable(f.ltype) && forall c :: c in chunks ==> ChunkOk(f, c)
  {
    if chunks == [] then [] else ChunkBytes(f, chunks[0]) + WireBytes(f, chunks[1..])
  }

  predicate ArrayEntry(fields: seq<Field>, k: nat) {
    WellFormed(fields) && k < |fields| && fields[k].htype.Repeated? && Packable(fields[k].ltype)
  }

  /** The loop after appending items to entry k's array, which holds `have`; it fails when they do not fit. */
  function Appended(fields: seq<Field>, k: nat, st: State, have: seq<Item>, items: seq<Item>, tail: seq<byte>): Loop
    requires k < |fields| && |st.msg| == SlotCount(fields)
  {
    if |have| + |items| <= fields[k].arraySize
    then Resume(fields, Store(fields, st, k, Some(Arr(have + items))), tail) else Failed
  }

  lemma AppendedTwice(fields: seq<Field>, k: nat, st: State, have: seq<Item>, a: seq<Item>, b: seq<Item>, tail: seq<byte>)
    requires k < |fields| && |st.msg| == SlotCount(fields)
    ensures var st' := Store(fields, st, k, Some(Arr(have + a))).value;
            && SlotAt(fields, st', k) == Arr(have + a)
            && Appended(fields, k, st', have + a, b, tail) == Appended(fields, k, st, have, a + b, tail)
  {
    assert have + a + b == have + (a + b);
    StoreTwice(fields, st, k, Arr(have + a), Some(Arr(have + (a + b))));
  }

  /** One chunk appends its items. */
  lemma ChunkStep(fields: seq<Field>, k: nat, st: State, have: seq<Item>, c: Chunk, tail: seq<byte>)
    requires ArrayEntry(fields, k) && |st.msg| == SlotCount(fields)
    requires SlotAt(fields, st, k) == Arr(have) && |have| <= fields[k].arraySize
    requires ChunkOk(fields[k], c)
    ensures RunLoop(fields, st.msg, st.seen, ChunkBytes(fields[k], c) + tail)
         == Appended(fields, k, st, have, ChunkItems(c), tail)
  {
    var f := fields[k];
    FieldAt(fields, k);
    FindIs(fields, k);
    match c
    case Run(items) =>
      forall x | x in items ensures x.Int? {
        assert x in ChunkItems(c);
      }
      RunStep(fields, st, f, items, tail);
      RunSurvives(f, have, items);
    case One(item) =>
      assert item in ChunkItems(c);
      RecordStep(fields, st, f, item, tail);
      ScalarSurvives(f, item.v);
  }

  /** Any mixture of runs and single items decodes to the array's old items followed by all new ones, if they fit. */
  lemma {:induction false} ChunksDecode(fields: seq<Field>, k: nat, st: State, have: seq<Item>, chunks: seq<Chunk>,
                                        tail: seq<byte>)
    requires ArrayEntry(fields, k) && |st.msg| == SlotCount(fields)
    requires SlotAt(fields, st, k) == Arr(have) && |have| <= fields[k].arraySize
    requires chunks != [] && forall c :: c in chunks ==> ChunkOk(fields[k], c)
    ensures RunLoop(fields, st.msg, st.seen, WireBytes(fields[k], chunks) + tail)
         == Appended(fields, k, st, have, Flatten(chunks), tail)
    decreases |chunks|
  {
    var f, c, more := fields[k], chunks[0], chunks[1..];
    assert c in chunks;
    assert WireBytes(f, chunks) + tail == ChunkBytes(f, c) + (WireBytes(f, more) + tail);
    ChunkStep(fields, k, st, have, c, WireBytes(f, more) + tail);
    if more == [] {
      assert WireBytes(f, more) + tail == tail;
      assert Flatten(chunks) == ChunkItems(c);
    } else if |have + ChunkItems(c)| <= f.arraySize {
      var now := have + ChunkItems(c);
      AppendedTwice(fields, k, st, have, ChunkItems(c), Flatten(more), tail);
      ChunksDecode(fields, k, Store(fields, st, k, Some(Arr(now))).value, now, more, tail);
    }
  }

  /** All ways of splitting one list of values into chunks decode alike: same array, or all fail. */
  lemma SplitsAgree(fields: seq<Field>, k: nat, msg: seq<Slot>, a: seq<Chunk>, b: seq<Chunk>, tail: seq<byte>)
    requires ArrayEntry(fields, k) && Fits(fields, msg)
    requires a != [] && b != [] && Flatten(a) == Flatten(b)
    requires (forall c :: c in a ==> ChunkOk(fields[k], c)) && (forall c :: c in b ==> ChunkOk(fields[k], c))
    ensures DecodeNoInit(fields, msg, WireBytes(fields[k], a) + tail)
         == DecodeNoInit(fields, msg, WireBytes(fields[k], b) + tail)
  {
    FitsAt(fields, msg, k);
    var st := State(msg, {});
    var have := SlotAt(fields, st, k).items;
    ChunksDecode(fields, k, st, have, a, tail);
    ChunksDecode(fields, k, st, have, b, tail);
  }
}
