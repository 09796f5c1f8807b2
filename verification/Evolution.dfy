/**
 Schema evolution: a reader whose descriptor lacks some of the writer's entries, or adds others, at any
 depth, receives exactly the projection of the writer's message onto the entries both sides know.
 */
module Evolution {
  import opened Words
  import opened Descriptor
  import opened DecodeSpec
  import opened EncodeSpec
  import opened Records
  import opened Delivery
  import opened RequiredBits

  // ----- reader and writer versions of one message type

  /** The same entry in two versions: default and capacity may change, and a submessage may evolve itself. */
  predicate SameEntry(r: Field, w: Field)
    decreases w, 0
  {
    && r.htype == w.htype && Implicit(r) == Implicit(w)
    && (if w.ltype.LSubmessage? then r.ltype.LSubmessage? && Evolves(r.ltype.fields, w.ltype.fields)
        else r.ltype == w.ltype && (w.ltype.LBytes? || w.ltype.LString? || r.dataSize == w.dataSize))
  }

  /** Common tags mean the same entry. */
  predicate Evolves(reader: seq<Field>, writer: seq<Field>)
    decreases writer, 1
  {
    && DistinctTags(reader)
    && forall w :: w in writer ==> Find(reader, w.tag).Some? ==> SameEntry(reader[Find(reader, w.tag).value], w)
  }

  lemma {:induction false} SameIsCompatible(r: Field, w: Field)
    requires SameEntry(r, w)
    ensures Compatible(r, w)
    decreases w, 0
  {
    if w.ltype.LSubmessage? {
      EvolvesIsCompatible(r.ltype.fields, w.ltype.fields);
    }
  }

  lemma {:induction false} EvolvesIsCompatible(reader: seq<Field>, writer: seq<Field>)
    requires Evolves(reader, writer)
    ensures CompatibleAll(reader, writer)
    decreases writer, 1
  {
    forall w | w in writer && Find(reader, w.tag).Some?
      ensures Compatible(reader[Find(reader, w.tag).value], w)
    {
      SameIsCompatible(reader[Find(reader, w.tag).value], w);
    }
  }

  // ----- projection: what the reader gets to know

  /** Strings end at their first zero byte; submessages are projected in turn. */
  function ProjectItem(r: Field, w: Field, item: Item): Item
    decreases item, 0
  {
    match (r.ltype, w.ltype, item)
    case (LString, LString, Text(bs)) => Text(CString(bs, w.dataSize))
    case (LSubmessage(known), LSubmessage(sub), Msg(slots)) => Msg(Project(known, sub, slots))
    case _ => item
  }

  function ProjectItems(r: Field, w: Field, items: seq<Item>): (p: seq<Item>)
    ensures |p| == |items|
    decreases items, 1
  {
    if items == [] then [] else [ProjectItem(r, w, items[0])] + ProjectItems(r, w, items[1..])
  }

  function ProjectSlot(r: Field, w: Field, slot: Slot): Slot
    decreases slot, 2
  {
    match slot
    case Single(x) => Single(ProjectItem(r, w, x))
    case Opt(has, x) => Opt(has, ProjectItem(r, w, x))
    case Arr(items) => Arr(ProjectItems(r, w, items))
    case Union(which, x) => Union(which, ProjectItem(r, w, x))
  }

  /** The reader's defaults, overwritten by those of the writer's first n entries that are sent and known. */
  function ProjectUpTo(reader: seq<Field>, writer: seq<Field>, msg: seq<Slot>, n: nat): (p: seq<Slot>)
    requires n <= |writer| && |msg| == SlotCount(writer)
    ensures |p| == SlotCount(reader)
    decreases msg, 3, n
  {
    if n == 0 then Defaults(reader)
    else
      SlotMonotone(writer, n - 1, n - 1);
      var before := ProjectUpTo(reader, writer, msg, n - 1);
      var w, sent := writer[n - 1], msg[SlotOf(writer, n - 1)];
      match Find(reader, w.tag)
      case None => before
      case Some(k) =>
        SlotMonotone(reader, k, k);
        if Present(w, sent) then before[SlotOf(reader, k) := ProjectSlot(reader[k], w, sent)] else before
  }

  function Project(reader: seq<Field>, writer: seq<Field>, msg: seq<Slot>): (p: seq<Slot>)
    decreases msg, 4
  {
    if |msg| == SlotCount(writer) then ProjectUpTo(reader, writer, msg, |writer|) else []
  }

  // ----- what the reader has room for

  /** A string with its terminator and a byte string fit the reader's cell. */
  predicate AcceptsItem(r: Field, w: Field, item: Item)
    decreases item, 0
  {
    match (r.ltype, w.ltype, item)
    case (LString, LString, Text(bs)) => |CString(bs, w.dataSize)| < r.dataSize
    case (LBytes, LBytes, Blob(bs)) => |bs| + BYTES_HEADER <= r.dataSize
    case (LSubmessage(known), LSubmessage(sub), Msg(slots)) => Accepts(known, sub, slots)
    case _ => true
  }

  predicate AcceptsSlot(r: Field, w: Field, slot: Slot)
    decreases slot, 1
  {
    if slot.Arr? then |slot.items| <= r.arraySize && forall x :: x in slot.items ==> AcceptsItem(r, w, x)
    else AcceptsItem(r, w, slot.item)
  }

  predicate AcceptsFrom(reader: seq<Field>, writer: seq<Field>, msg: seq<Slot>, i: nat)
    requires i <= |writer| && |msg| == SlotCount(writer)
    decreases msg, 2, |writer| - i
  {
    if i == |writer| then true
    else
      SlotMonotone(writer, i, i);
      var w, sent := writer[i], msg[SlotOf(writer, i)];
      && AcceptsFrom(reader, writer, msg, i + 1)
      && (Present(w, sent) && Find(reader, w.tag).Some? ==>
            AcceptsSlot(reader[Find(reader, w.tag).value], w, sent))
  }

  /** What the reader requires, the writer knows. */
  predicate RequiredKnown(reader: seq<Field>, writer: seq<Field>) {
    forall r :: r in reader && r.htype.Required? ==> Find(writer, r.tag).Some?
  }

  /**
   The reader requires nothing the writer does not know, and everything sent to an entry it knows fits its
   capacities, at any depth.
   */
  predicate Accepts(reader: seq<Field>, writer: seq<Field>, msg: seq<Slot>)
    decreases msg, 3
  {
    |msg| == SlotCount(writer) ==> RequiredKnown(reader, writer) && AcceptsFrom(reader, writer, msg, 0)
  }

  // ----- delivery to an evolved reader is projection

  /** Memory that holds nothing yet. */
  predicate Fresh(r: Field, prior: Item) {
    prior == Unset || prior == DefaultItem(r)
  }

  /** What a delivery yields when it depends on terminators alone. */
  function When<T>(c: bool, x: T): Option<T> {
    if c then Some(x) else None
  }

  lemma {:induction false} ItemProjects(r: Field, w: Field, prior: Item, item: Item)
    requires SameEntry(r, w) && Compatible(r, w)
    requires WellFormedField(w) && FitsItem(w, item) && Fresh(r, prior)
    ensures DeliverItem(r, w, prior, item) == When(AcceptsItem(r, w, item), ProjectItem(r, w, item))
    decreases item, 0
  {
    match w.ltype
    case LSubmessage(sub) =>
      assert BaseOf(r.ltype.fields, prior) == Defaults(r.ltype.fields);
      MessageProjects(r.ltype.fields, sub, item.slots);
    case LBytes =>
    case LString =>
    case LFixedLengthBytes =>
      if item.bytes == [] { assert Zeros(r.dataSize) == []; }
    case LVarint | LUVarint | LSVarint | LFixed32 | LFixed64 =>
      assert DeliverScalar(r, w, item.v) == DeliverScalar(w, w, item.v);
      ScalarSurvives(w, item.v);
  }

  predicate AcceptsItems(r: Field, w: Field, items: seq<Item>) {
    forall x :: x in items ==> AcceptsItem(r, w, x)
  }

  lemma AllSplit(r: Field, w: Field, items: seq<Item>)
    requires items != []
    ensures AcceptsItems(r, w, items) <==> AcceptsItem(r, w, items[0]) && AcceptsItems(r, w, items[1..])
  {
    assert items == [items[0]] + items[1..];
  }

  lemma {:induction false} RecordProjects(r: Field, w: Field, have: seq<Item>, item: Item)
    requires SameEntry(r, w) && Compatible(r, w) && WellFormedField(w) && w.htype.Repeated?
    requires FitsItem(w, item)
    ensures DeliverRecord(r, w, Arr(have), item) ==
            When(|have| < r.arraySize && AcceptsItem(r, w, item), Arr(have + [ProjectItem(r, w, item)]))
    decreases item, 1
  {
    ItemProjects(r, w, Unset, item);
  }

  lemma {:induction false} RecordsProject(r: Field, w: Field, have: seq<Item>, items: seq<Item>)
    requires SameEntry(r, w) && Compatible(r, w) && WellFormedField(w) && w.htype.Repeated?
    requires (forall x :: x in items ==> FitsItem(w, x)) && |have| <= r.arraySize
    ensures DeliverRecords(r, w, Arr(have), items) ==
            When(|have| + |items| <= r.arraySize && AcceptsItems(r, w, items), Arr(have + ProjectItems(r, w, items)))
    decreases items, 1
  {
    if items == [] {
      assert have + ProjectItems(r, w, items) == have;
    } else {
      assert items[0] in items;
      RecordProjects(r, w, have, items[0]);
      AllSplit(r, w, items);
      if |have| < r.arraySize && AcceptsItem(r, w, items[0]) {
        var x := ProjectItem(r, w, items[0]);
        RecordsProject(r, w, have + [x], items[1..]);
        assert have + [x] + ProjectItems(r, w, items[1..]) == have + ProjectItems(r, w, items);
      }
    }
  }

  lemma {:induction false} ScalarsProject(r: Field, w: Field, items: seq<Item>)
    requires Packable(w.ltype)
    ensures ProjectItems(r, w, items) == items && AcceptsItems(r, w, items)
  {
    if items != [] {
      ScalarsProject(r, w, items[1..]);
      assert items == [items[0]] + items[1..];
    }
  }

  /** A run of scalars depends on the reader's capacity alone. */
  lemma {:induction false} SameRun(r: Field, w: Field, have: seq<Item>, items: seq<Item>)
    requires Packable(w.ltype) && SameEntry(r, w)
    ensures DeliverRun(r, w, have, items) == DeliverRun(r, r, have, items)
    decreases |items|
  {
    if items != [] && items[0].Int? {
      var d := DeliverScalar(r, w, items[0].v);
      assert d == DeliverScalar(r, r, items[0].v);
      if d.Some? { SameRun(r, w, have + [d.value], items[1..]); }
    }
  }

  lemma {:induction false} SlotProjects(r: Field, w: Field, slot: Slot, sent: Slot)
    requires SameEntry(r, w) && Compatible(r, w) && r.tag == w.tag
    requires WellFormedField(w) && FitsSlot(w, sent) && Present(w, sent)
    requires !r.htype.Oneof? ==> slot == DefaultSlot(r)
    ensures DeliverField(r, w, slot, sent) == When(AcceptsSlot(r, w, sent), ProjectSlot(r, w, sent))
    decreases sent, 2
  {
    if !sent.Arr? {
      ItemProjects(r, w, PriorOf(r, slot), sent.item);
    } else if Packable(w.ltype) {
      SameRun(r, w, [], sent.items);
      RunSurvives(r, [], sent.items);
      ScalarsProject(r, w, sent.items);
      assert [] + sent.items == sent.items;
    } else {
      RecordsProject(r, w, [], sent.items);
      assert [] + ProjectItems(r, w, sent.items) == ProjectItems(r, w, sent.items);
    }
  }

  /** An entry outside unions shares its slot with no other entry. */
  lemma OtherSlot(fields: seq<Field>, k: nat, j: nat)
    requires k < |fields| && j < |fields| && k != j && !fields[k].htype.Oneof?
    ensures SlotOf(fields, k) != SlotOf(fields, j)
  {
    if SlotOf(fields, k) == SlotOf(fields, j) {
      if k < j { SharedSlot(fields, k, j); } else { SharedSlot(fields, j, k); }
    }
  }

  /** Writer entry j is sent, known to the reader, and lands in the reader's slot s. */
  predicate Writes(reader: seq<Field>, writer: seq<Field>, msg: seq<Slot>, j: nat, s: nat)
    requires j < |writer| && |msg| == SlotCount(writer)
  {
    SlotMonotone(writer, j, j);
    && Present(writer[j], msg[SlotOf(writer, j)])
    && Find(reader, writer[j].tag).Some?
    && SlotOf(reader, Find(reader, writer[j].tag).value) == s
  }

  /** A reader slot nothing was written to holds its entry's default. */
  lemma {:induction false} ProjectNone(reader: seq<Field>, writer: seq<Field>, msg: seq<Slot>, n: nat, k: nat)
    requires n <= |writer| && |msg| == SlotCount(writer) && k < |reader|
    requires forall j :: 0 <= j < n ==> !Writes(reader, writer, msg, j, SlotOf(reader, k))
    ensures SlotOf(reader, k) < SlotCount(reader)
    ensures ProjectUpTo(reader, writer, msg, n)[SlotOf(reader, k)] == DefaultSlot(reader[k])
    decreases n
  {
    SlotMonotone(reader, k, k);
    if n == 0 {
      DefaultsAt(reader, k);
    } else {
      ProjectNone(reader, writer, msg, n - 1, k);
      assert !Writes(reader, writer, msg, n - 1, SlotOf(reader, k));
    }
  }

  /** A reader slot holds the projection of the last writer entry that landed in it. */
  lemma {:induction false} ProjectLast(reader: seq<Field>, writer: seq<Field>, msg: seq<Slot>, n: nat, j: nat, k: nat)
    requires j < n <= |writer| && |msg| == SlotCount(writer)
    requires Find(reader, writer[j].tag) == Some(k) && Writes(reader, writer, msg, j, SlotOf(reader, k))
    requires forall i :: j < i < n ==> !Writes(reader, writer, msg, i, SlotOf(reader, k))
    ensures SlotOf(reader, k) < SlotCount(reader) && SlotOf(writer, j) < |msg|
    ensures ProjectUpTo(reader, writer, msg, n)[SlotOf(reader, k)]
         == ProjectSlot(reader[k], writer[j], msg[SlotOf(writer, j)])
    decreases n
  {
    SlotMonotone(reader, k, k);
    SlotMonotone(writer, j, j);
    if j < n - 1 {
      ProjectLast(reader, writer, msg, n - 1, j, k);
      assert !Writes(reader, writer, msg, n - 1, SlotOf(reader, k));
    }
  }

  /** Before its own turn, nothing has landed in the slot of an entry outside unions; nor does anything after it. */
  lemma OnlyOwnTag(reader: seq<Field>, writer: seq<Field>, msg: seq<Slot>, i: nat, k: nat)
    requires i < |writer| && |msg| == SlotCount(writer) && k < |reader| && !reader[k].htype.Oneof?
    requires writer[i].tag != reader[k].tag
    ensures !Writes(reader, writer, msg, i, SlotOf(reader, k))
  {
    var found := Find(reader, writer[i].tag);
    if found.Some? { OtherSlot(reader, k, found.value); }
  }

  function SeenUpTo(reader: seq<Field>, writer: seq<Field>, msg: seq<Slot>, n: nat): (seen: set<nat>)
    requires n <= |writer| && |msg| == SlotCount(writer)
    ensures forall j :: 0 <= j < n && writer[j].htype.Required? && Find(reader, writer[j].tag).Some? ==>
              Find(reader, writer[j].tag).value in seen
    ensures forall k :: k in seen ==> k < |reader| && Find(writer, reader[k].tag).Some?
  {
    if n == 0 then {}
    else
      SlotMonotone(writer, n - 1, n - 1);
      var before := SeenUpTo(reader, writer, msg, n - 1);
      var found := Find(reader, writer[n - 1].tag);
      if found.Some? && Present(writer[n - 1], msg[SlotOf(writer, n - 1)]) then before + {found.value} else before
  }

  function StateUpTo(reader: seq<Field>, writer: seq<Field>, msg: seq<Slot>, n: nat): (st: State)
    requires n <= |writer| && |msg| == SlotCount(writer)
    ensures |st.msg| == SlotCount(reader)
  {
    State(ProjectUpTo(reader, writer, msg, n), SeenUpTo(reader, writer, msg, n))
  }

  /** The delivery of entry i moves the reader from the i-th projected state to the next. */
  lemma {:induction false} EntryProjects(reader: seq<Field>, writer: seq<Field>, msg: seq<Slot>, i: nat, k: nat)
    requires Evolves(reader, writer) && CompatibleAll(reader, writer)
    requires WellFormed(writer) && Fits(writer, msg) && i < |writer|
    requires SlotOf(writer, i) < |msg| && Present(writer[i], msg[SlotOf(writer, i)])
    requires Find(reader, writer[i].tag) == Some(k)
    requires SlotOf(reader, k) < SlotCount(reader)
    ensures Compatible(reader[k], writer[i])
    ensures var sent := msg[SlotOf(writer, i)];
            DeliverField(reader[k], writer[i], ProjectUpTo(reader, writer, msg, i)[SlotOf(reader, k)], sent) ==
            When(AcceptsSlot(reader[k], writer[i], sent), ProjectSlot(reader[k], writer[i], sent))
    decreases msg, 2
  {
    FieldAt(writer, i);
    FitsAt(writer, msg, i);
    assert writer[i] in writer;
    if !reader[k].htype.Oneof? {
      forall j | 0 <= j < i ensures !Writes(reader, writer, msg, j, SlotOf(reader, k)) {
        OnlyOwnTag(reader, writer, msg, j, k);
      }
      ProjectNone(reader, writer, msg, i, k);
    }
    SlotProjects(reader[k], writer[i], ProjectUpTo(reader, writer, msg, i)[SlotOf(reader, k)], msg[SlotOf(writer, i)]);
  }

  /** What entry i adds to the projected state. */
  lemma {:induction false} NextState(reader: seq<Field>, writer: seq<Field>, msg: seq<Slot>, i: nat)
    requires i < |writer| && |msg| == SlotCount(writer) && SlotOf(writer, i) < |msg|
    ensures var w, sent, found := writer[i], msg[SlotOf(writer, i)], Find(reader, writer[i].tag);
            var st, next := StateUpTo(reader, writer, msg, i), StateUpTo(reader, writer, msg, i + 1);
            if found.None? || !Present(w, sent) then next == st
            else
              && SlotOf(reader, found.value) < SlotCount(reader)
              && next == State(st.msg[SlotOf(reader, found.value) := ProjectSlot(reader[found.value], w, sent)],
                               st.seen + {found.value})
  {
    var found := Find(reader, writer[i].tag);
    if found.Some? { SlotMonotone(reader, found.value, found.value); }
  }

  /** The reader takes entry i if it is sent one it knows. */
  predicate AcceptsEntry(reader: seq<Field>, writer: seq<Field>, msg: seq<Slot>, i: nat)
    requires i < |writer| && SlotOf(writer, i) < |msg|
  {
    var w, sent := writer[i], msg[SlotOf(writer, i)];
    Present(w, sent) && Find(reader, w.tag).Some? ==> AcceptsSlot(reader[Find(reader, w.tag).value], w, sent)
  }

  /** How the delivery goes on from the i-th projected state. */
  function FromHere(reader: seq<Field>, writer: seq<Field>, msg: seq<Slot>, i: nat): Option<State>
    requires CompatibleAll(reader, writer) && |msg| == SlotCount(writer) && i <= |writer|
  {
    DeliverFrom(reader, writer, StateUpTo(reader, writer, msg, i), msg, i)
  }

  /** Delivering entry i moves from the i-th projected state to the next, or fails. */
  lemma {:induction false} DeliverNext(reader: seq<Field>, writer: seq<Field>, msg: seq<Slot>, i: nat)
    requires Evolves(reader, writer) && CompatibleAll(reader, writer)
    requires WellFormed(writer) && Fits(writer, msg) && i < |writer| && SlotOf(writer, i) < |msg|
    ensures FromHere(reader, writer, msg, i) ==
            if AcceptsEntry(reader, writer, msg, i) then FromHere(reader, writer, msg, i + 1) else None
    decreases msg, 3, 0
  {
    NextState(reader, writer, msg, i);
    var found := Find(reader, writer[i].tag);
    if found.Some? && Present(writer[i], msg[SlotOf(writer, i)]) {
      EntryProjects(reader, writer, msg, i, found.value);
      DeliverSent(reader, writer, StateUpTo(reader, writer, msg, i), msg, i, found.value);
    }
  }

  /** One step of the delivery, for an entry that is sent and known. */
  lemma {:induction false} DeliverSent(reader: seq<Field>, writer: seq<Field>, st: State, msg: seq<Slot>, i: nat, k: nat)
    requires CompatibleAll(reader, writer) && |st.msg| == SlotCount(reader) && |msg| == SlotCount(writer) && i < |writer|
    requires SlotOf(writer, i) < |msg| && Present(writer[i], msg[SlotOf(writer, i)]) && Find(reader, writer[i].tag) == Some(k)
    requires SlotOf(reader, k) < |st.msg| && Compatible(reader[k], writer[i])
    ensures DeliverFrom(reader, writer, st, msg, i) ==
            match DeliverField(reader[k], writer[i], st.msg[SlotOf(reader, k)], msg[SlotOf(writer, i)])
            case None => None
            case Some(slot) =>
              DeliverFrom(reader, writer, State(st.msg[SlotOf(reader, k) := slot], st.seen + {k}), msg, i + 1)
  {
  }

  lemma AcceptsNext(reader: seq<Field>, writer: seq<Field>, msg: seq<Slot>, i: nat)
    requires i < |writer| && |msg| == SlotCount(writer) && SlotOf(writer, i) < |msg|
    ensures AcceptsFrom(reader, writer, msg, i) <==>
            AcceptsFrom(reader, writer, msg, i + 1) && AcceptsEntry(reader, writer, msg, i)
  {
  }

  lemma {:induction false} FromProjects(reader: seq<Field>, writer: seq<Field>, msg: seq<Slot>, i: nat)
    requires Evolves(reader, writer) && CompatibleAll(reader, writer)
    requires WellFormed(writer) && Fits(writer, msg) && i <= |writer|
    ensures FromHere(reader, writer, msg, i) ==
            When(AcceptsFrom(reader, writer, msg, i), StateUpTo(reader, writer, msg, |writer|))
    decreases msg, 3, |writer| - i
  {
    if i < |writer| {
      SlotMonotone(writer, i, i);
      FromProjects(reader, writer, msg, i + 1);
      DeliverNext(reader, writer, msg, i);
      AcceptsNext(reader, writer, msg, i);
    }
  }

  lemma {:induction false} MessageProjects(reader: seq<Field>, writer: seq<Field>, msg: seq<Slot>)
    requires Evolves(reader, writer) && CompatibleAll(reader, writer)
    requires WellFormed(writer) && Fits(writer, msg)
    ensures Deliver(reader, writer, Defaults(reader), msg) ==
            When(Accepts(reader, writer, msg), Project(reader, writer, msg))
    decreases msg, 4
  {
    var st := StateUpTo(reader, writer, msg, |writer|);
    FromProjects(reader, writer, msg, 0);
    if RequiredKnown(reader, writer) {
      forall k | 0 <= k < |reader| && reader[k].htype.Required? ensures k in st.seen {
        assert reader[k] in reader;
        FindIs(reader, k);
        var j := Find(writer, reader[k].tag).value;
        assert writer[j] in writer;
      }
    } else {
      var r :| r in reader && r.htype.Required? && Find(writer, r.tag).None?;
      var k :| 0 <= k < |reader| && reader[k] == r;
      assert k !in st.seen;
    }
  }

  /**
   Decoding a message with another version of its descriptor succeeds exactly when the reader requires nothing
   unknown to the writer and has room for what it is sent, and yields the projection: unknown records are skipped
   by exactly their length, entries the writer did not send stay at the reader's defaults.
   */
  lemma DecodeProjects(reader: seq<Field>, writer: seq<Field>, msg: seq<Slot>)
    requires Evolves(reader, writer) && Decodable(reader)
    requires WellFormed(writer) && Fits(writer, msg) && Short(writer, msg)
    ensures Encode(writer, msg).Some?
    ensures Decode(reader, Encode(writer, msg).value) ==
            if Accepts(reader, writer, msg) then Done(Project(reader, writer, msg), []) else Fail
  {
    EvolvesIsCompatible(reader, writer);
    MessageArrives(reader, writer, Defaults(reader), msg);
    MessageProjects(reader, writer, msg);
  }

  /** The projection entry by entry: outside unions, the sender's slot if it was sent, otherwise the reader's default. */
  lemma ProjectionOfEntry(reader: seq<Field>, writer: seq<Field>, msg: seq<Slot>, k: nat)
    requires Evolves(reader, writer) && WellFormed(writer) && |msg| == SlotCount(writer)
    requires k < |reader| && !reader[k].htype.Oneof?
    ensures SlotOf(reader, k) < SlotCount(reader)
    ensures var p := Project(reader, writer, msg)[SlotOf(reader, k)];
            match Find(writer, reader[k].tag)
            case None => p == DefaultSlot(reader[k])
            case Some(j) =>
              && SlotOf(writer, j) < |msg|
              && var sent := msg[SlotOf(writer, j)];
                 p == if Present(writer[j], sent) then ProjectSlot(reader[k], writer[j], sent) else DefaultSlot(reader[k])
  {
    SlotMonotone(reader, k, k);
    FindIs(reader, k);
    var s := SlotOf(reader, k);
    var found := Find(writer, reader[k].tag);
    forall i | 0 <= i < |writer| && found != Some(i) ensures !Writes(reader, writer, msg, i, s) {
      if writer[i].tag == reader[k].tag { FindIs(writer, i); }
      OnlyOwnTag(reader, writer, msg, i, k);
    }
    if found.Some? && Writes(reader, writer, msg, found.value, s) {
      ProjectLast(reader, writer, msg, |writer|, found.value, k);
    } else {
      if found.Some? { SlotMonotone(writer, found.value, found.value); }
      ProjectNone(reader, writer, msg, |writer|, k);
    }
  }

  /** A reader that knows none of the entries of a union the writer set sees that union empty. */
  lemma ProjectionOfUnion(reader: seq<Field>, writer: seq<Field>, msg: seq<Slot>, k: nat)
    requires |msg| == SlotCount(writer) && k < |reader| && reader[k].htype.Oneof?
    requires forall i :: 0 <= i < |writer| ==> !Writes(reader, writer, msg, i, SlotOf(reader, k))
    ensures SlotOf(reader, k) < SlotCount(reader)
    ensures Project(reader, writer, msg)[SlotOf(reader, k)] == Union(0, Unset)
  {
    ProjectNone(reader, writer, msg, |writer|, k);
  }
}
