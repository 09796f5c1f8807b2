/** Which truncations of an encoded message the decoder accepts. */
module Truncation {
  import opened Words
  import opened Varint
  import opened Descriptor
  import opened DecodeSpec
  import opened EncodeSpec
  import opened Records
  import opened Delivery
  import opened Evolution
  import opened RoundTrip
  import opened RequiredBits

  // ----- a message is a sequence of records

  /** A record of entry k: wire type and payload behind the tag. */
  datatype Rec = Rec(k: nat, wire: nat, payload: seq<byte>)

  /** What the payload stores in entry f, when nothing follows it. */
  function Effect(f: Field, r: Rec, slot: Slot): Option<Slot> {
    match ReadField(f, slot, r.wire, r.payload)
    case Fail => None
    case Done(next, _) => Some(next)
  }

  /** Reading the payload does not depend on what follows. */
  ghost predicate Whole(f: Field, r: Rec) {
    forall slot, tail :: ReadField(f, slot, r.wire, r.payload + tail) == Arrives(Effect(f, r, slot), tail)
  }

  /** No proper prefix of the payload can be read. */
  ghost predicate NoPrefix(f: Field, r: Rec) {
    forall slot, m :: 0 <= m < |r.payload| ==> ReadField(f, slot, r.wire, r.payload[..m]).Fail?
  }

  ghost predicate RecIn(fields: seq<Field>, r: Rec) {
    && r.k < |fields| && r.wire < 8 && 1 <= fields[r.k].tag < TAG_LIMIT
    && Find(fields, fields[r.k].tag) == Some(r.k) && SlotOf(fields, r.k) < SlotCount(fields)
    && Whole(fields[r.k], r) && NoPrefix(fields[r.k], r)
  }

  ghost predicate RecsOk(fields: seq<Field>, rs: seq<Rec>) {
    rs == [] || (RecIn(fields, rs[0]) && RecsOk(fields, rs[1..]))
  }

  function RecTag(fields: seq<Field>, r: Rec): seq<byte> {
    if r.k < |fields| then TagBytes(r.wire, fields[r.k].tag) else []
  }

  function RecBytes(fields: seq<Field>, r: Rec): seq<byte> {
    RecTag(fields, r) + r.payload
  }

  function Bytes(fields: seq<Field>, rs: seq<Rec>): seq<byte> {
    if rs == [] then [] else RecBytes(fields, rs[0]) + Bytes(fields, rs[1..])
  }

  function Single(k: nat, f: Field, item: Item): Rec {
    Rec(k, WireType(f.ltype), match EncodeItem(f, item) case None => [] case Some(bs) => bs)
  }

  function Singles(k: nat, f: Field, items: seq<Item>): (rs: seq<Rec>)
    ensures |rs| == |items|
  {
    if items == [] then [] else [Single(k, f, items[0])] + Singles(k, f, items[1..])
  }

  function Run(k: nat, f: Field, items: seq<Item>): Rec
    requires Packable(f.ltype)
  {
    Rec(k, WT_STRING, match EncodePayload(f, items) case None => [] case Some(bs) => Delimit(bs))
  }

  /** The records of entry k's slot. */
  function FieldRecs(k: nat, f: Field, slot: Slot): seq<Rec> {
    if !Present(f, slot) then []
    else if !slot.Arr? then [Single(k, f, slot.item)]
    else if Packable(f.ltype) then [Run(k, f, slot.items)]
    else Singles(k, f, slot.items)
  }

  function RecsFrom(fields: seq<Field>, msg: seq<Slot>, i: nat): seq<Rec>
    requires |msg| == SlotCount(fields) && i <= |fields|
    decreases |fields| - i
  {
    if i == |fields| then []
    else
      SlotMonotone(fields, i, i);
      FieldRecs(i, fields[i], msg[SlotOf(fields, i)]) + RecsFrom(fields, msg, i + 1)
  }

  // ----- records of a message are whole, and have no readable prefix

  /** All bytes of a varint but its last carry the continuation bit. */
  lemma {:induction false} EncodedContinues(v: nat, i: nat)
    requires i + 1 < |EncodeVarint(v)|
    ensures EncodeVarint(v)[i] >= 128
    decreases v
  {
    if i > 0 { EncodedContinues(v / 128, i - 1); }
  }

  /** A cut varint cannot be read. */
  lemma {:induction false} CutVarint(v: nat, m: nat, max: nat)
    requires m < |EncodeVarint(v)|
    ensures ReadVarint(EncodeVarint(v)[..m], max).Fail?
  {
    var s := EncodeVarint(v)[..m];
    forall i | 0 <= i < |s| && i < max ensures s[i] >= 128 {
      EncodedContinues(v, i);
    }
    ReadFails(s, max);
  }

  lemma {:induction false} CutDelimited(bs: seq<byte>, m: nat)
    requires |bs| < TWO_32 && m < |Delimit(bs)|
    ensures TakeDelimited(Delimit(bs)[..m]).Fail?
  {
    var prefix := EncodeVarint(|bs|);
    if m < |prefix| {
      assert Delimit(bs)[..m] == prefix[..m];
      CutVarint(|bs|, m, 5);
    } else {
      assert Delimit(bs)[..m] == prefix + bs[..m - |prefix|];
      RoundTrip32(|bs|, bs[..m - |prefix|]);
    }
  }

  lemma {:induction false} CutScalar(f: Field, v: int, m: nat)
    requires Packable(f.ltype) && EncodeScalar(f, v).Some? && m < |EncodeScalar(f, v).value|
    ensures ReadScalar(f, EncodeScalar(f, v).value[..m]).Fail?
  {
    if !f.ltype.LFixed32? && !f.ltype.LFixed64? {
      CutVarint(WireWord(f, v), m, 10);
    }
  }

  lemma {:induction false} CutItem(f: Field, prior: Item, item: Item, m: nat)
    requires Sendable(f, item) && EncodeItem(f, item).Some? && m < |EncodeItem(f, item).value|
    ensures ReadItem(f, prior, EncodeItem(f, item).value[..m]).Fail?
  {
    if Packable(f.ltype) {
      CutScalar(f, IntOf(item), m);
    } else {
      ContentIsShort(f, item);
      CutDelimited(ContentOf(f, item).value, m);
    }
  }

  lemma {:induction false} SingleWhole(k: nat, f: Field, item: Item)
    requires Sendable(f, item) && EncodeItem(f, item).Some? && Compatible(f, f)
    ensures Whole(f, Single(k, f, item)) && NoPrefix(f, Single(k, f, item))
  {
    var r := Single(k, f, item);
    forall slot, tail ensures ReadField(f, slot, r.wire, r.payload + tail) == Arrives(Effect(f, r, slot), tail) {
      RecordArrives(f, f, slot, item, tail);
      RecordArrives(f, f, slot, item, []);
      assert r.payload + [] == r.payload;
    }
    forall slot, m | 0 <= m < |r.payload| ensures ReadField(f, slot, r.wire, r.payload[..m]).Fail? {
      CutItem(f, PriorOf(f, slot), item, m);
    }
  }

  lemma {:induction false} RunWhole(k: nat, f: Field, items: seq<Item>)
    requires f.htype.Repeated? && Packable(f.ltype)
    requires EncodePayload(f, items).Some? && |EncodePayload(f, items).value| < TWO_32 && forall x :: x in items ==> x.Int?
    ensures Whole(f, Run(k, f, items)) && NoPrefix(f, Run(k, f, items))
  {
    var r, bs := Run(k, f, items), EncodePayload(f, items).value;
    forall slot, tail ensures ReadField(f, slot, r.wire, r.payload + tail) == Arrives(Effect(f, r, slot), tail) {
      TakeDelimit(bs, tail);
      TakeDelimit(bs, []);
      assert r.payload + [] == r.payload;
    }
    forall slot, m | 0 <= m < |r.payload| ensures ReadField(f, slot, r.wire, r.payload[..m]).Fail? {
      CutDelimited(bs, m);
    }
  }

  // ----- the records of a message are its encoding

  lemma {:induction false} BytesConcat(fields: seq<Field>, a: seq<Rec>, b: seq<Rec>)
    ensures Bytes(fields, a + b) == Bytes(fields, a) + Bytes(fields, b)
    decreases |a|
  {
    if a == [] {
      assert a + b == b;
    } else {
      assert (a + b)[1..] == a[1..] + b;
      BytesConcat(fields, a[1..], b);
      Associative(RecBytes(fields, a[0]), Bytes(fields, a[1..]), Bytes(fields, b));
    }
  }

  lemma {:induction false} RecsConcat(fields: seq<Field>, a: seq<Rec>, b: seq<Rec>)
    requires RecsOk(fields, a) && RecsOk(fields, b)
    ensures RecsOk(fields, a + b)
    decreases |a|
  {
    if a == [] {
      assert a + b == b;
    } else {
      assert (a + b)[1..] == a[1..] + b && (a + b)[0] == a[0];
      RecsConcat(fields, a[1..], b);
    }
  }

  lemma Associative(x: seq<byte>, y: seq<byte>, z: seq<byte>)
    ensures x + (y + z) == (x + y) + z
  {
  }

  /** An entry whose records the decoder finds. */
  ghost predicate EntryIn(fields: seq<Field>, k: nat)
    requires k < |fields|
  {
    && 1 <= fields[k].tag < TAG_LIMIT && Find(fields, fields[k].tag) == Some(k) && SlotOf(fields, k) < SlotCount(fields)
    && Compatible(fields[k], fields[k]) && WellFormedField(fields[k])
  }

  lemma {:induction false} SinglesBytes(fields: seq<Field>, k: nat, items: seq<Item>)
    requires k < |fields| && EntryIn(fields, k) && forall x :: x in items ==> Sendable(fields[k], x)
    requires EncodeRecords(fields[k], items).Some?
    ensures RecsOk(fields, Singles(k, fields[k], items))
    ensures Bytes(fields, Singles(k, fields[k], items)) == EncodeRecords(fields[k], items).value
    decreases |items|
  {
    if items != [] {
      assert items[0] in items;
      SingleWhole(k, fields[k], items[0]);
      SinglesBytes(fields, k, items[1..]);
      assert Singles(k, fields[k], items)[1..] == Singles(k, fields[k], items[1..]);
    }
  }

  lemma OneRecord(fields: seq<Field>, r: Rec)
    requires RecIn(fields, r)
    ensures RecsOk(fields, [r]) && Bytes(fields, [r]) == RecBytes(fields, r)
  {
    assert [r][1..] == [];
    assert RecBytes(fields, r) + [] == RecBytes(fields, r);
  }

  lemma {:induction false} FieldBytes(fields: seq<Field>, k: nat, slot: Slot)
    requires k < |fields| && EntryIn(fields, k) && FitsSlot(fields[k], slot) && SlotLengthsBelow(fields[k], slot, TWO_32)
    requires EncodeField(fields[k], slot).Some?
    ensures RecsOk(fields, FieldRecs(k, fields[k], slot))
    ensures Bytes(fields, FieldRecs(k, fields[k], slot)) == EncodeField(fields[k], slot).value
  {
    var f := fields[k];
    if Present(f, slot) {
      if !slot.Arr? {
        SingleWhole(k, f, slot.item);
        OneRecord(fields, Single(k, f, slot.item));
      } else if Packable(f.ltype) {
        RunWhole(k, f, slot.items);
        OneRecord(fields, Run(k, f, slot.items));
      } else {
        SinglesBytes(fields, k, slot.items);
      }
    }
  }

  /** Entry i's records are its encoding. */
  ghost predicate EntryDone(fields: seq<Field>, msg: seq<Slot>, i: nat)
    requires i < |fields|
  {
    && SlotOf(fields, i) < |msg|
    && RecsOk(fields, FieldRecs(i, fields[i], msg[SlotOf(fields, i)]))
    && EncodeField(fields[i], msg[SlotOf(fields, i)]) == Some(Bytes(fields, FieldRecs(i, fields[i], msg[SlotOf(fields, i)])))
  }

  /** The records from entry i on are its and the following entries' encoding. */
  ghost predicate RestDone(fields: seq<Field>, msg: seq<Slot>, i: nat)
    requires |msg| == SlotCount(fields) && i <= |fields|
  {
    RecsOk(fields, RecsFrom(fields, msg, i)) && EncodeFrom(fields, msg, i) == Some(Bytes(fields, RecsFrom(fields, msg, i)))
  }

  lemma {:induction false} EntryBytes(fields: seq<Field>, msg: seq<Slot>, i: nat)
    requires WellFormed(fields) && Fits(fields, msg) && Short(fields, msg) && i < |fields|
    ensures EntryDone(fields, msg, i)
  {
    SlotMonotone(fields, i, i);
    FieldAt(fields, i);
    FitsAt(fields, msg, i);
    FindIs(fields, i);
    SameAsSelf(fields[i]);
    SameIsCompatible(fields[i], fields[i]);
    assert EntryLengthsBelow(fields, msg, i, TWO_32);
    FitsEncodesSlot(fields[i], msg[SlotOf(fields, i)]);
    FieldBytes(fields, i, msg[SlotOf(fields, i)]);
  }

  lemma {:induction false} EntryThenRest(fields: seq<Field>, msg: seq<Slot>, i: nat)
    requires |msg| == SlotCount(fields) && i < |fields| && EntryDone(fields, msg, i) && RestDone(fields, msg, i + 1)
    ensures RestDone(fields, msg, i)
  {
    BytesConcat(fields, FieldRecs(i, fields[i], msg[SlotOf(fields, i)]), RecsFrom(fields, msg, i + 1));
    RecsConcat(fields, FieldRecs(i, fields[i], msg[SlotOf(fields, i)]), RecsFrom(fields, msg, i + 1));
  }

  ghost predicate EntriesDone(fields: seq<Field>, msg: seq<Slot>, i: nat)
    requires i <= |fields|
    decreases |fields| - i
  {
    i == |fields| || (EntryDone(fields, msg, i) && EntriesDone(fields, msg, i + 1))
  }

  lemma {:induction false} AllEntries(fields: seq<Field>, msg: seq<Slot>, i: nat)
    requires WellFormed(fields) && Fits(fields, msg) && Short(fields, msg) && i <= |fields|
    ensures EntriesDone(fields, msg, i)
    decreases |fields| - i
  {
    if i < |fields| {
      EntryBytes(fields, msg, i);
      AllEntries(fields, msg, i + 1);
    }
  }

  /** The records of a message, in a row, are its encoding. */
  lemma {:induction false} MessageBytes(fields: seq<Field>, msg: seq<Slot>, i: nat)
    requires |msg| == SlotCount(fields) && i <= |fields| && EntriesDone(fields, msg, i)
    ensures RestDone(fields, msg, i)
    decreases |fields| - i
  {
    if i < |fields| {
      MessageBytes(fields, msg, i + 1);
      EntryThenRest(fields, msg, i);
    }
  }

  // ----- the record loop on a cut sequence of records

  /** A cut tag counts as a normal end. */
  lemma {:induction false} CutTag(wire: nat, tag: nat, m: nat)
    requires wire < 8 && 1 <= tag < TAG_LIMIT && 0 < m < |TagBytes(wire, tag)|
    ensures ReadTag(TagBytes(wire, tag)[..m]).Eof?
  {
    CutVarint(tag * 8 + wire, m, 5);
    RoundTrip32(tag * 8 + wire, []);
  }

  /** The cut is at a record boundary or inside a tag. */
  predicate CleanCut(fields: seq<Field>, rs: seq<Rec>, n: nat) {
    if rs == [] then true
    else if n < |RecBytes(fields, rs[0])| then n < |RecTag(fields, rs[0])|
    else CleanCut(fields, rs[1..], n - |RecBytes(fields, rs[0])|)
  }

  /** The entries of the records that lie whole before the cut. */
  function WholeBefore(fields: seq<Field>, rs: seq<Rec>, n: nat): set<nat> {
    if rs == [] || n < |RecBytes(fields, rs[0])| then {}
    else {rs[0].k} + WholeBefore(fields, rs[1..], n - |RecBytes(fields, rs[0])|)
  }

  /** A prefix of a concatenation. */
  lemma PrefixOf(a: seq<byte>, b: seq<byte>, m: nat)
    requires m <= |a| + |b|
    ensures m <= |a| ==> (a + b)[..m] == a[..m]
    ensures m >= |a| ==> (a + b)[..m] == a + b[..m - |a|]
  {
  }

  /** One whole record at the front. */
  lemma {:induction false} RecLoop(fields: seq<Field>, msg: seq<Slot>, seen: set<nat>, r: Rec, tail: seq<byte>)
    requires |msg| == SlotCount(fields) && RecIn(fields, r)
    ensures RunLoop(fields, msg, seen, RecBytes(fields, r) + tail) ==
            match Effect(fields[r.k], r, msg[SlotOf(fields, r.k)])
            case None => Failed
            case Some(slot) => RunLoop(fields, msg[SlotOf(fields, r.k) := slot], seen + {r.k}, tail)
  {
    Associative(RecTag(fields, r), r.payload, tail);
    LoopStep(fields, msg, seen, r.wire, fields[r.k].tag, r.payload + tail);
  }

  /** A cut record at the end. */
  lemma {:induction false} CutRecord(fields: seq<Field>, msg: seq<Slot>, seen: set<nat>, r: Rec, m: nat)
    requires |msg| == SlotCount(fields) && RecIn(fields, r) && m < |RecBytes(fields, r)|
    ensures var l := RunLoop(fields, msg, seen, RecBytes(fields, r)[..m]);
            if m < |RecTag(fields, r)| then !l.Failed? && l.seen == seen else l.Failed?
  {
    var tag := RecTag(fields, r);
    PrefixOf(tag, r.payload, m);
    if m >= |tag| {
      LoopStep(fields, msg, seen, r.wire, fields[r.k].tag, r.payload[..m - |tag|]);
    } else if m > 0 {
      CutTag(r.wire, fields[r.k].tag, m);
    }
  }

  /** The outcome of the loop on the first n bytes: an error exactly at an unclean cut, otherwise the whole records are met. */
  ghost predicate CutOutcome(fields: seq<Field>, l: Loop, seen: set<nat>, rs: seq<Rec>, n: nat) {
    && (l.Failed? <==> !CleanCut(fields, rs, n))
    && (!l.Failed? ==> l.seen == seen + WholeBefore(fields, rs, n))
  }

  lemma {:induction false} LoopCut(fields: seq<Field>, msg: seq<Slot>, seen: set<nat>, rs: seq<Rec>, all: seq<byte>, n: nat)
    requires |msg| == SlotCount(fields) && RecsOk(fields, rs) && all == Bytes(fields, rs)
    requires n < |all| && !RunLoop(fields, msg, seen, all).Failed?
    ensures CutOutcome(fields, RunLoop(fields, msg, seen, all[..n]), seen, rs, n)
  {
    CutLoop(fields, msg, seen, rs, all, n, all[..n], RunLoop(fields, msg, seen, all), RunLoop(fields, msg, seen, all[..n]));
  }

  /** The same, with names for the two inputs and for how the loop ends on them. */
  lemma {:induction false} CutLoop(fields: seq<Field>, msg: seq<Slot>, seen: set<nat>, rs: seq<Rec>, all: seq<byte>, n: nat,
                                   s: seq<byte>, whole: Loop, cut: Loop)
    requires |msg| == SlotCount(fields) && RecsOk(fields, rs) && all == Bytes(fields, rs) && n < |all| && s == all[..n]
    requires whole == RunLoop(fields, msg, seen, all) && cut == RunLoop(fields, msg, seen, s) && !whole.Failed?
    ensures CutOutcome(fields, cut, seen, rs, n)
    decreases |rs|
  {
    var m := CutAt(fields, rs, n, s);
    if n < |RecBytes(fields, rs[0])| {
      CutRecord(fields, msg, seen, rs[0], n);
    } else {
      var rest := Bytes(fields, rs[1..]);
      var next := FirstWhole(fields, msg, seen, rs[0], rest, rest[..m]);
      CutLoop(fields, next, seen + {rs[0].k}, rs[1..], rest, m, rest[..m], whole, cut);
      OutcomeNext(fields, cut, seen, rs, m);
    }
  }

  /** Where the cut is: inside the first record, or m bytes behind it. */
  lemma {:induction false} CutAt(fields: seq<Field>, rs: seq<Rec>, n: nat, s: seq<byte>) returns (m: nat)
    requires RecsOk(fields, rs) && n < |Bytes(fields, rs)| && s == Bytes(fields, rs)[..n]
    ensures rs != [] && RecIn(fields, rs[0]) && RecsOk(fields, rs[1..])
    ensures Bytes(fields, rs) == RecBytes(fields, rs[0]) + Bytes(fields, rs[1..])
    ensures n < |RecBytes(fields, rs[0])| ==> s == RecBytes(fields, rs[0])[..n]
    ensures n >= |RecBytes(fields, rs[0])| ==>
              && n == |RecBytes(fields, rs[0])| + m && m < |Bytes(fields, rs[1..])|
              && s == RecBytes(fields, rs[0]) + Bytes(fields, rs[1..])[..m]
  {
    var first, rest := RecBytes(fields, rs[0]), Bytes(fields, rs[1..]);
    PrefixOf(first, rest, n);
    m := if n < |first| then 0 else n - |first|;
  }

  lemma {:induction false} OutcomeNext(fields: seq<Field>, l: Loop, seen: set<nat>, rs: seq<Rec>, m: nat)
    requires rs != [] && CutOutcome(fields, l, seen + {rs[0].k}, rs[1..], m)
    ensures CutOutcome(fields, l, seen, rs, |RecBytes(fields, rs[0])| + m)
  {
    var more := WholeBefore(fields, rs[1..], m);
    assert seen + {rs[0].k} + more == seen + ({rs[0].k} + more);
  }

  /** A whole record in front of two inputs leads to the same state. */
  lemma {:induction false} FirstWhole(fields: seq<Field>, msg: seq<Slot>, seen: set<nat>, r: Rec, a: seq<byte>, b: seq<byte>)
    returns (next: seq<Slot>)
    requires |msg| == SlotCount(fields) && RecIn(fields, r)
    requires !RunLoop(fields, msg, seen, RecBytes(fields, r) + a).Failed?
    ensures |next| == SlotCount(fields)
    ensures RunLoop(fields, msg, seen, RecBytes(fields, r) + a) == RunLoop(fields, next, seen + {r.k}, a)
    ensures RunLoop(fields, msg, seen, RecBytes(fields, r) + b) == RunLoop(fields, next, seen + {r.k}, b)
  {
    RecLoop(fields, msg, seen, r, a);
    RecLoop(fields, msg, seen, r, b);
    next := msg[SlotOf(fields, r.k) := Effect(fields[r.k], r, msg[SlotOf(fields, r.k)]).value];
  }

  // ----- truncated messages

  lemma {:induction false} DecodeDone(fields: seq<Field>, s: seq<byte>)
    ensures var l := RunLoop(fields, Defaults(fields), {}, s);
            Decode(fields, s).Done? <==> !l.Failed? && RequiredSeen(fields, l.seen)
  {
  }

  /** The whole message. */
  lemma {:induction false} MessageLoop(fields: seq<Field>, msg: seq<Slot>)
    requires WellFormed(fields) && Decodable(fields) && Fits(fields, msg) && Short(fields, msg) && Terminated(fields, msg)
    ensures RecsOk(fields, RecsFrom(fields, msg, 0)) && Encode(fields, msg) == Some(Bytes(fields, RecsFrom(fields, msg, 0)))
    ensures !RunLoop(fields, Defaults(fields), {}, Encode(fields, msg).value).Failed?
  {
    AllEntries(fields, msg, 0);
    MessageBytes(fields, msg, 0);
    DecodeAfterEncode(fields, msg);
    DecodeDone(fields, Encode(fields, msg).value);
  }

  /**
   A truncated message is accepted exactly if the cut lies between two of its records or inside the tag of one, and
   every required entry has its record before the cut.
   */
  lemma TruncatedIff(fields: seq<Field>, msg: seq<Slot>, n: nat)
    requires WellFormed(fields) && Decodable(fields) && Fits(fields, msg) && Short(fields, msg) && Terminated(fields, msg)
    requires Encode(fields, msg).Some? && n < |Encode(fields, msg).value|
    ensures var rs := RecsFrom(fields, msg, 0);
            && Bytes(fields, rs) == Encode(fields, msg).value
            && (Decode(fields, Encode(fields, msg).value[..n]).Done? <==>
                CleanCut(fields, rs, n) && RequiredSeen(fields, WholeBefore(fields, rs, n)))
  {
    var rs := RecsFrom(fields, msg, 0);
    MessageLoop(fields, msg);
    LoopCut(fields, Defaults(fields), {}, rs, Encode(fields, msg).value, n);
    DecodeDone(fields, Encode(fields, msg).value[..n]);
    assert {} + WholeBefore(fields, rs, n) == WholeBefore(fields, rs, n);
  }

  /** One accepted truncation: a field number from 16 on has a tag of two bytes, and an optional field may be missing. */
  lemma HalfTagAccepted()
    ensures var fields := [Field(16, LVarint, Optional, 4, -4, 4, 0, None)];
            Decode(fields, [0x80]) == Done(Defaults(fields), [])
  {
    var fields := [Field(16, LVarint, Optional, 4, -4, 4, 0, None)];
    var s: seq<byte> := [0x80];
    assert ReadVarint(s, 5).Fail?;
    assert ReadTag(s) == Eof([]);
    assert RunLoop(fields, Defaults(fields), {}, s) == Stopped(Defaults(fields), {}, []);
  }
}
