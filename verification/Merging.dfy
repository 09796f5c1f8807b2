/** Decoding one input after another is decoding their concatenation. */
module Merging {
  import opened Words
  import opened Varint
  import opened Descriptor
  import opened DecodeSpec

  // ----- locality: bytes after a complete record do not change how it is read

  lemma TakeLocal(s: seq<byte>, n: nat, tail: seq<byte>)
    requires Take(s, n).Done?
    ensures Take(s + tail, n) == Done(Take(s, n).value, Take(s, n).rest + tail)
  {
    assert (s + tail)[..n] == s[..n];
    assert (s + tail)[n..] == s[n..] + tail;
  }

  lemma TakeDelimitedLocal(s: seq<byte>, tail: seq<byte>)
    requires TakeDelimited(s).Done?
    ensures TakeDelimited(s + tail) == Done(TakeDelimited(s).value, TakeDelimited(s).rest + tail)
  {
    ReadLocal(s, MAX_BYTES_32, tail);
    var p := ReadVarint32(s);
    TakeLocal(p.rest, p.value, tail);
  }

  lemma SkipFieldLocal(wire: nat, s: seq<byte>, tail: seq<byte>)
    requires SkipField(wire, s).Done?
    ensures SkipField(wire, s + tail) == Done((), SkipField(wire, s).rest + tail)
  {
    match wire
    case 0 => SkipLocal(s, tail);
    case 1 => TakeLocal(s, 8, tail);
    case 2 => TakeDelimitedLocal(s, tail);
    case 5 => TakeLocal(s, 4, tail);
    case _ =>
  }

  lemma ReadTagLocal(s: seq<byte>, tail: seq<byte>)
    requires ReadTag(s).Tag?
    ensures ReadTag(s + tail) == Tag(ReadTag(s).tag, ReadTag(s).wire, ReadTag(s).rest + tail)
  {
    ReadLocal(s, MAX_BYTES_32, tail);
  }

  lemma ReadScalarLocal(f: Field, s: seq<byte>, tail: seq<byte>)
    requires Packable(f.ltype) && ReadScalar(f, s).Done?
    ensures ReadScalar(f, s + tail) == Done(ReadScalar(f, s).value, ReadScalar(f, s).rest + tail)
  {
    match f.ltype
    case LFixed32 => TakeLocal(s, 4, tail);
    case LFixed64 => TakeLocal(s, 8, tail);
    case LVarint | LUVarint | LSVarint => ReadLocal(s, MAX_BYTES_64, tail);
  }

  lemma ReadItemLocal(f: Field, prior: Item, s: seq<byte>, tail: seq<byte>)
    requires ReadItem(f, prior, s).Done?
    ensures ReadItem(f, prior, s + tail) == Done(ReadItem(f, prior, s).value, ReadItem(f, prior, s).rest + tail)
  {
    if Packable(f.ltype) {
      ReadScalarLocal(f, s, tail);
    } else {
      TakeDelimitedLocal(s, tail);
    }
  }

  lemma ReadFieldLocal(f: Field, slot: Slot, wire: nat, s: seq<byte>, tail: seq<byte>)
    requires ReadField(f, slot, wire, s).Done?
    ensures ReadField(f, slot, wire, s + tail)
         == Done(ReadField(f, slot, wire, s).value, ReadField(f, slot, wire, s).rest + tail)
  {
    if f.htype.Repeated? && wire == WT_STRING && Packable(f.ltype) {
      TakeDelimitedLocal(s, tail);
    } else if f.htype.Repeated? || f.htype.Oneof? {
      ReadItemLocal(f, Unset, s, tail);
    } else {
      ReadItemLocal(f, ItemOf(slot), s, tail);
    }
  }

  // ----- the record loop over a concatenation

  /** If the loop exhausts `a` at a record boundary, running on a + b is running on b from where `a` ended. */
  lemma {:induction false} LoopConcat(fields: seq<Field>, msg: seq<Slot>, seen: set<nat>, a: seq<byte>, b: seq<byte>)
    requires |msg| == SlotCount(fields)
    requires RunLoop(fields, msg, seen, a).Drained?
    ensures var l := RunLoop(fields, msg, seen, a);
            RunLoop(fields, msg, seen, a + b) == RunLoop(fields, l.msg, l.seen, b)
    decreases |a|
  {
    if a == [] {
      assert a + b == b;
    } else {
      ReadTagLocal(a, b);
      var t := ReadTag(a);
      var found := Find(fields, t.tag);
      if found.None? {
        SkipFieldLocal(t.wire, t.rest, b);
        LoopConcat(fields, msg, seen, SkipField(t.wire, t.rest).rest, b);
      } else {
        var i := found.value;
        var k := SlotOf(fields, i);
        SlotMonotone(fields, i, i);
        ReadFieldLocal(fields[i], msg[k], t.wire, t.rest, b);
        var p := ReadField(fields[i], msg[k], t.wire, t.rest);
        LoopConcat(fields, msg[k := p.value], seen + {i}, p.rest, b);
      }
    }
  }

  function AddSeen(l: Loop, extra: set<nat>): Loop {
    match l
    case Failed => Failed
    case Stopped(msg, seen, rest) => Stopped(msg, seen + extra, rest)
    case Drained(msg, seen) => Drained(msg, seen + extra)
  }

  /** The set of entries met so far is only ever added to and never read by the loop. */
  lemma {:induction false} LoopSeen(fields: seq<Field>, msg: seq<Slot>, seen: set<nat>, extra: set<nat>, s: seq<byte>)
    requires |msg| == SlotCount(fields)
    ensures RunLoop(fields, msg, seen + extra, s) == AddSeen(RunLoop(fields, msg, seen, s), extra)
    decreases |s|
  {
    if s != [] && ReadTag(s).Tag? {
      var t := ReadTag(s);
      var found := Find(fields, t.tag);
      if found.None? {
        var p := SkipField(t.wire, t.rest);
        if p.Done? && !(fields == [] && t.tag == 0) {
          LoopSeen(fields, msg, seen, extra, p.rest);
        }
      } else {
        var i := found.value;
        var k := SlotOf(fields, i);
        SlotMonotone(fields, i, i);
        var p := ReadField(fields[i], msg[k], t.wire, t.rest);
        if p.Done? {
          assert seen + extra + {i} == seen + {i} + extra;
          LoopSeen(fields, msg[k := p.value], seen + {i}, extra, p.rest);
        }
      }
    }
  }

  /** `a` is a whole number of records for this reader: the loop consumes it without breaking out early. */
  predicate WholeRecords(fields: seq<Field>, msg: seq<Slot>, a: seq<byte>)
    requires |msg| == SlotCount(fields)
  {
    RunLoop(fields, msg, {}, a).Drained?
  }

  /** Concatenation is merge: decoding a and then b into the same struct is decoding a + b. */
  lemma ConcatenationIsMerge(fields: seq<Field>, msg: seq<Slot>, a: seq<byte>, b: seq<byte>)
    requires |msg| == SlotCount(fields)
    requires WholeRecords(fields, msg, a)
    requires DecodeNoInit(fields, msg, a).Done?
    requires DecodeNoInit(fields, DecodeNoInit(fields, msg, a).value, b).Done?
    ensures DecodeNoInit(fields, msg, a + b) == DecodeNoInit(fields, DecodeNoInit(fields, msg, a).value, b)
  {
    LoopConcat(fields, msg, {}, a, b);
    var l := RunLoop(fields, msg, {}, a);
    LoopSeen(fields, l.msg, {}, l.seen, b);
    assert {} + l.seen == l.seen;
  }

  /** Splitting the other way: what a + b needs beyond both halves is only that required entries occur in either. */
  lemma MergeRequiredUnion(fields: seq<Field>, msg: seq<Slot>, a: seq<byte>, b: seq<byte>)
    requires |msg| == SlotCount(fields)
    requires WholeRecords(fields, msg, a)
    ensures var l := RunLoop(fields, msg, {}, a);
            var m := RunLoop(fields, l.msg, {}, b);
            DecodeNoInit(fields, msg, a + b) == Finish(fields, AddSeen(m, l.seen))
  {
    LoopConcat(fields, msg, {}, a, b);
    var l := RunLoop(fields, msg, {}, a);
    LoopSeen(fields, l.msg, {}, l.seen, b);
    assert {} + l.seen == l.seen;
  }

  // ----- what a second record of one field does

  /** A number, a string or bytes, and any member of a union: the last record decides, whatever was there. */
  lemma LastRecordWins(f: Field, a: Slot, b: Slot, wire: nat, s: seq<byte>)
    requires f.htype.Oneof? || (!f.htype.Repeated? && !f.ltype.LSubmessage?)
    ensures ReadField(f, a, wire, s) == ReadField(f, b, wire, s)
    ensures ReadField(f, a, wire, s).Done? ==>
              var slot := ReadField(f, a, wire, s).value;
              match f.htype
              case Required => slot.Single?
              case Optional => if f.sizeOffset == 0 then slot.Single? else slot.Opt? && slot.has
              case Oneof => slot.Union? && slot.which == f.tag
              case Repeated => false
  {
  }

  /** An array keeps the items it has and gets new ones behind them. */
  lemma {:induction false} ArrayGrows(f: Field, have: seq<Item>, wire: nat, s: seq<byte>)
    requires f.htype.Repeated? && ReadField(f, Arr(have), wire, s).Done?
    ensures var slot := ReadField(f, Arr(have), wire, s).value;
            slot.Arr? && |have| <= |slot.items| && slot.items[..|have|] == have
  {
    if wire == WT_STRING && Packable(f.ltype) { RunGrows(f, have, TakeDelimited(s).value); }
  }

  lemma {:induction false} RunGrows(f: Field, have: seq<Item>, s: seq<byte>)
    requires Packable(f.ltype) && ReadPacked(f, have, s).Some?
    ensures |have| <= |ReadPacked(f, have, s).value| && ReadPacked(f, have, s).value[..|have|] == have
    decreases |s|
  {
    if s != [] {
      var p := ReadScalar(f, s);
      RunGrows(f, have + [p.value], p.rest);
      var r := ReadPacked(f, have + [p.value], p.rest).value;
      assert r[..|have|] == r[..|have| + 1][..|have|] == have;
    }
  }

  /** What a single array record adds does not depend on the items before it. */
  lemma NewItemIsFresh(f: Field, a: seq<Item>, b: seq<Item>, wire: nat, s: seq<byte>)
    requires f.htype.Repeated? && !(wire == WT_STRING && Packable(f.ltype))
    requires |a| < f.arraySize && |b| < f.arraySize && ReadField(f, Arr(a), wire, s).Done?
    ensures exists x :: ReadField(f, Arr(a), wire, s).value == Arr(a + [x])
                        && ReadField(f, Arr(b), wire, s) == Done(Arr(b + [x]), ReadField(f, Arr(a), wire, s).rest)
  {
    var x := ReadItem(f, Unset, s).value;
    assert ReadField(f, Arr(a), wire, s).value == Arr(a + [x]);
  }

  /**
   A submessage sent in two parts is merged: reading the second part into the slot the first one left is reading one
   record whose content is both, one after the other.
   */
  lemma {:induction false} PartsMerge(f: Field, slot: Slot, wire: nat, x: seq<byte>, y: seq<byte>, tail: seq<byte>)
    requires f.ltype.LSubmessage? && (f.htype.Required? || f.htype.Optional?) && |x| + |y| < TWO_32
    requires !slot.Arr? && slot.item.Msg? && |slot.item.slots| == SlotCount(f.ltype.fields)
    requires WholeRecords(f.ltype.fields, slot.item.slots, x)
    requires ReadField(f, slot, wire, Delimited(x, tail)).Done?
    requires ReadField(f, ReadField(f, slot, wire, Delimited(x, tail)).value, wire, Delimited(y, tail)).Done?
    ensures ReadField(f, slot, wire, Delimited(x + y, tail)) ==
            ReadField(f, ReadField(f, slot, wire, Delimited(x, tail)).value, wire, Delimited(y, tail))
  {
    DelimitedRead(x, tail);
    DelimitedRead(y, tail);
    DelimitedRead(x + y, tail);
    ConcatenationIsMerge(f.ltype.fields, slot.item.slots, x, y);
  }

  /**
   An item of an array and a member of a union are a message of their own: what pb_decode makes of the content alone, from
   declared defaults, whatever was there before and however much of the content it leaves.
   */
  lemma NewSubmessage(f: Field, slot: Slot, wire: nat, bs: seq<byte>, tail: seq<byte>)
    requires f.ltype.LSubmessage? && |bs| < TWO_32
    requires f.htype.Oneof? || (f.htype.Repeated? && slot.Arr? && |slot.items| < f.arraySize)
    ensures var p := Decode(f.ltype.fields, bs);
            ReadField(f, slot, wire, Delimited(bs, tail)) ==
            if p.Fail? then Fail
            else if f.htype.Oneof? then Done(Union(f.tag, Msg(p.value)), tail)
            else Done(Arr(slot.items + [Msg(p.value)]), tail)
  {
    DelimitedRead(bs, tail);
  }

  /** A length and that many bytes, with more behind. */
  function Delimited(bs: seq<byte>, tail: seq<byte>): seq<byte> {
    EncodeVarint(|bs|) + bs + tail
  }

  lemma DelimitedRead(bs: seq<byte>, tail: seq<byte>)
    requires |bs| < TWO_32
    ensures TakeDelimited(Delimited(bs, tail)) == Done(bs, tail)
  {
    RoundTrip32(|bs|, bs + tail);
    assert EncodeVarint(|bs|) + bs + tail == EncodeVarint(|bs|) + (bs + tail);
    assert (bs + tail)[..|bs|] == bs && (bs + tail)[|bs|..] == tail;
  }
}
