/**
 The wire format byte by byte, as the encoding chapter of the Protocol Buffers documentation gives it: what the bytes of
 a varint, a fixed-width word, a tag and a whole message are, and not only that reading inverts writing.
 */
module WireFormat {
  import opened Words
  import opened Varint
  import opened Scalars
  import opened Descriptor
  import opened DecodeSpec
  import opened EncodeSpec
  import opened Records
  import opened RequiredBits

  // ----- digits

  lemma DivDiv(v: nat, a: nat, b: nat)
    requires a > 0 && b > 0
    ensures a * b > 0 && v / (a * b) == v / a / b
  {
    DivParts(v, a, b, v / a, v % a, v / a / b, v / a % b);
  }

  lemma DivParts(v: nat, a: nat, b: nat, x: nat, s: nat, q: nat, r: nat)
    requires v == a * x + s && s < a && x == b * q + r && r < b
    ensures a * b > 0 && v / (a * b) == q
  {
    assert a * x == (a * b) * q + a * r by { assert a * (b * q) == (a * b) * q; }
    assert a * (b - 1) == a * b - a;
    Monotone(a, r, b - 1);
    DivUnique(v, a * b, q, a * r + s);
  }

  lemma Monotone(a: nat, x: nat, y: nat)
    requires x <= y
    ensures a * x <= a * y
  {
  }

  /** Byte k of a varint: seven bits of the value, low groups first, and a continuation bit on all bytes but the last. */
  lemma {:induction false} VarintByte(v: nat, k: nat)
    requires k < |EncodeVarint(v)|
    ensures EncodeVarint(v)[k] == (v / Pow128(k)) % 128 + (if k + 1 < |EncodeVarint(v)| then 128 else 0)
    decreases k
  {
    if k > 0 {
      VarintByte(v / 128, k - 1);
      DivDiv(v, 128, Pow128(k - 1));
    }
  }

  /** Its length: n bytes exactly for the values of n groups. */
  lemma {:induction false} VarintLength(v: nat, n: nat)
    requires n >= 1
    ensures |EncodeVarint(v)| == n <==> v < Pow128(n) && (n == 1 || v >= Pow128(n - 1))
    decreases n
  {
    assert Pow128(n) == 128 * Pow128(n - 1);
    if v < 128 {
      if n > 1 { assert Pow128(n - 1) == 128 * Pow128(n - 2); }
    } else if n > 1 {
      VarintLength(v / 128, n - 1);
      GroupBound(v, Pow128(n - 1));
      if n > 2 { assert Pow128(n - 1) == 128 * Pow128(n - 2); GroupBound(v, Pow128(n - 2)); }
    }
  }

  lemma GroupBound(v: nat, p: nat)
    ensures v / 128 < p <==> v < 128 * p
  {
  }

  /** Reading: group k of the value is in byte k, for canonical and overlong varints alike. */
  lemma {:induction false} ReadGroup(s: seq<byte>, max: nat, k: nat)
    requires ReadVarint(s, max).Done? && k < |s| - |ReadVarint(s, max).rest|
    ensures (ReadVarint(s, max).value / Pow128(k)) % 128 == s[k] % 128
    decreases k
  {
    if s[0] >= 128 {
      var v := ReadVarint(s[1..], max - 1).value;
      if k == 0 {
        assert (s[0] - 128 + 128 * v) % 128 == s[0] - 128;
      } else {
        ReadGroup(s[1..], max - 1, k - 1);
        DivDiv(s[0] - 128 + 128 * v, 128, Pow128(k - 1));
        assert (s[0] - 128 + 128 * v) / 128 == v;
      }
    }
  }

  /** And there is nothing above the last group. */
  lemma {:induction false} ReadBound(s: seq<byte>, max: nat)
    requires ReadVarint(s, max).Done?
    ensures ReadVarint(s, max).value < Pow128(|s| - |ReadVarint(s, max).rest|)
    decreases max
  {
    var n := |s| - |ReadVarint(s, max).rest|;
    assert Pow128(n) == 128 * Pow128(n - 1);
    if s[0] >= 128 { ReadBound(s[1..], max - 1); }
  }

  /** Byte k of a fixed-width word, low byte first. */
  lemma {:induction false} WordByte(v: nat, n: nat, k: nat)
    requires k < n
    ensures LittleEndian(v, n)[k] == (v / Pow256(k)) % 256
    decreases k
  {
    if k > 0 {
      WordByte(v / 256, n - 1, k - 1);
      DivDiv(v, 256, Pow256(k - 1));
    }
  }

  /** A tag's low three bits are the wire type, the rest is the field number: one byte up to number 15. */
  lemma TagByte(wire: nat, tag: nat)
    requires wire < 8 && 1 <= tag < TAG_LIMIT
    ensures TagBytes(wire, tag)[0] % 8 == wire
    ensures tag < 16 ==> TagBytes(wire, tag) == [8 * tag + wire]
    ensures |TagBytes(wire, tag)| == 1 <==> tag < 16
  {
    FirstByte(tag * 8 + wire);
  }

  lemma FirstByte(v: nat)
    ensures EncodeVarint(v)[0] % 8 == v % 8 && (|EncodeVarint(v)| == 1 <==> v < 128)
    ensures v < 128 ==> EncodeVarint(v) == [v]
  {
    LowBits3(v, v / 128, v % 128);
    LowBits3(v % 128 + 128, 1, v % 128);
  }

  lemma LowBits3(v: nat, q: nat, r: nat)
    requires v == 128 * q + r
    ensures v % 8 == r % 8
  {
    assert v == 8 * (16 * q) + r;
  }

  /** Negative numbers of plain signed fields take ten bytes, whatever their width. */
  lemma NegativeTakesTen(f: Field, v: int)
    requires f.ltype.LVarint? && ValidWidth(f.dataSize) && FitsSigned(8, v) && v < 0
    ensures EncodeScalar(f, v).Some? && |EncodeScalar(f, v).value| == 10
  {
    WordLengths();
    NinthPower();
    assert v % TWO_64 == v + TWO_64;
    VarintLength(v + TWO_64, 10);
  }

  lemma NinthPower()
    ensures Pow128(9) == 0x8000_0000_0000_0000
  {
    WordLengths();
    assert Pow128(10) == 128 * Pow128(9);
  }

  // ----- widths

  /** A signed, unsigned or zigzag number arrives unchanged in a cell of any width that can hold it. */
  lemma AnyWidth(r: Field, w: Field, v: int)
    requires (w.ltype.LVarint? || w.ltype.LUVarint? || w.ltype.LSVarint?) && r.ltype == w.ltype
    requires FitsItem(w, Int(v)) && FitsItem(r, Int(v))
    ensures DeliverScalar(r, w, v) == Some(Int(v))
  {
    match w.ltype
    case LVarint =>
      VarintRoundTrip(r.dataSize, v);
      WordArrives(r, w, v, VarintWord(v));
    case LUVarint =>
      UVarintRoundTrip(r.dataSize, v);
      WordArrives(r, w, v, VarintWord(v));
    case LSVarint =>
      SVarintRoundTrip(r.dataSize, v);
      WordArrives(r, w, v, ZigZag(v));
  }

  lemma WordArrives(r: Field, w: Field, v: int, word: nat)
    requires (w.ltype.LVarint? || w.ltype.LUVarint? || w.ltype.LSVarint?) && r.ltype == w.ltype && word < TWO_64
    requires word == (if w.ltype.LSVarint? then ZigZag(v) else VarintWord(v)) && WordCell(r, word) == Some(v)
    ensures DeliverScalar(r, w, v) == Some(Int(v))
  {
    assert word % TWO_64 == word;
  }

  // ----- what is refused, and what is not checked

  /** Groups and unassigned wire types cannot be skipped. */
  lemma UnknownWireFails(fields: seq<Field>, msg: seq<Slot>, seen: set<nat>, wire: nat, tag: nat, tail: seq<byte>)
    requires |msg| == SlotCount(fields) && 1 <= tag < TAG_LIMIT && Find(fields, tag).None?
    requires wire == 3 || wire == 4 || wire == 6 || wire == 7
    ensures RunLoop(fields, msg, seen, TagBytes(wire, tag) + tail).Failed?
  {
    LoopStep(fields, msg, seen, wire, tag, tail);
  }

  /** Unknown fields of the four known wire types are skipped by their own extent. */
  lemma UnknownIsSkipped(fields: seq<Field>, msg: seq<Slot>, seen: set<nat>, tag: nat, bs: seq<byte>, v: nat, tail: seq<byte>)
    requires |msg| == SlotCount(fields) && 1 <= tag < TAG_LIMIT && Find(fields, tag).None?
    ensures RunLoop(fields, msg, seen, TagBytes(0, tag) + (EncodeVarint(v) + tail)) == RunLoop(fields, msg, seen, tail)
    ensures |bs| == 8 ==> RunLoop(fields, msg, seen, TagBytes(1, tag) + (bs + tail)) == RunLoop(fields, msg, seen, tail)
    ensures |bs| == 4 ==> RunLoop(fields, msg, seen, TagBytes(5, tag) + (bs + tail)) == RunLoop(fields, msg, seen, tail)
    ensures |bs| < TWO_32 ==>
              RunLoop(fields, msg, seen, TagBytes(2, tag) + (EncodeVarint(|bs|) + bs + tail)) == RunLoop(fields, msg, seen, tail)
  {
    LoopStep(fields, msg, seen, 0, tag, EncodeVarint(v) + tail);
    SkipEncoded(v, tail);
    LoopStep(fields, msg, seen, 1, tag, bs + tail);
    LoopStep(fields, msg, seen, 5, tag, bs + tail);
    SkipFixed(bs, tail);
    if |bs| < TWO_32 {
      TakeDelimit(bs, tail);
      LoopStep(fields, msg, seen, 2, tag, EncodeVarint(|bs|) + bs + tail);
    }
  }

  /** The wire type of a known field is not checked, except that it tells a packed run from a single item. */
  lemma WireIgnored(f: Field, slot: Slot, wire: nat, other: nat, s: seq<byte>)
    requires f.htype.Repeated? && Packable(f.ltype) ==> (wire == 2 <==> other == 2)
    ensures ReadField(f, slot, wire, s) == ReadField(f, slot, other, s)
  {
  }

  /** Fixed-length bytes of length zero are read as zeros; any other wrong length is refused. */
  lemma FixedLengthRead(f: Field, prior: Item, bs: seq<byte>, tail: seq<byte>)
    requires f.ltype.LFixedLengthBytes? && |bs| < TWO_32
    ensures var p := ReadItem(f, prior, EncodeVarint(|bs|) + bs + tail);
            if bs == [] then p.Done? && p.rest == tail && p.value.Blob? && |p.value.bytes| == f.dataSize
                             && forall k :: 0 <= k < f.dataSize ==> p.value.bytes[k] == 0
            else if |bs| == f.dataSize then p == Done(Blob(bs), tail)
            else p.Fail?
  {
    TakeDelimit(bs, tail);
  }

  /** A descriptor without entries refuses field number 0; any other skips it. */
  lemma NumberZero(fields: seq<Field>, msg: seq<Slot>, seen: set<nat>, wire: nat, tail: seq<byte>)
    requires |msg| == SlotCount(fields) && 1 <= wire < 8 && Find(fields, 0).None?
    ensures fields == [] || SkipField(wire, tail).Fail? ==> RunLoop(fields, msg, seen, [wire] + tail).Failed?
    ensures fields != [] && SkipField(wire, tail).Done? ==>
              RunLoop(fields, msg, seen, [wire] + tail) == RunLoop(fields, msg, seen, SkipField(wire, tail).rest)
  {
    NumberZeroTag(wire, tail);
    var s := [wire] + tail;
    assert s != [] && ReadTag(s) == Tag(0, wire, tail);
  }

  lemma NumberZeroTag(wire: nat, tail: seq<byte>)
    requires 1 <= wire < 8
    ensures ReadTag([wire] + tail) == Tag(0, wire, tail)
  {
    assert ([wire] + tail)[1..] == tail;
    assert ReadVarint([wire] + tail, 5) == Done(wire, tail);
  }
}
