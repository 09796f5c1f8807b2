/** Base 128 varints: the wire format of pb_encode_varint and of the two varint decoders. */
module Varint {
  import opened Words

  const MAX_BYTES_64 := 10
  const MAX_BYTES_32 := 5

  /** The bytes pb_encode_varint writes: seven bits a byte, low bits first, top bit set on all but the last. */
  function EncodeVarint(v: nat): (bs: seq<byte>)
    ensures |bs| >= 1
  {
    if v < 128 then [v] else [v % 128 + 128] + EncodeVarint(v / 128)
  }

  /** A varint of at most `max` bytes, with its value not yet cut to a word. */
  function ReadVarint(s: seq<byte>, max: nat): (p: Parse<nat>)
    ensures p.Done? ==> |p.rest| < |s| <= |p.rest| + max
  {
    if max == 0 || s == [] then Fail
    else if s[0] < 128 then Done(s[0], s[1..])
    else match ReadVarint(s[1..], max - 1)
      case Fail => Fail
      case Done(v, rest) => Done(s[0] - 128 + 128 * v, rest)
  }

  /** pb_decode_varint. */
  function ReadVarint64(s: seq<byte>): (p: Parse<nat>)
    ensures p.Done? ==> p.value < TWO_64 && |p.rest| < |s|
  {
    match ReadVarint(s, MAX_BYTES_64)
    case Fail => Fail
    case Done(v, rest) => Done(v % TWO_64, rest)
  }

  /** pb_decode_varint32. */
  function ReadVarint32(s: seq<byte>): (p: Parse<nat>)
    ensures p.Done? ==> p.value < TWO_32 && |p.rest| < |s|
  {
    match ReadVarint(s, MAX_BYTES_32)
    case Fail => Fail
    case Done(v, rest) => Done(v % TWO_32, rest)
  }

  /** pb_skip_varint: no length limit. */
  function SkipVarint(s: seq<byte>): (p: Parse<()>)
    ensures p.Done? ==> |p.rest| < |s|
  {
    if s == [] then Fail
    else if s[0] < 128 then Done((), s[1..])
    else SkipVarint(s[1..])
  }

  function Pow128(k: nat): (r: nat)
    ensures r >= 1
  {
    if k == 0 then 1 else 128 * Pow128(k - 1)
  }

  /** A value below 128^k takes at most k bytes. */
  lemma {:induction false} EncodedLength(v: nat, k: nat)
    requires k >= 1 && v < Pow128(k)
    ensures |EncodeVarint(v)| <= k
    decreases k
  {
    if v >= 128 {
      assert k >= 2 by { assert Pow128(1) == 128 * Pow128(0); }
      assert Pow128(k) == 128 * Pow128(k - 1);
      EncodedLength(v / 128, k - 1);
    }
  }

  lemma WordLengths()
    ensures Pow128(MAX_BYTES_32) == 0x8_0000_0000 && Pow128(MAX_BYTES_64) == 0x40_0000_0000_0000_0000
  {
    assert Pow128(1) == 128;
    assert Pow128(2) == 128 * Pow128(1);
    assert Pow128(3) == 128 * Pow128(2);
    assert Pow128(4) == 128 * Pow128(3);
    assert Pow128(5) == 128 * Pow128(4);
    assert Pow128(6) == 128 * Pow128(5);
    assert Pow128(7) == 128 * Pow128(6);
    assert Pow128(8) == 128 * Pow128(7);
    assert Pow128(9) == 128 * Pow128(8);
    assert Pow128(10) == 128 * Pow128(9);
  }

  lemma AtMostTenBytes(v: nat)
    requires v < TWO_64
    ensures |EncodeVarint(v)| <= MAX_BYTES_64
  {
    WordLengths();
    EncodedLength(v, MAX_BYTES_64);
  }

  lemma {:induction false} ReadEncoded(v: nat, tail: seq<byte>, max: nat)
    requires |EncodeVarint(v)| <= max
    ensures ReadVarint(EncodeVarint(v) + tail, max) == Done(v, tail)
    decreases v
  {
    var s := EncodeVarint(v) + tail;
    if v < 128 {
      assert s[1..] == tail;
    } else {
      var low, high := v % 128, v / 128;
      ReadEncoded(high, tail, max - 1);
      assert s[1..] == EncodeVarint(high) + tail;
      assert s[0] == low + 128;
      assert v == low + 128 * high;
    }
  }

  /** Every 64-bit value takes 1 to 10 bytes and is read back from any longer input, leaving exactly the rest. */
  lemma RoundTrip64(v: nat, tail: seq<byte>)
    requires v < TWO_64
    ensures 1 <= |EncodeVarint(v)| <= MAX_BYTES_64
    ensures ReadVarint64(EncodeVarint(v) + tail) == Done(v, tail)
  {
    AtMostTenBytes(v);
    ReadEncoded(v, tail, MAX_BYTES_64);
    assert v % TWO_64 == v;
  }

  /** Every 32-bit value takes 1 to 5 bytes and both decoders read it back. */
  lemma RoundTrip32(v: nat, tail: seq<byte>)
    requires v < TWO_32
    ensures 1 <= |EncodeVarint(v)| <= MAX_BYTES_32
    ensures ReadVarint32(EncodeVarint(v) + tail) == Done(v, tail)
  {
    assert |EncodeVarint(v)| <= MAX_BYTES_32 by {
      WordLengths();
      EncodedLength(v, MAX_BYTES_32);
    }
    ReadEncoded(v, tail, MAX_BYTES_32);
    assert v % TWO_32 == v;
  }

  lemma {:induction false} SkipEncoded(v: nat, tail: seq<byte>)
    ensures SkipVarint(EncodeVarint(v) + tail) == Done((), tail)
    decreases v
  {
    var s := EncodeVarint(v) + tail;
    if v < 128 {
      assert s[1..] == tail;
    } else {
      SkipEncoded(v / 128, tail);
      assert s[1..] == EncodeVarint(v / 128) + tail;
    }
  }

  /** Minimality: no byte string read as v is shorter than the one the encoder writes. */
  lemma {:induction false} EncodingIsMinimal(s: seq<byte>, max: nat)
    requires ReadVarint(s, max).Done?
    ensures |EncodeVarint(ReadVarint(s, max).value)| <= |s| - |ReadVarint(s, max).rest|
  {
    if s[0] >= 128 {
      EncodingIsMinimal(s[1..], max - 1);
      var v := ReadVarint(s[1..], max - 1).value;
      assert (s[0] - 128 + 128 * v) / 128 == v;
    }
  }

  /** Raising the byte limit changes no successful read. */
  lemma {:induction false} ReadLimit(s: seq<byte>, max: nat, more: nat)
    requires max <= more && ReadVarint(s, max).Done?
    ensures ReadVarint(s, more) == ReadVarint(s, max)
  {
    if s[0] >= 128 {
      ReadLimit(s[1..], max - 1, more - 1);
    }
  }

  /** A read that ends within `max` bytes is found under that limit too. */
  lemma {:induction false} ReadLimitBack(s: seq<byte>, max: nat, more: nat)
    requires max <= more && ReadVarint(s, more).Done? && |s| - |ReadVarint(s, more).rest| <= max
    ensures ReadVarint(s, max) == ReadVarint(s, more)
  {
    if s[0] >= 128 {
      ReadLimitBack(s[1..], max - 1, more - 1);
    }
  }

  /** A lower byte limit accepts exactly the varints that end within it. */
  lemma LimitAgrees(s: seq<byte>, max: nat, more: nat)
    requires max <= more
    ensures ReadVarint(s, max).Done? <==> ReadVarint(s, more).Done? && |s| - |ReadVarint(s, more).rest| <= max
    ensures ReadVarint(s, max).Done? ==> ReadVarint(s, max) == ReadVarint(s, more)
  {
    if ReadVarint(s, max).Done? {
      ReadLimit(s, max, more);
    } else if ReadVarint(s, more).Done? && |s| - |ReadVarint(s, more).rest| <= max {
      ReadLimitBack(s, max, more);
    }
  }

  lemma Low32Of64(v: nat)
    ensures v % TWO_64 % TWO_32 == v % TWO_32
  {
    var q := v / TWO_64;
    assert v == v % TWO_64 + TWO_32 * (TWO_32 * q);
  }

  /** The 32-bit decoder succeeds exactly on varints that end within five bytes, with the 64-bit result mod 2^32. */
  lemma Varint32AgreesWith64(s: seq<byte>)
    ensures ReadVarint32(s).Done? <==>
            ReadVarint64(s).Done? && |s| - |ReadVarint64(s).rest| <= MAX_BYTES_32
    ensures ReadVarint32(s).Done? ==>
              ReadVarint32(s) == Done(ReadVarint64(s).value % TWO_32, ReadVarint64(s).rest)
  {
    LimitAgrees(s, MAX_BYTES_32, MAX_BYTES_64);
    var p := ReadVarint(s, MAX_BYTES_32);
    if p.Done? { Low32Of64(p.value); }
  }

  /** What fails to read as a varint of at most max bytes: those bytes, or the whole input, all carry the top bit. */
  lemma {:induction false} ReadFails(s: seq<byte>, max: nat)
    ensures ReadVarint(s, max).Fail? <==> forall i :: 0 <= i < |s| && i < max ==> s[i] >= 128
  {
    if max > 0 && s != [] && s[0] >= 128 {
      ReadFails(s[1..], max - 1);
      assert forall i :: 0 < i < |s| ==> s[i] == s[1..][i - 1];
      if forall i :: 0 <= i < |s[1..]| && i < max - 1 ==> s[1..][i] >= 128 {
        forall i | 0 <= i < |s| && i < max ensures s[i] >= 128 {
          if i > 0 { assert s[i] == s[1..][i - 1]; }
        }
      }
    }
  }

  /** More input after a varint does not change how it is read. */
  lemma {:induction false} ReadLocal(s: seq<byte>, max: nat, tail: seq<byte>)
    requires ReadVarint(s, max).Done?
    ensures ReadVarint(s + tail, max) == Done(ReadVarint(s, max).value, ReadVarint(s, max).rest + tail)
  {
    assert (s + tail)[1..] == s[1..] + tail;
    if s[0] >= 128 {
      ReadLocal(s[1..], max - 1, tail);
    }
  }

  lemma {:induction false} SkipLocal(s: seq<byte>, tail: seq<byte>)
    requires SkipVarint(s).Done?
    ensures SkipVarint(s + tail) == Done((), SkipVarint(s).rest + tail)
  {
    assert (s + tail)[1..] == s[1..] + tail;
    if s[0] >= 128 {
      SkipLocal(s[1..], tail);
    }
  }
}
