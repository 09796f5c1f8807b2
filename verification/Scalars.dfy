/** Scalar field codecs: zigzag, little-endian words, and the width checks of the field decoders. */
module Scalars {
  import opened Words

  predicate ValidWidth(size: nat) {
    size == 1 || size == 2 || size == 4 || size == 8
  }

  /** The values an intN_t cell of `size` bytes can hold. */
  predicate FitsSigned(size: nat, v: int) {
    match size
    case 1 => -0x80 <= v < 0x80
    case 2 => -0x8000 <= v < 0x8000
    case 4 => -0x8000_0000 <= v < 0x8000_0000
    case 8 => -0x8000_0000_0000_0000 <= v < 0x8000_0000_0000_0000
    case _ => false
  }

  /** The values a uintN_t cell of `size` bytes can hold. */
  predicate FitsUnsigned(size: nat, v: int) {
    match size
    case 1 => 0 <= v < TWO_8
    case 2 => 0 <= v < TWO_16
    case 4 => 0 <= v < TWO_32
    case 8 => 0 <= v < TWO_64
    case _ => false
  }

  /** Store a 64-bit value in a signed cell and compare what was stored with what was meant. */
  function NarrowSigned(size: nat, v: int): Option<int> {
    var clamped :=
      match size
      case 8 => Some(Signed64(v))
      case 4 => Some(Signed32(v))
      case 2 => Some(Signed16(v))
      case 1 => Some(Signed8(v))
      case _ => None;
    if clamped == Some(v) then clamped else None
  }

  /** pb_dec_varint after the raw 64-bit read: narrow fields are cast to int32_t first. */
  function VarintCell(size: nat, raw: nat): Option<int> {
    NarrowSigned(size, if size == 8 then Signed64(raw) else Signed32(raw))
  }

  /** pb_dec_uvarint after the raw read. */
  function UVarintCell(size: nat, raw: nat): Option<int> {
    var clamped :=
      match size
      case 8 => Some(raw % TWO_64)
      case 4 => Some(raw % TWO_32)
      case 2 => Some(raw % TWO_16)
      case 1 => Some(raw % TWO_8)
      case _ => None;
    if clamped == Some(raw) then clamped else None
  }

  /** pb_dec_svarint after the raw read. */
  function SVarintCell(size: nat, raw: nat): Option<int> {
    NarrowSigned(size, UnZigZag(raw))
  }

  /** The word pb_enc_varint writes: sign extension to 64 bits. */
  function VarintWord(v: int): (w: nat) {
    v % TWO_64
  }

  /** The shift and complement of pb_encode_svarint. */
  function ZigZag(v: int): (w: int) {
    if v < 0 then TWO_64 - 1 - (2 * (v % TWO_64)) % TWO_64 else (2 * v) % TWO_64
  }

  /** pb_decode_svarint after the raw read. */
  function UnZigZag(w: int): (v: int) {
    if w % 2 == 1 then Signed64(TWO_64 - 1 - w / 2) else Signed64(w / 2)
  }

  lemma NarrowSignedExact(size: nat, v: int)
    ensures NarrowSigned(size, v) == if FitsSigned(size, v) then Some(v) else None
  {
    match size
    case 8 =>
    case 4 =>
    case 2 =>
    case 1 =>
    case _ =>
  }

  /** Zigzag interleaves: 0, -1, 1, -2, ... are 0, 1, 2, 3, ... */
  lemma ZigZagInterleaves(v: int)
    requires FitsSigned(8, v)
    ensures ZigZag(v) == if v >= 0 then 2 * v else -2 * v - 1
    ensures 0 <= ZigZag(v) < TWO_64
  {
    if v < 0 {
      assert v % TWO_64 == v + TWO_64;
      assert 2 * (v + TWO_64) == 2 * v + TWO_64 + TWO_64;
      assert (2 * v + TWO_64 + TWO_64) % TWO_64 == 2 * v + TWO_64;
    }
  }

  lemma UnZigZagInterleaves(w: int)
    requires FitsUnsigned(8, w)
    ensures UnZigZag(w) == if w % 2 == 1 then -1 - w / 2 else w / 2
    ensures FitsSigned(8, UnZigZag(w))
  {
    if w % 2 == 1 {
      var y := TWO_64 - 1 - w / 2;
      assert y % TWO_64 == y;
    }
  }

  /** Zigzag is a bijection between int64_t and uint64_t, with UnZigZag as its inverse. */
  lemma ZigZagBijection(v: int, w: int)
    requires FitsSigned(8, v) && FitsUnsigned(8, w)
    ensures FitsUnsigned(8, ZigZag(v)) && UnZigZag(ZigZag(v)) == v
    ensures FitsSigned(8, UnZigZag(w)) && ZigZag(UnZigZag(w)) == w
  {
    ZigZagLeftInverse(v);
    UnZigZagInterleaves(w);
    ZigZagInterleaves(UnZigZag(w));
  }

  lemma ZigZagLeftInverse(v: int)
    requires FitsSigned(8, v)
    ensures FitsUnsigned(8, ZigZag(v)) && UnZigZag(ZigZag(v)) == v
  {
    ZigZagInterleaves(v);
    UnZigZagInterleaves(ZigZag(v));
    if v < 0 {
      assert (-2 * v - 1) % 2 == 1 && (-2 * v - 1) / 2 == -v - 1;
    } else {
      assert (2 * v) % 2 == 0;
    }
  }

  /** int32/int64/bool/enum fields: every value of the cell survives, at each width. */
  lemma VarintRoundTrip(size: nat, v: int)
    requires FitsSigned(size, v)
    ensures VarintWord(v) < TWO_64 && VarintCell(size, VarintWord(v)) == Some(v)
  {
    NarrowSignedExact(size, v);
    if size != 8 {
      WidenAndCast32(v);
    }
  }

  /** A plain signed field accepts exactly the words whose int32_t (or int64_t) reading fits the cell. */
  lemma VarintAccepts(size: nat, raw: nat)
    ensures VarintCell(size, raw) ==
            var s := if size == 8 then Signed64(raw) else Signed32(raw);
            if FitsSigned(size, s) then Some(s) else None
  {
    NarrowSignedExact(size, if size == 8 then Signed64(raw) else Signed32(raw));
  }

  /** An unsigned field accepts exactly the words that fit the cell, unchanged. */
  lemma UVarintAccepts(size: nat, raw: nat)
    ensures UVarintCell(size, raw) == if raw < TWO_64 && FitsUnsigned(size, raw) then Some(raw) else None
  {
    match size
    case 8 =>
    case 4 =>
    case 2 =>
    case 1 =>
    case _ =>
  }

  lemma UVarintRoundTrip(size: nat, v: nat)
    requires FitsUnsigned(size, v)
    ensures VarintWord(v) == v && UVarintCell(size, v) == Some(v)
  {
    UVarintAccepts(size, v);
    assert v < TWO_64;
  }

  /** A zigzag field accepts exactly the words whose decoding fits the cell, and inverts the encoder. */
  lemma SVarintRoundTrip(size: nat, v: int)
    requires FitsSigned(8, v)
    ensures FitsUnsigned(8, ZigZag(v))
    ensures SVarintCell(size, ZigZag(v)) == if FitsSigned(size, v) then Some(v) else None
  {
    ZigZagLeftInverse(v);
    NarrowSignedExact(size, v);
  }

  /** n bytes, low byte first. */
  function LittleEndian(v: nat, n: nat): (bs: seq<byte>)
    ensures |bs| == n
  {
    if n == 0 then [] else [v % 256] + LittleEndian(v / 256, n - 1)
  }

  function FromLittleEndian(bs: seq<byte>): nat {
    if bs == [] then 0 else bs[0] + 256 * FromLittleEndian(bs[1..])
  }

  function Pow256(n: nat): (r: nat)
    ensures r >= 1
  {
    if n == 0 then 1 else 256 * Pow256(n - 1)
  }

  lemma {:induction false} LittleEndianRoundTrip(v: nat, n: nat)
    requires v < Pow256(n)
    ensures FromLittleEndian(LittleEndian(v, n)) == v
    decreases n
  {
    if n > 0 {
      LittleEndianRoundTrip(v / 256, n - 1);
      assert LittleEndian(v, n)[1..] == LittleEndian(v / 256, n - 1);
    }
  }

  lemma {:induction false} FromLittleEndianBound(bs: seq<byte>)
    ensures FromLittleEndian(bs) < Pow256(|bs|)
  {
    if bs != [] {
      FromLittleEndianBound(bs[1..]);
      assert Pow256(|bs|) == 256 * Pow256(|bs| - 1);
    }
  }

  lemma FixedWidths()
    ensures Pow256(4) == TWO_32 && Pow256(8) == TWO_64
  {
    assert Pow256(1) == 256;
    assert Pow256(2) == 256 * Pow256(1);
    assert Pow256(3) == 256 * Pow256(2);
    assert Pow256(4) == 256 * Pow256(3);
    assert Pow256(5) == 256 * Pow256(4);
    assert Pow256(6) == 256 * Pow256(5);
    assert Pow256(7) == 256 * Pow256(6);
  }
}
