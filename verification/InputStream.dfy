/** pb_istream_t over a memory buffer, with its length-limited substreams. */
module InputStream {
  import opened Words
  import opened Varint
  import opened DecodeSpec

  /** v << n, before it is cut to a word. */
  function Shl(v: nat, n: nat): (r: nat) {
    if n == 0 then v else 2 * Shl(v, n - 1)
  }

  lemma {:induction false} ShlAdd(x: nat, y: nat, n: nat)
    ensures Shl(x, n) + Shl(y, n) == Shl(x + y, n)
  {
    if n > 0 { ShlAdd(x, y, n - 1); }
  }

  lemma {:induction false} ShlTwice(v: nat, n: nat, m: nat)
    ensures Shl(Shl(v, n), m) == Shl(v, n + m)
  {
    if m > 0 { ShlTwice(v, n, m - 1); }
  }

  lemma ShlSeven(v: nat, n: nat)
    ensures Shl(v, n + 7) == Shl(128 * v, n)
  {
    ShlTwice(v, 7, n);
    assert Shl(v, 1) == 2 * v;
    assert Shl(v, 2) == 2 * Shl(v, 1);
    assert Shl(v, 3) == 2 * Shl(v, 2);
    assert Shl(v, 4) == 2 * Shl(v, 3);
    assert Shl(v, 5) == 2 * Shl(v, 4);
    assert Shl(v, 6) == 2 * Shl(v, 5);
  }

  /** How a varint read that has accumulated `low` from its first bytes continues on the rest of the input. */
  ghost function Continue(low: nat, bitpos: nat, p: Parse<nat>): Parse<nat> {
    match p
    case Fail => Fail
    case Done(v, r) => Done(low + Shl(v, bitpos), r)
  }

  lemma ShlDigits(x: nat, v: nat, n: nat)
    ensures Shl(x + 128 * v, n) == Shl(x, n) + Shl(v, n + 7)
  {
    ShlSeven(v, n);
    ShlAdd(x, 128 * v, n);
  }

  /** Seven more bits stay below the next position: the bits or-ed in never overlap. */
  lemma ShlBound(low: nat, x: nat, n: nat)
    requires low < Shl(1, n) && x < 128
    ensures low + Shl(x, n) < Shl(1, n + 7)
  {
    ShlSeven(1, n);
    ShlAdd(1, x, n);
    ShlAdd(x + 1, 127 - x, n);
  }

  /** Reading one byte of a varint. */
  lemma ContinueStep(low: nat, bitpos: nat, s: seq<byte>, max: nat)
    requires max > 0 && s != []
    ensures var next := low + Shl(s[0] % 128, bitpos);
            Continue(low, bitpos, ReadVarint(s, max)) ==
            if s[0] < 128 then Done(next, s[1..]) else Continue(next, bitpos + 7, ReadVarint(s[1..], max - 1))
  {
    if s[0] >= 128 {
      var p := ReadVarint(s[1..], max - 1);
      if p.Done? { ShlDigits(s[0] % 128, p.value, bitpos); }
    }
  }

  /** The low bits of a word of m values. */
  function Word64(x: nat): nat { x % TWO_64 }

  function Word32(x: nat): nat { x % TWO_32 }

  lemma Accumulate64(low: nat, y: nat)
    ensures Word64(Word64(low) + y) == Word64(low + y)
  {
    var q, r := low / TWO_64, low % TWO_64;
    assert low + y == r + y + TWO_64 * q;
    assert (r + y + TWO_64 * q) % TWO_64 == (r + y) % TWO_64;
  }

  lemma Accumulate32(low: nat, y: nat)
    ensures Word32(Word32(low) + y) == Word32(low + y)
  {
    var q, r := low / TWO_32, low % TWO_32;
    assert low + y == r + y + TWO_32 * q;
    assert (r + y + TWO_32 * q) % TWO_32 == (r + y) % TWO_32;
  }

  /** Invariant of the byte loops: after n bytes worth `low`, the reading of s continues on `rem`. */
  ghost predicate Reading(s: seq<byte>, max: nat, n: nat, low: nat, rem: seq<byte>) {
    && n <= max
    && low < Shl(1, 7 * n)
    && ReadVarint(s, max) == Continue(low, 7 * n, ReadVarint(rem, max - n))
  }

  lemma ReadingStep(s: seq<byte>, max: nat, n: nat, low: nat, rem: seq<byte>)
    requires Reading(s, max, n, low, rem) && n < max && rem != []
    ensures var next := low + Shl(rem[0] % 128, 7 * n);
            if rem[0] < 128 then ReadVarint(s, max) == Done(next, rem[1..])
            else Reading(s, max, n + 1, next, rem[1..])
  {
    ContinueStep(low, 7 * n, rem, max - n);
    ShlBound(low, rem[0] % 128, 7 * n);
    assert 7 * n + 7 == 7 * (n + 1);
  }

  lemma ReadingStart(s: seq<byte>, max: nat)
    ensures Reading(s, max, 0, 0, s)
  {
  }

  lemma ReadingFails(s: seq<byte>, max: nat, n: nat, low: nat, rem: seq<byte>)
    requires Reading(s, max, n, low, rem) && (n == max || rem == [])
    ensures ReadVarint(s, max).Fail?
  {
  }

  /** Where a stream stands: its end, and how much of it is left. */
  datatype Cursor = Cursor(end: nat, left: nat)

  /** A successful read keeps the end and moves forward; a failed one may lose the rest of a substream. */
  predicate Forward(ok: bool, a: Cursor, b: Cursor) {
    b.end <= a.end && (ok ==> b.end == a.end && b.left <= a.left)
  }

  class IStream {
    const buf: seq<byte>
    var state: nat
    var bytesLeft: nat

    ghost predicate Valid()
      reads this
    {
      state + bytesLeft <= |buf|
    }

    /** The bytes this stream may still read. */
    ghost function Rem(): (s: seq<byte>)
      requires Valid()
      reads this
      ensures |s| == bytesLeft
    {
      buf[state..state + bytesLeft]
    }

    /** Position plus remaining length: where this stream ends. */
    ghost function End(): nat
      reads this
    {
      state + bytesLeft
    }

    ghost function At(): Cursor
      reads this
    {
      Cursor(End(), bytesLeft)
    }

    /** pb_istream_from_buffer, and the copy of a stream with its own limit. */
    constructor (buf: seq<byte>, state: nat, bytesLeft: nat)
      requires state + bytesLeft <= |buf|
      ensures Valid() && this.buf == buf && this.state == state && this.bytesLeft == bytesLeft
    {
      this.buf, this.state, this.bytesLeft := buf, state, bytesLeft;
    }

    /** pb_read. */
    method Read(count: nat) returns (ok: bool, data: seq<byte>)
      requires Valid()
      modifies this
      ensures Valid() && End() == old(End())
      ensures ok == Take(old(Rem()), count).Done?
      ensures ok ==> Take(old(Rem()), count) == Done(data, Rem())
      ensures !ok ==> bytesLeft == old(bytesLeft)
    {
      if bytesLeft < count {
        return false, [];
      }
      data := buf[state..state + count];
      assert Rem()[..count] == data && Rem()[count..] == buf[state + count..state + bytesLeft];
      state, bytesLeft := state + count, bytesLeft - count;
      ok := true;
    }

    /** pb_readbyte. */
    method ReadByte() returns (ok: bool, b: byte)
      requires Valid()
      modifies this
      ensures Valid() && End() == old(End())
      ensures ok == (old(bytesLeft) > 0)
      ensures ok ==> b == old(Rem())[0] && Rem() == old(Rem())[1..]
      ensures !ok ==> bytesLeft == 0
    {
      if bytesLeft == 0 {
        return false, 0;
      }
      ok, b := true, buf[state];
      state, bytesLeft := state + 1, bytesLeft - 1;
    }

    /** pb_decode_varint: the byte loop computes the reference reading, in at most ten bytes. */
    method DecodeVarint() returns (ok: bool, value: nat)
      requires Valid()
      modifies this
      ensures Valid() && End() == old(End())
      ensures ok == ReadVarint64(old(Rem())).Done?
      ensures ok ==> ReadVarint64(old(Rem())) == Done(value, Rem())
    {
      ghost var s := Rem();
      ghost var low: nat, n: nat := 0, 0;
      ReadingStart(s, 10);
      var bitpos, result, more := 0, 0, true;
      while more
        invariant Valid() && End() == old(End())
        invariant more ==> Reading(s, 10, n, low, Rem()) && bitpos == 7 * n
        invariant !more ==> ReadVarint(s, 10) == Done(low, Rem())
        invariant result == Word64(low)
        decreases if more then 1 else 0, bytesLeft
      {
        ghost var rem := Rem();
        if bitpos >= 64 {
          ReadingFails(s, 10, n, low, rem);
          return false, 0;
        }
        var got, b := ReadByte();
        if !got {
          ReadingFails(s, 10, n, low, rem);
          return false, 0;
        }
        ReadingStep(s, 10, n, low, rem);
        Accumulate64(low, Shl(b % 128, bitpos));
        result := Word64(result + Shl(b % 128, bitpos));
        low, n := low + Shl(b % 128, bitpos), n + 1;
        bitpos := bitpos + 7;
        more := b >= 128;
      }
      return true, result;
    }

    /** pb_decode_varint32, with its one-byte quick case. */
    method DecodeVarint32() returns (ok: bool, value: nat)
      requires Valid()
      modifies this
      ensures Valid() && End() == old(End())
      ensures ok == ReadVarint32(old(Rem())).Done?
      ensures ok ==> ReadVarint32(old(Rem())) == Done(value, Rem())
      ensures !ok ==> (bytesLeft == 0 <==> old(bytesLeft) <= MAX_BYTES_32)
    {
      ghost var s := Rem();
      var b;
      ok, b := ReadByte();
      if !ok {
        return false, 0;
      }
      ReadingStart(s, 5);
      ReadingStep(s, 5, 0, 0, s);
      if b < 128 {
        return true, b;
      }
      ok, value := DecodeVarint32More(b, s);
    }

    /** The multibyte case, after a first byte with its continuation bit set. */
    method DecodeVarint32More(first: byte, ghost s: seq<byte>) returns (ok: bool, value: nat)
      requires Valid() && first >= 128
      requires Reading(s, 5, 1, first % 128, Rem()) && |s| == 1 + bytesLeft
      modifies this
      ensures Valid() && End() == old(End())
      ensures ok == ReadVarint(s, 5).Done?
      ensures ok ==> value == Word32(ReadVarint(s, 5).value) && Rem() == ReadVarint(s, 5).rest
      ensures !ok ==> (bytesLeft == 0 <==> |s| <= 5)
    {
      ghost var low: nat, n: nat := first % 128, 1;
      var bitpos, result, more := 7, first % 128, true;
      while more
        invariant Valid() && End() == old(End())
        invariant more ==> Reading(s, 5, n, low, Rem()) && bitpos == 7 * n && |s| == n + bytesLeft
        invariant !more ==> ReadVarint(s, 5) == Done(low, Rem())
        invariant result == Word32(low)
        decreases if more then 1 else 0, bytesLeft
      {
        ghost var rem := Rem();
        if bitpos >= 32 {
          ReadingFails(s, 5, n, low, rem);
          return false, 0;
        }
        var got, b := ReadByte();
        if !got {
          ReadingFails(s, 5, n, low, rem);
          return false, 0;
        }
        ReadingStep(s, 5, n, low, rem);
        Accumulate32(low, Shl(b % 128, bitpos));
        result := Word32(result + Shl(b % 128, bitpos));
        low, n := low + Shl(b % 128, bitpos), n + 1;
        bitpos := bitpos + 7;
        more := b >= 128;
      }
      return true, result;
    }

    /** pb_decode_tag. */
    method DecodeTag() returns (ok: bool, eof: bool, wire: nat, tag: nat)
      requires Valid() && bytesLeft > 0
      modifies this
      ensures Valid() && End() == old(End())
      ensures match ReadTag(old(Rem()))
              case Eof(rest) => !ok && eof && Rem() == rest
              case BadTag => !ok && !eof
              case Tag(t, w, rest) => ok && tag == t && wire == w && Rem() == rest
    {
      var temp;
      ok, temp := DecodeVarint32();
      eof, wire, tag := false, 0, 0;
      if !ok {
        if bytesLeft == 0 {
          eof := true;
        }
        return;
      }
      if temp == 0 {
        return false, true, 0, 0;
      }
      tag, wire := temp / 8, temp % 8;
    }

    /** pb_skip_varint. */
    method SkipOneVarint() returns (ok: bool)
      requires Valid()
      modifies this
      ensures Valid() && End() == old(End())
      ensures ok == SkipVarint(old(Rem())).Done?
      ensures ok ==> Rem() == SkipVarint(old(Rem())).rest
    {
      ghost var s := Rem();
      var b := 128;
      while b >= 128
        invariant Valid() && End() == old(End()) && 0 <= b < 256
        invariant b >= 128 ==> SkipVarint(s) == SkipVarint(Rem())
        invariant b < 128 ==> SkipVarint(s) == Done((), Rem())
        decreases if b >= 128 then 1 else 0, bytesLeft
      {
        var got;
        got, b := ReadByte();
        if !got {
          return false;
        }
      }
      return true;
    }

    /** pb_skip_string. */
    method SkipString() returns (ok: bool)
      requires Valid()
      modifies this
      ensures Valid() && End() == old(End())
      ensures ok == TakeDelimited(old(Rem())).Done?
      ensures ok ==> Rem() == TakeDelimited(old(Rem())).rest
    {
      var length;
      ok, length := DecodeVarint32();
      if ok {
        var data;
        ok, data := Read(length);
      }
    }

    /** pb_skip_field. */
    method Skip(wire: nat) returns (ok: bool)
      requires Valid()
      modifies this
      ensures Valid() && End() == old(End())
      ensures ok == SkipField(wire, old(Rem())).Done?
      ensures ok ==> Rem() == SkipField(wire, old(Rem())).rest
    {
      var data;
      match wire
      case 0 => ok := SkipOneVarint();
      case 1 => ok, data := Read(8);
      case 2 => ok := SkipString();
      case 5 => ok, data := Read(4);
      case _ => ok := false;
    }

    /**
     pb_make_string_substream: a substream over the delimited bytes. Until it is closed this stream
     stands right behind the length prefix, but no longer counts the delimited bytes as its own.
     */
    method MakeSubstream() returns (ok: bool, sub: IStream)
      requires Valid()
      modifies this
      ensures fresh(sub) && sub.Valid() && Valid() && End() <= old(End())
      ensures ok ==> sub.buf == buf
      ensures ok == TakeDelimited(old(Rem())).Done?
      ensures ok ==> TakeDelimited(old(Rem())).value == sub.Rem()
      ensures ok ==> sub.state == state && sub.End() + bytesLeft == old(End()) && sub.End() + bytesLeft <= |buf|
      ensures ok ==> buf[sub.End()..sub.End() + bytesLeft] == TakeDelimited(old(Rem())).rest
    {
      var size;
      ok, size := DecodeVarint32();
      if !ok || bytesLeft < size {
        sub := new IStream([], 0, 0);
        return false, sub;
      }
      sub := new IStream(buf, state, size);
      ghost var r := Rem();
      assert r[..size] == sub.Rem() && r[size..] == buf[state + size..state + bytesLeft];
      bytesLeft := bytesLeft - size;
    }

    /** pb_close_string_substream: whatever the inner decoder left unread is skipped. */
    method CloseSubstream(sub: IStream)
      requires sub != this && sub.Valid() && sub.buf == buf
      requires sub.End() + bytesLeft <= |buf|
      modifies this, sub
      ensures Valid() && state == old(sub.End()) && bytesLeft == old(bytesLeft)
      ensures Rem() == buf[old(sub.End())..old(sub.End()) + bytesLeft]
    {
      if sub.bytesLeft > 0 {
        var ok, rest := sub.Read(sub.bytesLeft);
      }
      state := sub.state;
    }
  }
}
