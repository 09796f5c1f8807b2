/** pb_ostream_t: writing into a buffer window, or only counting. */
module OutputStream {
  import opened Words
  import opened EncodeSpec

  /** What of a stream changes while it is written to. */
  datatype Snap = Snap(state: nat, written: nat, mem: seq<byte>)

  /** The window a bounded stream may write to. */
  ghost predicate InWindow(max: nat, s: Snap) {
    s.written <= max && s.state + (max - s.written) <= |s.mem|
  }

  /**
   The effect of writing `out` from s0 to s1. A sizing stream only counts, and fails only where the encoder
   itself reports an error. A bounded stream succeeds if and only if `out` fits what is left of its window;
   then exactly those bytes change, and on failure nothing outside the window does.
   */
  ghost predicate Emits(sizing: bool, max: nat, s0: Snap, s1: Snap, out: Option<seq<byte>>, ok: bool) {
    if sizing then
      && s1.mem == s0.mem
      && ok == out.Some?
      && (ok ==> s1.written == s0.written + |out.value|)
    else
      && InWindow(max, s0) && InWindow(max, s1) && |s1.mem| == |s0.mem|
      && (ok <==> out.Some? && s0.written + |out.value| <= max)
      && (ok ==> s1 == Snap(s0.state + |out.value|, s0.written + |out.value|,
                            s0.mem[..s0.state] + out.value + s0.mem[s0.state + |out.value|..]))
      && (!ok ==> Outside(max, s0, s1.mem))
  }

  /** Memory outside s0's window is as it was. */
  ghost predicate Outside(max: nat, s0: Snap, mem: seq<byte>)
    requires InWindow(max, s0) && |mem| == |s0.mem|
  {
    && mem[..s0.state] == s0.mem[..s0.state]
    && mem[s0.state + (max - s0.written)..] == s0.mem[s0.state + (max - s0.written)..]
  }

  lemma EmitsNothing(sizing: bool, max: nat, s: Snap)
    requires !sizing ==> InWindow(max, s)
    ensures Emits(sizing, max, s, s, Some([]), true)
  {
    if !sizing {
      assert s.mem[..s.state] + [] + s.mem[s.state..] == s.mem;
    }
  }

  /** Writing a, then b, is writing a + b. */
  lemma EmitsBoth(sizing: bool, max: nat, s0: Snap, s1: Snap, s2: Snap, a: Option<seq<byte>>, b: Option<seq<byte>>, ok: bool)
    requires Emits(sizing, max, s0, s1, a, true) && Emits(sizing, max, s1, s2, b, ok)
    ensures Emits(sizing, max, s0, s2, Cat(a, b), ok)
  {
    if !sizing {
      var m0, m1, n := s0.mem, s1.mem, s0.state;
      assert m1[..n] == m0[..n];
      if ok {
        var k, l := |a.value|, |b.value|;
        assert m1[..n + k] == m0[..n] + a.value;
        assert m1[n + k + l..] == m0[n + k + l..];
        assert s2.mem == m0[..n] + (a.value + b.value) + m0[n + k + l..];
      } else {
        OutsideBoth(max, s0, s1, s2, a.value);
      }
    }
  }

  lemma OutsideBoth(max: nat, s0: Snap, s1: Snap, s2: Snap, a: seq<byte>)
    requires InWindow(max, s0) && InWindow(max, s1) && |s2.mem| == |s1.mem| == |s0.mem|
    requires s0.written + |a| <= max
    requires s1 == Snap(s0.state + |a|, s0.written + |a|, s0.mem[..s0.state] + a + s0.mem[s0.state + |a|..])
    requires Outside(max, s1, s2.mem)
    ensures Outside(max, s0, s2.mem)
  {
    var n, e := s0.state, s0.state + (max - s0.written);
    assert e == s1.state + (max - s1.written);
    assert s2.mem[..n] == s2.mem[..s1.state][..n] == s1.mem[..s1.state][..n] == s0.mem[..n];
    assert s1.mem[e..] == s0.mem[e..];
  }

  /** An error in the first part is an error in the whole. */
  lemma EmitsFails(sizing: bool, max: nat, s0: Snap, s1: Snap, a: Option<seq<byte>>, b: Option<seq<byte>>)
    requires Emits(sizing, max, s0, s1, a, false)
    ensures Emits(sizing, max, s0, s1, Cat(a, b), false)
  {
  }

  class OStream {
    const sizing: bool  // no callback: bytes are only counted
    const buf: array<byte>
    const maxSize: nat
    var state: nat
    var bytesWritten: nat

    ghost function Now(): Snap
      reads this, buf
    {
      Snap(state, bytesWritten, buf[..])
    }

    ghost predicate Valid()
      reads this, buf
    {
      !sizing ==> InWindow(maxSize, Now())
    }

    /** pb_ostream_from_buffer, and the bounded substream of pb_encode_submessage. */
    constructor Window(buf: array<byte>, state: nat, maxSize: nat)
      requires state + maxSize <= buf.Length
      ensures Valid() && !sizing && this.buf == buf && this.maxSize == maxSize
      ensures Now() == Snap(state, 0, buf[..])
    {
      sizing, this.buf, this.maxSize, this.state, bytesWritten := false, buf, maxSize, state, 0;
    }

    /** PB_OSTREAM_SIZING. */
    constructor Sizing()
      ensures Valid() && sizing && bytesWritten == 0 && fresh(buf)
    {
      sizing, maxSize, state, bytesWritten := true, 0, 0, 0;
      buf := new byte[0];
    }

    /** The copy loop of buf_write. */
    method Copy(data: seq<byte>)
      requires state + |data| <= buf.Length
      modifies buf
      ensures buf[..] == old(buf[..state]) + data + old(buf[state + |data|..])
    {
      ghost var mem := buf[..];
      for i := 0 to |data|
        invariant buf[..] == mem[..state] + data[..i] + mem[state + i..]
      {
        buf[state + i] := data[i];
      }
      assert data[..|data|] == data;
    }

    /** pb_write. */
    method Write(data: seq<byte>) returns (ok: bool)
      requires Valid()
      modifies this, buf
      ensures Valid() && Emits(sizing, maxSize, old(Now()), Now(), Some(data), ok)
    {
      if !sizing {
        if bytesWritten + |data| > maxSize {
          return false;
        }
        Copy(data);
        state := state + |data|;
      }
      bytesWritten := bytesWritten + |data|;
      return true;
    }

    /** pb_write(stream, NULL, size) on a sizing stream. */
    method Count(ghost data: seq<byte>, size: nat)
      requires Valid() && sizing && size == |data|
      modifies this
      ensures Valid() && Emits(sizing, maxSize, old(Now()), Now(), Some(data), true)
    {
      bytesWritten := bytesWritten + size;
    }
  }
}
