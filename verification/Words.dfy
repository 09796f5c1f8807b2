/** Machine words as mathematical integers: every truncation of the C code is an explicit `%`. */
module Words {
  const TWO_8 := 0x100
  const TWO_16 := 0x1_0000
  const TWO_32 := 0x1_0000_0000
  const TWO_64 := 0x1_0000_0000_0000_0000

  /** PB_SIZE_MAX under PB_FIELD_32BIT, the configuration the application is built with. */
  const PB_SIZE_MAX := TWO_32 - 1

  type byte = b: int | 0 <= b < 256

  datatype Option<+T> = None | Some(value: T)

  /** Outcome of reading from the front of an input: a value and what is left of the input. */
  datatype Parse<+T> = Fail | Done(value: T, rest: seq<byte>)

  function Zeros(n: nat): (bs: seq<byte>)
    ensures |bs| == n
    ensures forall i :: 0 <= i < n ==> bs[i] == 0
  {
    seq(n, i => 0)
  }

  /** The casts to int8_t, int16_t, int32_t and int64_t: two's complement reading of the low bits. */
  function Signed8(x: int): (r: int)
    ensures -0x80 <= r < 0x80
  {
    var y := x % TWO_8;
    if y < 0x80 then y else y - TWO_8
  }

  function Signed16(x: int): (r: int)
    ensures -0x8000 <= r < 0x8000
  {
    var y := x % TWO_16;
    if y < 0x8000 then y else y - TWO_16
  }

  function Signed32(x: int): (r: int)
    ensures -0x8000_0000 <= r < 0x8000_0000
  {
    var y := x % TWO_32;
    if y < 0x8000_0000 then y else y - TWO_32
  }

  function Signed64(x: int): (r: int)
    ensures -0x8000_0000_0000_0000 <= r < 0x8000_0000_0000_0000
  {
    var y := x % TWO_64;
    if y < 0x8000_0000_0000_0000 then y else y - TWO_64
  }

  /** Widening a 32-bit value to a 64-bit word and casting back is the identity. */
  lemma WidenAndCast32(x: int)
    requires -0x8000_0000 <= x < 0x8000_0000
    ensures Signed32(x % TWO_64) == x
  {
    if x < 0 {
      assert x % TWO_64 == x + TWO_64;
      assert (x + TWO_64) % TWO_32 == x + TWO_32;
    }
  }
}
