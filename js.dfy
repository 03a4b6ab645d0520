/** JavaScript number semantics that the driver relies on, written out over
    Dafny's unbounded integers. */
module Js {

  /** ToUint8: what storing a number into a byte buffer keeps of it. */
  function ToUint8(x: int): (b: bv8)
    ensures b as int == x % 256
  {
    (x % 256) as bv8
  }

  /** ToUint8 applied to every element, as filling a byte buffer does. */
  function ToUint8s(xs: seq<int>): (bs: seq<bv8>)
    ensures |bs| == |xs|
    ensures forall i :: 0 <= i < |xs| ==> bs[i] as int == xs[i] % 256
  {
    seq(|xs|, i requires 0 <= i < |xs| => ToUint8(xs[i]))
  }

  /** ToInt32: the signed 32-bit value a bitwise operator sees. */
  function ToInt32(x: int): (r: int)
    ensures -0x8000_0000 <= r < 0x8000_0000
    ensures (r - x) % 0x1_0000_0000 == 0
  {
    (x + 0x8000_0000) % 0x1_0000_0000 - 0x8000_0000
  }

  /** A 32-bit pattern for x, put together from the low byte of x and the
      24 bits above it. The checksum register keeps only its low byte,
      ToUint8(x) (Bits32LowByte), and that is all the model relies on. */
  function Bits32(x: int): bv32 {
    (((x / 256) % 0x100_0000) as bv32 << 8) | (ToUint8(x) as bv32)
  }

  /** `x >> 8`: an arithmetic shift of the 32-bit value. On a signed 32-bit
      value it is division by 256 rounded down, so -1 stays -1. */
  function ShiftRight8(x: int): (r: int)
    ensures -0x80_0000 <= r < 0x80_0000
    ensures -0x8000_0000 <= x < 0x8000_0000 ==> r * 256 <= x < r * 256 + 256
  {
    ToInt32(x) / 256
  }

  /** `x & 0xFF`: the low eight bits of x, which differ from x by a
      multiple of 256 and leave a byte unchanged. */
  function LowByte(x: int): (r: int)
    ensures 0 <= r < 256 && (x - r) % 256 == 0
    ensures 0 <= x < 256 ==> r == x
  {
    x % 256
  }

  /** String.fromCharCode of one argument: the UTF-16 code unit ToUint16(n).
      Code units that are surrogate halves are not characters in Dafny. */
  function FromCharCode(n: int): (c: char)
    requires !(0xD800 <= n % 0x1_0000 < 0xE000)
    ensures c as int == n % 0x1_0000
  {
    (n % 0x1_0000) as char
  }

  lemma DivMod256(x: int, q: int, r: int)
    requires 0 <= r < 256 && x == 256 * q + r
    ensures x / 256 == q && x % 256 == r
  {
  }

  lemma DivMod65536(x: int, q: int, r: int)
    requires 0 <= r < 0x1_0000 && x == 0x1_0000 * q + r
    ensures x / 0x1_0000 == q && x % 0x1_0000 == r
  {
  }

  /** Bits 8 to 15 of x, taken from x or from its low 16 bits. */
  lemma MiddleByte(x: int)
    ensures (x / 256) % 256 == (x % 0x1_0000) / 256
  {
    var q, r := x / 0x1_0000, x % 0x1_0000;
    DivMod256(x, 256 * q + r / 256, r % 256);
    DivMod256(x / 256, q, r / 256);
  }

  lemma LowByteOfLow16(x: int)
    ensures (x % 0x1_0000) % 256 == x % 256
  {
    DivMod256(x, 256 * (x / 0x1_0000) + (x % 0x1_0000) / 256, (x % 0x1_0000) % 256);
  }

  /** ToInt32 keeps the low 16 bits of its argument. */
  lemma ToInt32Low16(x: int)
    ensures ToInt32(x) % 0x1_0000 == x % 0x1_0000
  {
    var k := (ToInt32(x) - x) / 0x1_0000_0000;
    assert ToInt32(x) == x + k * 0x1_0000_0000;
    DivMod65536(ToInt32(x), x / 0x1_0000 + k * 0x1_0000, x % 0x1_0000);
  }

  /** What a byte buffer keeps of `x >> 8` is the high byte of the low 16
      bits of x, for every integer x, negative ones included. */
  lemma ShiftRight8Byte(x: int)
    ensures ShiftRight8(x) % 256 == (x % 0x1_0000) / 256
    ensures ToUint8(ShiftRight8(x)) == ((x % 0x1_0000) / 256) as bv8
  {
    MiddleByte(ToInt32(x));
    ToInt32Low16(x);
  }

  lemma ByteValue(x: int)
    requires 0 <= x < 256
    ensures (x as bv8) as int == x
  {
    DivMod256(x, 0, x);
    assert ToUint8(x) == x as bv8;
  }

  /** A byte that was widened to a number is kept whole by the buffer. */
  lemma ToUint8OfByte(c: bv8)
    ensures ToUint8(c as int) == c
  {
    var x := c as int;
    DivMod256(x, 0, x);
    assert (x as bv8) == c;
  }

  lemma ToUint8sSnoc(xs: seq<int>, j: nat)
    requires j < |xs|
    ensures ToUint8s(xs[..j + 1]) == ToUint8s(xs[..j]) + [ToUint8(xs[j])]
  {
  }

  /** The low byte of the pattern is what a byte buffer keeps of x. */
  lemma Bits32LowByte(x: int)
    ensures (Bits32(x) & 0xFF) as bv8 == ToUint8(x)
  {
  }
}
