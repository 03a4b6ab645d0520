/** The Sensirion CRC-8 that guards every 16-bit word on the wire:
    polynomial 0x31, initial value 0xFF, bits taken most significant first. */
module Crc {
  import opened Js

  const POLYNOMIAL: bv8 := 0x31
  const INIT: bv8 := 0xFF
  /** Declared by the driver next to the two constants above, but never applied. */
  const FINAL_XOR: bv8 := 0xFF

  /** One step of the register: shift left, folding in the polynomial when
      the bit shifted out was set. */
  function Shift(c: bv8): bv8 {
    if c & 0x80 != 0 then (c << 1) ^ POLYNOMIAL else c << 1
  }

  /** Read as polynomials over GF(2), a step multiplies the register by x
      and reduces modulo the generator x^8 + x^5 + x^4 + 1 (0x131): the
      shifted register and the result differ by the generator or by
      nothing. */
  lemma ShiftMulX(c: bv8)
    ensures ((c as bv16) << 1) ^ (Shift(c) as bv16) == if c & 0x80 != 0 then 0x131 else 0
  {
  }

  function ShiftN(c: bv8, n: nat): bv8 {
    if n == 0 then c else Shift(ShiftN(c, n - 1))
  }

  /** What the register holds after one input byte. The step is linear: the
      register and the byte contribute independently, combined by XOR. */
  function ByteStep(c: bv8, b: bv8): bv8
  {
    ShiftN(c ^ b, 8)
  }

  /** The register after the bytes of `data`, starting from `c` (a left fold). */
  function CrcFrom(c: bv8, data: seq<bv8>): bv8 {
    if data == [] then c else ByteStep(CrcFrom(c, data[..|data| - 1]), data[|data| - 1])
  }

  /** The checksum of `data`, the register masked to 8 bits after every step. */
  function Crc8(data: seq<bv8>): bv8 {
    CrcFrom(INIT, data)
  }

  lemma ShiftXor(x: bv8, y: bv8)
    ensures Shift(x ^ y) == Shift(x) ^ Shift(y)
  {
    assert ((x ^ y) & 0x80 != 0) == ((x & 0x80 != 0) != (y & 0x80 != 0));
    assert (x ^ y) << 1 == (x << 1) ^ (y << 1);
  }

  /** Shifting is linear over GF(2), for any number of steps. */
  lemma {:induction false} ShiftNXor(x: bv8, y: bv8, n: nat)
    ensures ShiftN(x ^ y, n) == ShiftN(x, n) ^ ShiftN(y, n)
  {
    if n > 0 {
      ShiftNXor(x, y, n - 1);
      ShiftXor(ShiftN(x, n - 1), ShiftN(y, n - 1));
    }
  }

  lemma {:induction false} ShiftNAdd(c: bv8, m: nat, n: nat)
    ensures ShiftN(ShiftN(c, m), n) == ShiftN(c, m + n)
  {
    if n > 0 {
      ShiftNAdd(c, m, n - 1);
    }
  }

  lemma ByteStepOfSum(k: bv8, z: bv8, b: bv8)
    ensures ByteStep(k ^ z, b) == ShiftN(k, 8) ^ ByteStep(z, b)
  {
    assert k ^ z ^ b == k ^ (z ^ b);
    ShiftNXor(k, z ^ b, 8);
  }

  lemma AffineStep(c: bv8, z: bv8, r: bv8, b: bv8, m: nat)
    requires r == ShiftN(c, m) ^ z
    ensures ByteStep(r, b) == ShiftN(c, m + 8) ^ ByteStep(z, b)
  {
    ByteStepOfSum(ShiftN(c, m), z, b);
    ShiftNAdd(c, m, 8);
  }

  /** The register after some data is the starting register's own
      contribution XOR the data's contribution from a zero register. With
      the start 0xFF this says that the checksum is affine in the data. */
  lemma {:induction false} CrcFromAffine(c: bv8, data: seq<bv8>)
    ensures CrcFrom(c, data) == ShiftN(c, 8 * |data|) ^ CrcFrom(0, data)
  {
    if data != [] {
      var init, b := data[..|data| - 1], data[|data| - 1];
      CrcFromAffine(c, init);
      AffineStep(c, CrcFrom(0, init), CrcFrom(c, init), b, 8 * |init|);
      assert 8 * |init| + 8 == 8 * |data|;
    }
  }

  /** Appending a byte to the data takes the register one ByteStep further. */
  lemma CrcFromSnoc(c: bv8, data: seq<bv8>, b: bv8)
    ensures CrcFrom(c, data + [b]) == ByteStep(CrcFrom(c, data), b)
  {
    assert (data + [b])[..|data|] == data;
  }

  /** The checksum of a two-byte word, one ByteStep per byte. */
  lemma Crc8OfWord(hi: bv8, lo: bv8)
    ensures Crc8([hi, lo]) == ByteStep(ByteStep(INIT, hi), lo)
  {
    CrcFromSnoc(INIT, [], hi);
    CrcFromSnoc(INIT, [hi], lo);
    assert [hi] + [lo] == [hi, lo];
  }

  /** The check value of the SGP30 datasheet: the checksum of 0xBE 0xEF is
      0x92, and it would not be had FINAL_XOR been applied. */
  lemma DatasheetCheckValue()
    ensures Crc8([0xBE, 0xEF]) == 0x92
    ensures Crc8([0xBE, 0xEF]) ^ FINAL_XOR != 0x92
  {
    Crc8OfWord(0xBE, 0xEF);
    assert ByteStep(INIT, 0xBE) == 0x0C by {
      assert ShiftN(0x41, 1) == 0x82;
      assert ShiftN(0x41, 2) == 0x35;
      assert ShiftN(0x41, 3) == 0x6A;
      assert ShiftN(0x41, 4) == 0xD4;
      assert ShiftN(0x41, 5) == 0x99;
      assert ShiftN(0x41, 6) == 0x03;
      assert ShiftN(0x41, 7) == 0x06;
    }
    assert ByteStep(0x0C, 0xEF) == 0x92 by {
      assert ShiftN(0xE3, 1) == 0xF7;
      assert ShiftN(0xE3, 2) == 0xDF;
      assert ShiftN(0xE3, 3) == 0x8F;
      assert ShiftN(0xE3, 4) == 0x2F;
      assert ShiftN(0xE3, 5) == 0x5E;
      assert ShiftN(0xE3, 6) == 0xBC;
      assert ShiftN(0xE3, 7) == 0x49;
    }
  }

  lemma ShiftInjective(x: bv8, y: bv8)
    ensures Shift(x) == Shift(y) ==> x == y
  {
  }

  lemma {:induction false} ShiftNInjective(x: bv8, y: bv8, n: nat)
    ensures ShiftN(x, n) == ShiftN(y, n) ==> x == y
  {
    if n > 0 {
      ShiftInjective(ShiftN(x, n - 1), ShiftN(y, n - 1));
      ShiftNInjective(x, y, n - 1);
    }
  }

  /** A ByteStep is one-to-one in the register and in the input byte. */
  lemma ByteStepInjective(c: bv8, b: bv8, c': bv8, b': bv8)
    requires c == c' || b == b'
    ensures ByteStep(c, b) == ByteStep(c', b') ==> c == c' && b == b'
  {
    if ByteStep(c, b) == ByteStep(c', b') {
      ShiftNInjective(c ^ b, c' ^ b', 8);
      XorCancel(c, b, c', b');
    }
  }

  lemma XorCancel(c: bv8, b: bv8, c': bv8, b': bv8)
    requires c == c' || b == b'
    requires c ^ b == c' ^ b'
    ensures c == c' && b == b'
  {
  }

  /** Error detection: a word whose high byte or low byte (but not both) was
      altered in any way, a single flipped bit included, gets a different
      checksum. */
  lemma Crc8DetectsByteError(hi: bv8, lo: bv8, hi': bv8, lo': bv8)
    requires (hi == hi') != (lo == lo')
    ensures Crc8([hi', lo']) != Crc8([hi, lo])
  {
    Crc8OfWord(hi, lo);
    Crc8OfWord(hi', lo');
    ByteStepInjective(INIT, hi, INIT, hi');
    ByteStepInjective(ByteStep(INIT, hi), lo, ByteStep(INIT, hi'), lo');
  }

  /** The low byte of the 32-bit register after one unmasked shift step is
      the masked step applied to its low byte. */
  lemma Shift32Low(c: bv32)
    ensures ((if c & 0x80 != 0 then (c << 1) ^ 0x31 else c << 1) & 0xFF) as bv8
            == Shift((c & 0xFF) as bv8)
  {
  }

  lemma Xor32Low(c: bv32, d: bv32)
    ensures ((c ^ d) & 0xFF) as bv8 == ((c & 0xFF) as bv8) ^ ((d & 0xFF) as bv8)
  {
  }

  /** generateCrc: the register is a JavaScript number, so every operator
      acts on 32 bits and the mask to 8 bits comes once, at the end. The
      result is the checksum computed with a mask after every step, taken
      over the low bytes of the inputs. */
  method GenerateCrc(data: seq<int>) returns (r: int)
    ensures 0 <= r < 256
    ensures r == Crc8(ToUint8s(data)) as int
  {
    var crc: bv32 := INIT as bv32;
    for j := 0 to |data|
      invariant (crc & 0xFF) as bv8 == Crc8(ToUint8s(data[..j]))
    {
      ghost var before := (crc & 0xFF) as bv8;
      Bits32LowByte(data[j]);
      Xor32Low(crc, Bits32(data[j]));
      crc := crc ^ Bits32(data[j]);
      ghost var start := (crc & 0xFF) as bv8;
      for k := 0 to 8
        invariant (crc & 0xFF) as bv8 == ShiftN(start, k)
      {
        Shift32Low(crc);
        if crc & 0x80 != 0 {
          crc := (crc << 1) ^ (POLYNOMIAL as bv32);
        } else {
          crc := crc << 1;
        }
      }
      ToUint8sSnoc(data, j);
      CrcFromSnoc(INIT, ToUint8s(data[..j]), ToUint8(data[j]));
    }
    assert data[..|data|] == data;
    r := (crc & 0xFF) as int;
  }
}
