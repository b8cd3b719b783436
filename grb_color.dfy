/**
 * The decoded LED colour (GRB_Color) and the most-significant-bit-first
 * reading of eight decoded bits as one colour byte.
 */
module GrbColor {

  type uint8 = x: int | 0 <= x < 0x100

  /** One LED's colour, in the order the wire carries it: green, red, blue. */
  datatype Color = Color(g: uint8, r: uint8, b: uint8)

  function Pow2(n: nat): (p: nat)
    ensures p >= 1
  {
    if n == 0 then 1 else 2 * Pow2(n - 1)
  }

  /** The value of a bit string read most significant bit first. */
  function BitsValue(bits: seq<bool>): (v: nat)
    ensures v < Pow2(|bits|)
  {
    if bits == [] then 0
    else 2 * BitsValue(bits[..|bits| - 1]) + (if bits[|bits| - 1] then 1 else 0)
  }

  /** The `n` low bits of `x`, most significant first. */
  function NatBits(x: nat, n: nat): (bits: seq<bool>)
    ensures |bits| == n
  {
    if n == 0 then [] else NatBits(x / 2, n - 1) + [x % 2 == 1]
  }

  /** `x` shifted right by `k` bits. */
  function Shr(x: nat, k: nat): nat
  {
    if k == 0 then x else Shr(x / 2, k - 1)
  }

  /** Bit `j` of NatBits(x, n), counted from the most significant end, is bit n-1-j of x. */
  lemma {:induction false} NatBitsAt(x: nat, n: nat, j: nat)
    requires j < n
    ensures NatBits(x, n)[j] == (Shr(x, n - 1 - j) % 2 == 1)
  {
    if j < n - 1 {
      NatBitsAt(x / 2, n - 1, j);
    }
  }

  /** Reading the bits of a number back gives the number. */
  lemma {:induction false} BitsValueOfNatBits(x: nat, n: nat)
    requires x < Pow2(n)
    ensures BitsValue(NatBits(x, n)) == x
  {
    if n > 0 {
      BitsValueOfNatBits(x / 2, n - 1);
      assert NatBits(x, n)[..n - 1] == NatBits(x / 2, n - 1);
    }
  }

  /** Writing out the bits of a value gives the bits back. */
  lemma {:induction false} NatBitsOfBitsValue(bits: seq<bool>)
    ensures NatBits(BitsValue(bits), |bits|) == bits
  {
    if bits != [] {
      var n := |bits|;
      var init := bits[..n - 1];
      NatBitsOfBitsValue(init);
      var v := BitsValue(bits);
      assert v / 2 == BitsValue(init);
      assert (v % 2 == 1) == bits[n - 1];
      assert bits == init + [bits[n - 1]];
    }
  }

  /** The eight bits of a colour byte, most significant first. */
  function ByteBits(x: uint8): (bits: seq<bool>)
    ensures |bits| == 8
  {
    NatBits(x, 8)
  }

  /** The colour byte whose bits, most significant first, are `bits`. */
  function ByteOf(bits: seq<bool>): uint8
    requires |bits| == 8
  {
    BitsValue(bits)
  }

  /** ByteOf and ByteBits are inverse: bits to byte and back. */
  lemma ByteBitsOfByteOf(bits: seq<bool>)
    requires |bits| == 8
    ensures ByteBits(ByteOf(bits)) == bits
  {
    NatBitsOfBitsValue(bits);
  }

  /** ByteOf and ByteBits are inverse: byte to bits and back. */
  lemma ByteOfByteBits(x: uint8)
    ensures ByteOf(ByteBits(x)) == x
  {
    BitsValueOfNatBits(x, 8);
  }

  /** A colour as 24 bits: green, red, blue, each most significant bit first. */
  function ColorBits(c: Color): (bits: seq<bool>)
    ensures |bits| == 24
  {
    ByteBits(c.g) + ByteBits(c.r) + ByteBits(c.b)
  }

  /** The colour carried by 24 consecutive bits. */
  function ColorOfBits(bits: seq<bool>): (c: Color)
    requires |bits| == 24
    ensures ColorBits(c) == bits
  {
    var c := Color(ByteOf(bits[..8]), ByteOf(bits[8..16]), ByteOf(bits[16..]));
    ByteBitsOfByteOf(bits[..8]);
    ByteBitsOfByteOf(bits[8..16]);
    ByteBitsOfByteOf(bits[16..]);
    assert bits == bits[..8] + bits[8..16] + bits[16..];
    c
  }

  lemma ColorOfColorBits(c: Color)
    ensures ColorOfBits(ColorBits(c)) == c
  {
    var bits := ColorBits(c);
    assert bits[..8] == ByteBits(c.g);
    assert bits[8..16] == ByteBits(c.r);
    assert bits[16..] == ByteBits(c.b);
    ByteOfByteBits(c.g);
    ByteOfByteBits(c.r);
    ByteOfByteBits(c.b);
  }

  /** A colour is determined by the 24 bits it is sent as. */
  lemma ColorBitsInjective(c: Color, d: Color)
    requires ColorBits(c) == ColorBits(d)
    ensures c == d
  {
    ColorOfColorBits(c);
    ColorOfColorBits(d);
  }

  /** The two most significant bits of a byte, as shifts. */
  lemma TopShifts(x: uint8)
    ensures Shr(x, 7) % 2 == 1 <==> x >= 0x80
    ensures Shr(x, 6) % 2 == (x / 0x40) % 2
  {
    var x1: nat := x / 2;
    var x2: nat := x1 / 2;
    var x3: nat := x2 / 2;
    var x4: nat := x3 / 2;
    var x5: nat := x4 / 2;
    var x6: nat := x5 / 2;
    assert x6 == x / 0x40;
    assert Shr(x, 6) == x6 by {
      assert Shr(x, 6) == Shr(x1, 5) == Shr(x2, 4) == Shr(x3, 3) == Shr(x4, 2) == Shr(x5, 1) == Shr(x6, 0);
    }
    assert Shr(x, 7) == x6 / 2 by {
      assert Shr(x, 7) == Shr(x1, 6) == Shr(x2, 5) == Shr(x3, 4) == Shr(x4, 3) == Shr(x5, 2) == Shr(x6, 1);
    }
  }

  /** The first and second transmitted bits of a colour are green's two top bits. */
  lemma LeadingBits(c: Color)
    ensures ColorBits(c)[0] == (c.g >= 0x80)
    ensures ColorBits(c)[1] == ((c.g / 0x40) % 2 == 1)
  {
    NatBitsAt(c.g, 8, 0);
    NatBitsAt(c.g, 8, 1);
    TopShifts(c.g);
    assert ColorBits(c)[0] == ByteBits(c.g)[0] && ColorBits(c)[1] == ByteBits(c.g)[1];
  }
}
