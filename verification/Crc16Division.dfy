/** The checksum as schoolbook division of polynomials over two elements, with the bits in the order of transmission. */
module Crc16Division {
  import opened Crc16

  /** x^16 + x^15 + x^2 + 1 without its leading term, the coefficient of x^15 first. */
  const TAIL: bitstream := [true, false, false, false, false, false, false, false,
                            false, false, false, false, false, true, false, true]

  /** What is left of a dividend after its first bit: the divisor is taken away if that bit is set. */
  function TakeAway(u: bitstream): (r: bitstream)
    requires |u| > 16
    ensures |r| == |u| - 1
  {
    if u[0] then XorBits(u[1..17], TAIL) + u[17..] else u[1..]
  }

  function Remainder(u: bitstream): (r: bitstream)
    requires |u| >= 16
    ensures |r| == 16
    decreases |u|
  {
    if |u| == 16 then u else Remainder(TakeAway(u))
  }

  /** The bits of a word, the lowest first: the first to be sent stands for the highest power. */
  function Sixteen(c: bv16): (r: bitstream)
    ensures |r| == 16
  {
    LowBits(c, 16)
  }

  function Zeros(n: nat): (r: bitstream)
    ensures |r| == n
  {
    seq(n, _ => false)
  }

  /** The seed changes the first sixteen bits of the dividend. */
  function Seeded(c: bv16, u: bitstream): (r: bitstream)
    requires |u| >= 16
    ensures |r| == |u|
  {
    XorBits(Sixteen(c), u[..16]) + u[16..]
  }

  lemma HalfSixteen(c: bv16)
    ensures Sixteen(Half(c)) == Sixteen(c)[1..] + [false]
  {
    hide Half, Low, LowBits, Halves;
    NothingAbove(c);
    LowBitsSplit(c, 16, 1);
    OneMore(c, 16);
    OneMore(0, 0);
    Behind(LowBits(c, 16), LowBits(Half(c), 16), Low(c), false);
  }

  lemma OneMore(c: bv16, n: nat)
    ensures LowBits(c, n + 1) == [Low(c)] + LowBits(Half(c), n) && LowBits(c, 0) == []
  {
    hide Half, Low;
  }

  lemma Behind(a: bitstream, x: bitstream, first: bool, last: bool)
    requires a != [] && [first] + x == a + [last]
    ensures x == a[1..] + [last]
  {
    assert ([first] + x)[1..] == x;
  }

  lemma NothingAbove(c: bv16)
    ensures Halves(c, 16) == 0 && !Low(0) && LowBits(Half(0), 0) == []
  {
    hide Half, LowBits;
    EightBits(c);
    EightBits(c >> 8);
    HalvesTwice(c, 8, 8);
    AllGone(c);
  }

  lemma AllGone(c: bv16)
    ensures (c >> 8) >> 8 == 0
  {
  }

  lemma {:induction false} XorLowBits(a: bv16, b: bv16, n: nat)
    ensures LowBits(Xor(a, b), n) == XorBits(LowBits(a, n), LowBits(b, n))
    decreases n
  {
    hide Xor, Half, Low;
    if n > 0 {
      XorParts(a, b);
      XorLowBits(Half(a), Half(b), n - 1);
    }
  }

  lemma Polynomial()
    ensures Sixteen(POLYNOMIAL) == TAIL
  {
    var p := POLYNOMIAL;
    LowBitsSplit(p, 8, 8);
    EightBits(p);
    EightBits(p >> 8);
    FourInOrder(p);
    FourInOrder(p >> 4);
    FourInOrder(p >> 8);
    FourInOrder((p >> 8) >> 4);
  }

  lemma LowIsFirst(c: bv16, b: bool)
    ensures Low(Xor(c, Bit(b))) == (Sixteen(c)[0] != b)
    ensures Half(Xor(c, Bit(b))) == Half(c)
  {
    hide Low, Half, Xor, Bit, LowBits;
    OneMore(c, 15);
    LowestBit(c, b);
  }

  lemma LowestBit(c: bv16, b: bool)
    ensures Low(Xor(c, Bit(b))) == (Low(c) != b) && Half(Xor(c, Bit(b))) == Half(c)
  {
  }

  /** One bit of the register's division is one bit of the schoolbook's. */
  lemma ShiftDivides(c: bv16, u: bitstream)
    requires |u| > 16
    ensures TakeAway(Seeded(c, u)) == Seeded(Shift(Xor(c, Bit(u[0]))), u[1..])
  {
    hide LowBits, Xor, Half, Low, Bit;
    LowIsFirst(c, u[0]);
    HalfSixteen(c);
    Polynomial();
    XorLowBits(Half(c), POLYNOMIAL, 16);
    var d := Shift(Xor(c, Bit(u[0])));
    var h := Sixteen(c)[1..] + [false];
    assert Sixteen(d) == if Seeded(c, u)[0] then XorBits(h, TAIL) else h;
    Places(Sixteen(c), Sixteen(d), h, u);
  }

  /** The same, place by place. */
  lemma Places(c: bitstream, d: bitstream, h: bitstream, u: bitstream)
    requires |c| == |d| == 16 && |u| > 16 && h == c[1..] + [false]
    requires d == if c[0] != u[0] then XorBits(h, TAIL) else h
    ensures TakeAway(XorBits(c, u[..16]) + u[16..]) == XorBits(d, u[1..][..16]) + u[1..][16..]
  {
    var x := XorBits(c, u[..16]) + u[16..];
    var a, b := TakeAway(x), XorBits(d, u[1..][..16]) + u[1..][16..];
    forall i | 0 <= i < |a|
      ensures a[i] == b[i]
    {
      if i < 15 {
        assert x[i + 1] == (c[i + 1] != u[i + 1]);
      } else {
        assert x[i + 1] == u[i + 1];
      }
    }
  }

  /** From any seed the checksum is the remainder of the message with sixteen zeros behind it. */
  lemma {:induction false} CrcIsRemainder(c: bv16, s: bitstream)
    ensures Sixteen(CrcBits(c, s)) == Remainder(Seeded(c, s + Zeros(16)))
    decreases |s|
  {
    hide Sixteen, Shift, Xor, Bit;
    var u := s + Zeros(16);
    if s == [] {
      assert u == Zeros(16) && Seeded(c, u) == Sixteen(c);
    } else {
      ShiftDivides(c, u);
      CrcIsRemainder(Shift(Xor(c, Bit(s[0]))), s[1..]);
      assert u[1..] == s[1..] + Zeros(16);
    }
  }

  /** The octets of a message are sent one after the other, each with its lowest bit first. */
  lemma {:induction false} BitsInOrder(f: octets, j: nat)
    requires j < |f|
    ensures Bits(f)[8 * j..8 * j + 8] == [f[j] & 1 != 0, f[j] & 2 != 0, f[j] & 4 != 0, f[j] & 8 != 0,
                                          f[j] & 0x10 != 0, f[j] & 0x20 != 0, f[j] & 0x40 != 0, f[j] & 0x80 != 0]
  {
    hide OctetBits;
    if j == 0 {
      OctetInOrder(f[0]);
      assert Bits(f)[..8] == OctetBits(f[0]);
    } else {
      BitsInOrder(f[1..], j - 1);
      assert Bits(f)[8 * j..8 * j + 8] == Bits(f[1..])[8 * (j - 1)..8 * (j - 1) + 8];
    }
  }

  lemma OctetInOrder(b: bv8)
    ensures OctetBits(b) == [b & 1 != 0, b & 2 != 0, b & 4 != 0, b & 8 != 0,
                             b & 0x10 != 0, b & 0x20 != 0, b & 0x40 != 0, b & 0x80 != 0]
  {
    hide LowBits;
    var a := b as bv16;
    EightBits(a);
    FourInOrder(a);
    FourInOrder(a >> 4);
    SameBits(b);
  }

  lemma FourInOrder(a: bv16)
    ensures LowBits(a, 4) == [a & 1 != 0, a & 2 != 0, a & 4 != 0, a & 8 != 0]
  {
    TwoNibbles(a);
    assert LowBits(a, 4) == [Low(a)] + LowBits(Half(a), 3);
    assert LowBits(Half(a), 3) == [Low(Half(a))] + LowBits(Half(Half(a)), 2);
    assert LowBits(Half(Half(a)), 2) == [Low(Half(Half(a)))] + LowBits(Half(Half(Half(a))), 1);
    assert LowBits(Half(Half(Half(a))), 1) == [Low(Half(Half(Half(a))))] + LowBits(Half(Half(Half(Half(a)))), 0);
  }

  lemma SameBits(b: bv8)
    ensures var a := b as bv16;
            && (a & 1 != 0 <==> b & 1 != 0) && (a & 2 != 0 <==> b & 2 != 0)
            && (a & 4 != 0 <==> b & 4 != 0) && (a & 8 != 0 <==> b & 8 != 0)
            && ((a >> 4) & 1 != 0 <==> b & 0x10 != 0) && ((a >> 4) & 2 != 0 <==> b & 0x20 != 0)
            && ((a >> 4) & 4 != 0 <==> b & 0x40 != 0) && ((a >> 4) & 8 != 0 <==> b & 0x80 != 0)
  {
  }
}
