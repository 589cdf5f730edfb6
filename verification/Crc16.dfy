/** CRC-16/Modbus: the octet-wise routine computes the bit-serial remainder, and what such a remainder can detect. */
module Crc16 {

  type octets = seq<bv8>
  type bitstream = seq<bool>

  // ---------------------------------------------------------------- sixteen-bit words

  function Xor(a: bv16, b: bv16): bv16 { a ^ b }

  function Half(a: bv16): bv16 { a >> 1 }

  function Double(a: bv16): bv16 { a << 1 }

  predicate Low(a: bv16) { a & 1 == 1 }

  function Bit(b: bool): bv16 { if b then 1 else 0 }

  /** No bit outside the mask. */
  predicate Within(a: bv16, mask: bv16) { a & !mask == 0 }

  lemma XorZero(a: bv16)
    ensures Xor(a, 0) == a && Xor(0, a) == a && Xor(a, a) == 0
  {
  }

  lemma XorComm(a: bv16, b: bv16)
    ensures Xor(a, b) == Xor(b, a)
  {
  }

  lemma XorAssoc(a: bv16, b: bv16, c: bv16)
    ensures Xor(Xor(a, b), c) == Xor(a, Xor(b, c))
  {
  }

  lemma XorMoves(a: bv16, b: bv16, c: bv16)
    ensures Xor(Xor(a, b), c) == Xor(a, Xor(b, c)) == Xor(Xor(a, c), b)
  {
    hide Xor;
    XorAssoc(a, b, c);
    XorAssoc(a, c, b);
    XorComm(b, c);
  }

  lemma XorCancels(a: bv16, b: bv16, p: bv16)
    ensures Xor(Xor(a, p), Xor(b, p)) == Xor(a, b)
  {
    hide Xor;
    XorAssoc(a, p, Xor(b, p));
    XorComm(b, p);
    XorAssoc(p, p, b);
    XorZero(p);
    XorZero(b);
  }

  lemma XorParts(a: bv16, b: bv16)
    ensures Low(Xor(a, b)) <==> Low(a) != Low(b)
    ensures Half(Xor(a, b)) == Xor(Half(a), Half(b))
  {
    OddXor(a, b);
  }

  lemma OddXor(a: bv16, b: bv16)
    ensures (a ^ b) & 1 == (a & 1) ^ (b & 1)
  {
  }

  /** A word is its lowest bit and the rest. */
  lemma Split(a: bv16)
    ensures a == Xor(Bit(Low(a)), Double(Half(a)))
  {
  }

  lemma Doubled(a: bv16)
    requires Within(a, 0x7fff)
    ensures !Low(Double(a)) && Half(Double(a)) == a
  {
  }

  lemma WithinDouble(b: bool, a: bv16, mask: bv16)
    requires Within(a, mask)
    ensures Within(Xor(Bit(b), Double(a)), Xor(1, Double(mask)))
  {
    OneMoreBit(Bit(b), a, mask);
  }

  lemma OneMoreBit(b: bv16, a: bv16, mask: bv16)
    requires b <= 1 && a & !mask == 0
    ensures (b ^ (a << 1)) & !(1 ^ (mask << 1)) == 0
  {
  }

  lemma WithinTrans(a: bv16, b: bv16, c: bv16)
    requires Within(a, b) && Within(b, c)
    ensures Within(a, c)
  {
  }

  // ---------------------------------------------------------------- the remainder, bit by bit

  const POLYNOMIAL: bv16 := 0xA001

  /** One step of the division by x^16 + x^15 + x^2 + 1, lowest bit first. */
  function Shift(c: bv16): bv16 {
    if Low(c) then Xor(Half(c), POLYNOMIAL) else Half(c)
  }

  function CrcBits(c: bv16, s: bitstream): bv16
    decreases |s|
  {
    if s == [] then c else CrcBits(Shift(Xor(c, Bit(s[0]))), s[1..])
  }

  lemma {:induction false} CrcBitsAppend(c: bv16, a: bitstream, b: bitstream)
    ensures CrcBits(c, a + b) == CrcBits(CrcBits(c, a), b)
    decreases |a|
  {
    hide Shift, Bit, Xor;
    if a == [] {
      assert a + b == b;
    } else {
      assert (a + b)[0] == a[0] && (a + b)[1..] == a[1..] + b;
      CrcBitsAppend(Shift(Xor(c, Bit(a[0]))), a[1..], b);
    }
  }

  lemma ShiftXor(a: bv16, b: bv16)
    ensures Shift(Xor(a, b)) == Xor(Shift(a), Shift(b))
  {
    hide Low, Half, Xor;
    XorParts(a, b);
    XorMoves(Half(a), Half(b), POLYNOMIAL);
    XorMoves(Half(a), POLYNOMIAL, Half(b));
    XorCancels(Half(a), Half(b), POLYNOMIAL);
  }

  lemma ShiftZero(c: bv16)
    ensures Shift(c) == 0 <==> c == 0
  {
  }

  // ---------------------------------------------------------------- up to sixteen bits at once

  function Shifts(c: bv16, n: nat): bv16 {
    if n == 0 then c else Shift(Shifts(c, n - 1))
  }

  lemma {:induction false} ShiftFirst(c: bv16, n: nat)
    ensures Shifts(Shift(c), n) == Shifts(c, n + 1)
  {
    hide Shift;
    if n > 0 {
      ShiftFirst(c, n - 1);
    }
  }

  lemma {:induction false} ShiftsZero(c: bv16, n: nat)
    ensures Shifts(c, n) == 0 <==> c == 0
  {
    hide Shift;
    if n > 0 {
      ShiftsZero(c, n - 1);
      ShiftZero(Shifts(c, n - 1));
    }
  }

  /** The bits as a number, the first one lowest. */
  function Word(s: bitstream): bv16 {
    if s == [] then 0 else Xor(Bit(s[0]), Double(Word(s[1..])))
  }

  function Ones(n: nat): bv16 {
    if n == 0 then 0 else Xor(1, Double(Ones(n - 1)))
  }

  lemma {:induction false} WordWithin(s: bitstream)
    ensures Within(Word(s), Ones(|s|))
  {
    if s == [] {
    } else {
      hide Xor, Double, Within, Bit;
      WordWithin(s[1..]);
      WithinDouble(s[0], Word(s[1..]), Ones(|s| - 1));
    }
  }

  lemma {:induction false} OnesWithin(n: nat, k: nat)
    requires n <= k
    ensures Within(Ones(n), Ones(k))
  {
    if n == 0 {
      NothingWithin(Ones(k));
    } else {
      hide Xor, Double, Within, Bit;
      OnesWithin(n - 1, k - 1);
      assert Bit(true) == 1 by { BitValue(); }
      WithinDouble(true, Ones(n - 1), Ones(k - 1));
    }
  }

  lemma NothingWithin(m: bv16)
    ensures Within(0, m)
  {
  }

  lemma BitValue()
    ensures Bit(true) == 1 && Bit(false) == 0
  {
  }

  lemma Ones15()
    ensures Ones(15) == 0x7fff
  {
    assert Ones(1) == 1;
    assert Ones(2) == 3;
    assert Ones(3) == 7;
    assert Ones(4) == 0xf;
    assert Ones(5) == 0x1f;
    assert Ones(6) == 0x3f;
    assert Ones(7) == 0x7f;
    assert Ones(8) == 0xff;
    assert Ones(9) == 0x1ff;
    assert Ones(10) == 0x3ff;
    assert Ones(11) == 0x7ff;
    assert Ones(12) == 0xfff;
    assert Ones(13) == 0x1fff;
    assert Ones(14) == 0x3fff;
  }

  /** Fewer than sixteen bits leave room to move up. */
  lemma WordFits(s: bitstream)
    requires |s| <= 15
    ensures Within(Word(s), 0x7fff)
  {
    hide Xor, Double, Within, Bit, Word, Ones;
    WordWithin(s);
    OnesWithin(|s|, 15);
    Ones15();
    WithinTrans(Word(s), Ones(|s|), Ones(15));
  }

  /** Adding bits in before they are reached makes no difference. */
  lemma ShiftPending(x: bv16, w: bv16)
    requires Within(w, 0x7fff)
    ensures Shift(Xor(x, Double(w))) == Xor(Shift(x), w)
  {
    hide Xor, Double, Within, Half;
    ShiftXor(x, Double(w));
    Doubled(w);
  }

  /** At most sixteen bits are divided in by adding them as a number and shifting. */
  lemma {:induction false} WordRun(c: bv16, s: bitstream)
    requires |s| <= 16
    ensures CrcBits(c, s) == Shifts(Xor(c, Word(s)), |s|)
    decreases |s|
  {
    hide Shift, Bit, Xor, Double, Within;
    if s == [] {
      XorZero(c);
    } else {
      var b, w := s[0], Word(s[1..]);
      WordRun(Shift(Xor(c, Bit(b))), s[1..]);
      WordFits(s[1..]);
      ShiftPending(Xor(c, Bit(b)), w);
      XorMoves(c, Bit(b), Double(w));
      ShiftFirst(Xor(c, Word(s)), |s| - 1);
    }
  }

  // ---------------------------------------------------------------- octets

  function LowBits(a: bv16, n: nat): (s: bitstream)
    ensures |s| == n
    decreases n
  {
    if n == 0 then [] else [Low(a)] + LowBits(Half(a), n - 1)
  }

  function Halves(a: bv16, n: nat): bv16
    decreases n
  {
    if n == 0 then a else Halves(Half(a), n - 1)
  }

  lemma {:induction false} LowBitsAreAll(a: bv16, n: nat)
    requires Halves(a, n) == 0
    ensures Word(LowBits(a, n)) == a
    decreases n
  {
    hide Xor, Double, Bit, Low, Half;
    if n > 0 {
      LowBitsAreAll(Half(a), n - 1);
      assert LowBits(a, n)[1..] == LowBits(Half(a), n - 1);
      Split(a);
    }
  }

  function OctetBits(b: bv8): (s: bitstream)
    ensures |s| == 8
  {
    LowBits(b as bv16, 8)
  }

  lemma OctetEnds(b: bv8)
    ensures Halves(b as bv16, 8) == 0
  {
    FourHalves(b as bv16);
    var a := (b as bv16) >> 4;
    FourHalves(a);
    hide Half;
    assert Halves(b as bv16, 8) == Halves(a, 4) by { HalvesTwice(b as bv16, 4, 4); }
    NothingLeft(b);
  }

  lemma NothingLeft(b: bv8)
    ensures ((b as bv16) >> 4) >> 4 == 0
  {
  }

  lemma FourHalves(a: bv16)
    ensures Halves(a, 4) == a >> 4
  {
    assert Halves(a, 4) == Halves(Half(Half(a)), 2) == Half(Half(Half(Half(a))));
  }

  lemma {:induction false} HalvesTwice(a: bv16, m: nat, n: nat)
    ensures Halves(a, m + n) == Halves(Halves(a, m), n)
    decreases m
  {
    hide Half;
    if m > 0 {
      HalvesTwice(Half(a), m - 1, n);
    }
  }

  /** An octet at a time is eight bits at a time. */
  lemma OctetRun(c: bv16, b: bv8)
    ensures CrcBits(c, OctetBits(b)) == Shifts(Xor(c, b as bv16), 8)
  {
    hide Shift, Xor, Halves, Word, LowBits, CrcBits;
    OctetEnds(b);
    LowBitsAreAll(b as bv16, 8);
    WordRun(c, OctetBits(b));
  }

  /** Octets on the line, each with its lowest bit first. */
  function Bits(f: octets): (s: bitstream)
    ensures |s| == 8 * |f|
  {
    if f == [] then [] else OctetBits(f[0]) + Bits(f[1..])
  }

  lemma {:induction false} BitsAppend(a: octets, b: octets)
    ensures Bits(a + b) == Bits(a) + Bits(b)
  {
    hide OctetBits;
    if a == [] {
      assert a + b == b;
    } else {
      assert (a + b)[0] == a[0] && (a + b)[1..] == a[1..] + b;
      BitsAppend(a[1..], b);
    }
  }

  lemma OctetBitsInjective(a: bv8, b: bv8)
    requires OctetBits(a) == OctetBits(b)
    ensures a == b
  {
    hide Halves, Word, LowBits;
    OctetEnds(a);
    OctetEnds(b);
    LowBitsAreAll(a as bv16, 8);
    LowBitsAreAll(b as bv16, 8);
    Widened(a, b);
  }

  lemma Widened(a: bv8, b: bv8)
    ensures a as bv16 == b as bv16 ==> a == b
  {
  }

  lemma {:induction false} BitsInjective(a: octets, b: octets)
    requires |a| == |b| && Bits(a) == Bits(b)
    ensures a == b
  {
    hide OctetBits;
    if a != [] {
      assert Bits(a)[..8] == OctetBits(a[0]) && Bits(b)[..8] == OctetBits(b[0]);
      OctetBitsInjective(a[0], b[0]);
      assert Bits(a)[8..] == Bits(a[1..]) && Bits(b)[8..] == Bits(b[1..]);
      BitsInjective(a[1..], b[1..]);
      assert a == [a[0]] + a[1..] && b == [b[0]] + b[1..];
    }
  }

  // ---------------------------------------------------------------- the routine

  const SEED: bv16 := 0xFFFF

  function Crc(f: octets): bv16 {
    CrcBits(SEED, Bits(f))
  }

  method Crc16GetFromSeed(seed: bv16, data: array<bv8>, len: nat) returns (crc: bv16)
    requires len <= data.Length
    ensures crc == CrcBits(seed, Bits(data[..len]))
  {
    hide Shift, Bits, CrcBits;
    crc := seed;
    var p, left := 0, len;
    BitsOfNone(seed);
    assert data[..0] == [];
    while left != 0
      invariant p + left == len && crc == CrcBits(seed, Bits(data[..p]))
    {
      ghost var before := crc;
      assert data[..p + 1] == data[..p] + [data[p]];
      OneMoreOctet(seed, data[..p], data[p]);
      crc := EightSteps(crc, data[p]);
      p, left := p + 1, left - 1;
    }
  }

  method EightSteps(c: bv16, b: bv8) returns (crc: bv16)
    ensures crc == CrcBits(c, OctetBits(b))
  {
    OctetRun(c, b);
    hide CrcBits, OctetBits;
    crc := c ^ (b as bv16);
    assert crc == Xor(c, b as bv16);
    hide Xor;
    for i := 0 to 8
      invariant crc == Shifts(Xor(c, b as bv16), i)
    {
      crc := OneStep(crc);
    }
  }

  method OneStep(c: bv16) returns (crc: bv16)
    ensures crc == Shift(c)
  {
    if c & 1 == 1 {
      crc := (c >> 1) ^ 0xA001;
    } else {
      crc := c >> 1;
    }
  }

  lemma BitsOfNone(c: bv16)
    ensures Bits([]) == [] && CrcBits(c, []) == c
  {
  }

  lemma OneMoreOctet(c: bv16, f: octets, b: bv8)
    ensures CrcBits(c, Bits(f + [b])) == CrcBits(CrcBits(c, Bits(f)), OctetBits(b))
  {
    hide CrcBits, OctetBits;
    BitsAppend(f, [b]);
    assert Bits([b]) == OctetBits(b) + [] == OctetBits(b) by { assert [b][1..] == []; }
    CrcBitsAppend(c, Bits(f), OctetBits(b));
  }

  method Crc16Get(data: array<bv8>, len: nat) returns (crc: bv16)
    requires len <= data.Length
    ensures crc == Crc(data[..len])
  {
    crc := Crc16GetFromSeed(SEED, data, len);
  }

  // ---------------------------------------------------------------- the residue

  function LowOctet(c: bv16): bv8 { (c & 0x00ff) as bv8 }

  function HighOctet(c: bv16): bv8 { (c >> 8) as bv8 }

  lemma EightBits(a: bv16)
    ensures LowBits(a, 8) == LowBits(a, 4) + LowBits(a >> 4, 4) && Halves(a, 8) == a >> 8
  {
    hide LowBits, Half;
    FourHalves(a);
    FourHalves(a >> 4);
    HalvesTwice(a, 4, 4);
    LowBitsSplit(a, 4, 4);
    TwoNibbles(a);
  }

  lemma TwoNibbles(a: bv16)
    ensures (a >> 4) >> 4 == a >> 8
  {
  }

  /** Only the low octet matters for the low eight bits. */
  lemma LowOctetBits(a: bv16)
    ensures LowBits(LowOctet(a) as bv16, 8) == LowBits(a, 8)
  {
    var b := LowOctet(a) as bv16;
    LowNibbles(a);
    FourBits(a);
    FourBits(b);
    FourBits(a >> 4);
    FourBits(b >> 4);
    hide LowBits, LowOctet;
    EightBits(a);
    EightBits(b);
  }

  lemma LowNibbles(a: bv16)
    ensures var b := LowOctet(a) as bv16;
            && b & 1 == a & 1 && b & 2 == a & 2 && b & 4 == a & 4 && b & 8 == a & 8
            && (b >> 4) & 1 == (a >> 4) & 1 && (b >> 4) & 2 == (a >> 4) & 2
            && (b >> 4) & 4 == (a >> 4) & 4 && (b >> 4) & 8 == (a >> 4) & 8
  {
  }

  lemma FourBits(a: bv16)
    ensures LowBits(a, 4) == [a & 1 == 1, a & 2 == 2, a & 4 == 4, a & 8 == 8]
  {
    var s := LowBits(a, 4);
    assert s[0] == Low(a);
    assert s[1..] == LowBits(Half(a), 3) && s[1] == Low(Half(a));
    assert s[1..][1..] == LowBits(Half(Half(a)), 2) && s[2] == Low(Half(Half(a)));
    assert s[1..][1..][1..] == LowBits(Half(Half(Half(a))), 1) && s[3] == Low(Half(Half(Half(a))));
  }

  lemma {:induction false} LowBitsSplit(a: bv16, m: nat, n: nat)
    ensures LowBits(a, m + n) == LowBits(a, m) + LowBits(Halves(a, m), n)
    decreases m
  {
    hide Half, Low;
    if m > 0 {
      LowBitsSplit(Half(a), m - 1, n);
    }
  }

  /** The two octets of a word, low one first, are its sixteen bits. */
  lemma OctetsOfWord(c: bv16)
    ensures OctetBits(LowOctet(c)) + OctetBits(HighOctet(c)) == LowBits(c, 16)
    ensures Halves(c, 16) == 0
  {
    hide LowBits, Halves, LowOctet;
    LowBitsSplit(c, 8, 8);
    HalvesTwice(c, 8, 8);
    EightBits(c);
    LowOctetBits(c);
    EightBits(c >> 8);
  }

  /** Following anything with its own remainder leaves none. */
  lemma Residue(f: octets)
    ensures Crc(f + [LowOctet(Crc(f)), HighOctet(Crc(f))]) == 0
  {
    hide LowOctet, HighOctet, CrcBits, OctetBits, LowBits, Xor, Shifts;
    var c := Crc(f);
    var tail := [LowOctet(c), HighOctet(c)];
    BitsAppend(f, tail);
    CrcBitsAppend(SEED, Bits(f), Bits(tail));
    TwoOctets(tail[0], tail[1]);
    OctetsOfWord(c);
    LowBitsAreAll(c, 16);
    WordRun(c, LowBits(c, 16));
    XorZero(c);
    ShiftsZero(0, 16);
  }

  lemma TwoOctets(a: bv8, b: bv8)
    ensures Bits([a, b]) == OctetBits(a) + OctetBits(b)
  {
    hide OctetBits;
    assert [a, b][1..] == [b] && [b][1..] == [];
    assert Bits([b]) == OctetBits(b) + [];
  }

  // ---------------------------------------------------------------- what is detected

  function XorBits(s: bitstream, t: bitstream): (r: bitstream)
    requires |s| == |t|
    ensures |r| == |s| && forall i :: 0 <= i < |s| ==> r[i] == (s[i] != t[i])
  {
    seq(|s|, i requires 0 <= i < |s| => s[i] != t[i])
  }

  lemma {:induction false} CrcXor(a: bv16, b: bv16, s: bitstream, t: bitstream)
    requires |s| == |t|
    ensures CrcBits(Xor(a, b), XorBits(s, t)) == Xor(CrcBits(a, s), CrcBits(b, t))
    decreases |s|
  {
    hide Shift, Xor, Bit;
    if s != [] {
      var a1, b1 := Xor(a, Bit(s[0])), Xor(b, Bit(t[0]));
      XorFour(a, b, s[0], t[0]);
      ShiftXor(a1, b1);
      assert XorBits(s, t)[1..] == XorBits(s[1..], t[1..]);
      CrcXor(Shift(a1), Shift(b1), s[1..], t[1..]);
    } else {
      assert XorBits(s, t) == [];
    }
  }

  lemma XorFour(a: bv16, b: bv16, x: bool, y: bool)
    ensures Xor(Xor(a, b), Bit(x != y)) == Xor(Xor(a, Bit(x)), Xor(b, Bit(y)))
  {
    hide Xor;
    XorMoves(a, b, Bit(x));
    XorMoves(a, b, Bit(y));
    XorZero(a);
    XorZero(b);
    XorZero(Xor(a, b));
    XorCancels(a, b, 1);
    assert Bit(true) == 1 && Bit(false) == 0;
    XorMoves(a, Bit(x), b);
  }

  predicate AllZero(s: bitstream) {
    forall i :: 0 <= i < |s| ==> !s[i]
  }

  lemma {:induction false} ZerosRun(c: bv16, s: bitstream)
    requires AllZero(s)
    ensures CrcBits(c, s) == Shifts(c, |s|)
    decreases |s|
  {
    hide Shift, Xor;
    if s != [] {
      XorZero(c);
      BitValue();
      ZerosRun(Shift(c), s[1..]);
      ShiftFirst(c, |s| - 1);
    }
  }

  lemma {:induction false} WordZero(s: bitstream)
    requires |s| <= 16 && Word(s) == 0
    ensures AllZero(s)
  {
    hide Xor, Double, Within, Half, Low, Bit;
    if s != [] {
      var w := Word(s[1..]);
      WordFits(s[1..]);
      Doubled(w);
      XorParts(Bit(s[0]), Double(w));
      BitParts(s[0]);
      ZeroParts();
      XorZero(w);
      WordZero(s[1..]);
      assert forall i :: 1 <= i < |s| ==> s[i] == s[1..][i - 1];
    }
  }

  lemma BitParts(b: bool)
    ensures Low(Bit(b)) == b && Half(Bit(b)) == 0
  {
  }

  lemma ZeroParts()
    ensures !Low(0) && Half(0) == 0
  {
  }

  lemma AloneHasRemainder(burst: bitstream)
    requires |burst| <= 16 && !AllZero(burst)
    ensures CrcBits(0, burst) != 0
  {
    hide CrcBits, Xor, Word, Shifts;
    WordRun(0, burst);
    XorZero(Word(burst));
    ShiftsZero(Word(burst), |burst|);
    if Word(burst) == 0 {
      WordZero(burst);
    }
  }

  lemma ZerosAround(head: bitstream, burst: bitstream, tail: bitstream)
    requires AllZero(head) && AllZero(tail)
    ensures CrcBits(0, head + (burst + tail)) == 0 <==> CrcBits(0, burst) == 0
  {
    hide CrcBits, Shifts, AllZero;
    CrcBitsAppend(0, head, burst + tail);
    ZerosRun(0, head);
    ShiftsZero(0, |head|);
    CrcBitsAppend(0, burst, tail);
    ZerosRun(CrcBits(0, burst), tail);
    ShiftsZero(CrcBits(0, burst), |tail|);
  }

  /** An error pattern confined to sixteen consecutive bits has a remainder. */
  lemma BurstHasRemainder(e: bitstream, k: nat)
    requires !AllZero(e) && forall i :: 0 <= i < |e| && e[i] ==> k <= i < k + 16
    ensures CrcBits(0, e) != 0
  {
    hide CrcBits;
    var m := if k + 16 <= |e| then k + 16 else |e|;
    QuietAround(e, k, m);
    hide AllZero;
    InThree(e, k, m);
    ZerosAround(e[..k], e[k..m], e[m..]);
    AloneHasRemainder(e[k..m]);
  }

  lemma QuietAround(e: bitstream, k: nat, m: nat)
    requires !AllZero(e) && m <= |e| && forall i :: 0 <= i < |e| && e[i] ==> k <= i < m
    ensures k <= m && AllZero(e[..k]) && !AllZero(e[k..m]) && AllZero(e[m..])
  {
    var i :| 0 <= i < |e| && e[i];
    assert e[k..m][i - k];
  }

  lemma InThree<T>(s: seq<T>, m: nat, n: nat)
    requires m <= n <= |s|
    ensures s == s[..m] + (s[m..n] + s[n..])
  {
  }

  /** Two strings have the same remainder exactly when their difference has none. */
  lemma SameRemainder(c: bv16, s: bitstream, t: bitstream)
    requires |s| == |t|
    ensures CrcBits(c, s) == CrcBits(c, t) <==> CrcBits(0, XorBits(s, t)) == 0
  {
    hide CrcBits, Xor;
    CrcXor(c, c, s, t);
    XorZero(c);
    XorIsZero(CrcBits(c, s), CrcBits(c, t));
  }

  lemma XorIsZero(a: bv16, b: bv16)
    ensures Xor(a, b) == 0 <==> a == b
  {
    hide Xor;
    XorAssoc(a, b, b);
    XorZero(a);
    XorZero(b);
  }

  /** Any change confined to sixteen consecutive bits, at whatever offset in a frame of whatever length, is seen. */
  lemma BurstDetected(f: octets, g: octets, k: nat)
    requires |f| == |g| && f != g
    requires forall i :: 0 <= i < 8 * |f| && Bits(f)[i] != Bits(g)[i] ==> k <= i < k + 16
    ensures Crc(f) != Crc(g)
  {
    hide CrcBits, Bits;
    var s, t := Bits(f), Bits(g);
    if s == t {
      BitsInjective(f, g);
    }
    var e: bitstream := XorBits(s, t);
    assert exists i :: 0 <= i < |s| && s[i] != t[i];
    var i :| 0 <= i < |s| && s[i] != t[i];
    assert e[i];
    BurstHasRemainder(e, k);
    SameRemainder(SEED, s, t);
  }

  // ---------------------------------------------------------------- parity

  function Parity(s: bitstream): bool {
    if s == [] then false else s[0] != Parity(s[1..])
  }

  /** Whether a word has an odd number of ones. */
  predicate Odd(c: bv16) {
    Parity(LowBits(c, 16))
  }

  lemma {:induction false} ParityAppend(s: bitstream, t: bitstream)
    ensures Parity(s + t) == (Parity(s) != Parity(t))
  {
    if s == [] {
      assert s + t == t;
    } else {
      assert (s + t)[1..] == s[1..] + t;
      ParityAppend(s[1..], t);
    }
  }

  lemma {:induction false} ParityXor(s: bitstream, t: bitstream)
    requires |s| == |t|
    ensures Parity(XorBits(s, t)) == (Parity(s) != Parity(t))
  {
    if s == [] {
      assert XorBits(s, t) == [];
    } else {
      assert XorBits(s, t)[1..] == XorBits(s[1..], t[1..]);
      ParityXor(s[1..], t[1..]);
    }
  }

  lemma {:induction false} LowBitsXor(a: bv16, b: bv16, n: nat)
    ensures LowBits(Xor(a, b), n) == XorBits(LowBits(a, n), LowBits(b, n))
    decreases n
  {
    hide Xor, Low, Half;
    if n > 0 {
      XorParts(a, b);
      LowBitsXor(Half(a), Half(b), n - 1);
    }
  }

  lemma OddXorWord(a: bv16, b: bv16)
    ensures Odd(Xor(a, b)) == (Odd(a) != Odd(b))
  {
    hide Xor, LowBits, Parity, XorBits;
    LowBitsXor(a, b, 16);
    ParityXor(LowBits(a, 16), LowBits(b, 16));
  }

  lemma OddHalf(c: bv16)
    ensures Odd(c) == (Low(c) != Odd(Half(c)))
  {
    hide Low, Half;
    OctetsOfWord(c);
    LowBitsSplit(c, 16, 1);
    var s := LowBits(c, 17);
    assert s[0] == Low(c) && s[1..] == LowBits(Half(c), 16);
    assert Parity(s) == (Low(c) != Odd(Half(c)));
    assert LowBits(0, 1) == [false] by {
      ZeroParts();
      assert LowBits(Half(0), 0) == [];
    }
    ParityAppend(LowBits(c, 16), [false]);
    assert !Parity([false]) by { assert [false][1..] == []; }
  }

  lemma {:induction false} ZeroIsEven(n: nat)
    ensures !Parity(LowBits(0, n))
  {
    if n > 0 {
      ZeroParts();
      ZeroIsEven(n - 1);
    }
  }

  lemma OddValues()
    ensures !Odd(0) && Odd(1) && Odd(POLYNOMIAL)
  {
    ZeroIsEven(16);
    hide Odd;
    OddHalf(1);
    OddHalf(0xA001);
    OddHalf(0x5000);
    OddHalf(0x2800);
    OddHalf(0x1400);
    OddHalf(0xA00);
    OddHalf(0x500);
    OddHalf(0x280);
    OddHalf(0x140);
    OddHalf(0xA0);
    OddHalf(0x50);
    OddHalf(0x28);
    OddHalf(0x14);
    OddHalf(0xA);
    OddHalf(5);
    OddHalf(2);
  }

  lemma OddShift(c: bv16)
    ensures Odd(Shift(c)) == Odd(c)
  {
    hide Odd, Low, Half, Xor;
    OddHalf(c);
    OddValues();
    OddXorWord(Half(c), POLYNOMIAL);
  }

  /** The remainder has an odd number of ones exactly when the bits divided in changed its parity. */
  lemma {:induction false} ParityKept(c: bv16, s: bitstream)
    ensures Odd(CrcBits(c, s)) == (Odd(c) != Parity(s))
    decreases |s|
  {
    if s != [] {
      hide Odd, Shift, Xor;
      var d := Xor(c, Bit(s[0]));
      OddXorWord(c, Bit(s[0]));
      OddValues();
      OddShift(d);
      ParityKept(Shift(d), s[1..]);
    }
  }

  /** An odd number of changed bits, wherever they are, is seen. */
  lemma OddErrorsDetected(f: octets, g: octets)
    requires |f| == |g| && Parity(XorBits(Bits(f), Bits(g)))
    ensures Crc(f) != Crc(g)
  {
    hide Odd, Bits, XorBits, CrcBits, Parity;
    ParityXor(Bits(f), Bits(g));
    ParityKept(SEED, Bits(f));
    ParityKept(SEED, Bits(g));
  }
}
