/** Bit strings, most significant bit first. */
module Bits {
  import opened Bytes

  type bits = seq<bool>

  function Bit(b: bool): nat {
    if b then 1 else 0
  }

  function Ones(n: nat): (r: bits)
    ensures |r| == n && forall i :: 0 <= i < n ==> r[i]
  {
    seq(n, _ => true)
  }

  function Zeros(n: nat): (r: bits)
    ensures |r| == n && forall i :: 0 <= i < n ==> !r[i]
  {
    seq(n, _ => false)
  }

  predicate AllOnes(s: bits) {
    forall i :: 0 <= i < |s| ==> s[i]
  }

  /** The number a bit string spells. */
  function ToNat(s: bits): (r: nat)
    ensures r < Pow2(|s|)
    decreases |s|
  {
    if s == [] then 0 else 2 * ToNat(s[..|s| - 1]) + Bit(s[|s| - 1])
  }

  lemma {:induction false} ToNatAppend(a: bits, b: bits)
    ensures ToNat(a + b) == ToNat(a) * Pow2(|b|) + ToNat(b)
    decreases |b|
  {
    if b == [] {
      assert a + b == a;
    } else {
      var b' := b[..|b| - 1];
      assert (a + b)[..|a + b| - 1] == a + b' && (a + b)[|a + b| - 1] == b[|b| - 1];
      ToNatAppend(a, b');
      Doubled(ToNat(a), Pow2(|b'|), Pow2(|b|));
    }
  }

  lemma Doubled(x: nat, y: nat, z: nat)
    requires z == 2 * y
    ensures x * z == 2 * (x * y)
  {
  }

  lemma {:induction false} ToNatOnes(n: nat)
    ensures ToNat(Ones(n)) == Pow2(n) - 1
  {
    if n > 0 {
      assert Ones(n)[..n - 1] == Ones(n - 1);
      ToNatOnes(n - 1);
    }
  }

  /** Zeros below shift left. */
  lemma {:induction false} ToNatShift(s: bits, n: nat)
    ensures ToNat(Zeros(n)) == 0 && ToNat(s + Zeros(n)) == ToNat(s) * Pow2(n)
  {
    ToNatZeros(n);
    ToNatAppend(s, Zeros(n));
  }

  lemma {:induction false} ToNatZeros(n: nat)
    ensures ToNat(Zeros(n)) == 0
  {
    if n > 0 {
      assert Zeros(n)[..n - 1] == Zeros(n - 1);
      ToNatZeros(n - 1);
    }
  }

  /** Equal numbers of equal width are equal bit strings. */
  lemma {:induction false} ToNatInjective(a: bits, b: bits)
    requires |a| == |b| && ToNat(a) == ToNat(b)
    ensures a == b
    decreases |a|
  {
    if a != [] {
      var a', b' := a[..|a| - 1], b[..|b| - 1];
      ToNatInjective(a', b');
      assert a == a' + [a[|a| - 1]] && b == b' + [b[|b| - 1]];
    }
  }

  function NibbleBits(x: nat): (r: bits)
    requires x < 16
    ensures |r| == 4
  {
    [x / 8 % 2 == 1, x / 4 % 2 == 1, x / 2 % 2 == 1, x % 2 == 1]
  }

  function ByteBits(b: byte): (r: bits)
    ensures |r| == 8
  {
    NibbleBits(b / 16) + NibbleBits(b % 16)
  }

  function BitsOf(s: seq<byte>): (r: bits)
    ensures |r| == 8 * |s|
  {
    if s == [] then [] else ByteBits(s[0]) + BitsOf(s[1..])
  }

  lemma NibbleValue(x: nat)
    requires x < 16
    ensures ToNat(NibbleBits(x)) == x
  {
    var s := NibbleBits(x);
    Unroll4(s);
  }

  lemma Unroll4(s: bits)
    requires |s| == 4
    ensures ToNat(s) == 8 * Bit(s[0]) + 4 * Bit(s[1]) + 2 * Bit(s[2]) + Bit(s[3])
  {
    var s3, s2, s1 := s[..3], s[..2], s[..1];
    assert s3[..2] == s2 && s2[..1] == s1 && s1[..0] == [];
    assert ToNat(s1) == Bit(s[0]);
    assert ToNat(s2) == 2 * ToNat(s1) + Bit(s[1]);
    assert ToNat(s3) == 2 * ToNat(s2) + Bit(s[2]);
  }

  lemma ByteValue(b: byte)
    ensures ToNat(ByteBits(b)) == b
  {
    ToNatAppend(NibbleBits(b / 16), NibbleBits(b % 16));
    NibbleValue(b / 16);
    NibbleValue(b % 16);
    assert Pow2(4) == 16;
  }

  /** The octet spelled by eight bits. */
  function ByteOf(s: bits): (b: byte)
    requires |s| == 8
  {
    Pow2Of8();
    ToNat(s)
  }

  lemma ByteOfBits(s: bits)
    requires |s| == 8
    ensures ByteBits(ByteOf(s)) == s
  {
    ByteValue(ByteOf(s));
    ToNatInjective(ByteBits(ByteOf(s)), s);
  }

  lemma {:induction false} BitsOfAppend(a: seq<byte>, b: seq<byte>)
    ensures BitsOf(a + b) == BitsOf(a) + BitsOf(b)
  {
    if a == [] {
      assert a + b == b;
    } else {
      assert (a + b)[0] == a[0] && (a + b)[1..] == a[1..] + b;
      BitsOfAppend(a[1..], b);
    }
  }

  lemma {:induction false} BitsOfInjective(a: seq<byte>, b: seq<byte>)
    requires BitsOf(a) == BitsOf(b)
    ensures a == b
  {
    if a != [] {
      assert ByteBits(a[0]) == BitsOf(a)[..8] == BitsOf(b)[..8] == ByteBits(b[0]);
      ByteValue(a[0]);
      ByteValue(b[0]);
      assert BitsOf(a[1..]) == BitsOf(a)[8..] == BitsOf(b)[8..] == BitsOf(b[1..]);
      BitsOfInjective(a[1..], b[1..]);
    }
  }

  /** Octets of a bit string; a partial last octet is filled up with ones. */
  function Pack(s: bits): (r: seq<byte>)
    ensures |r| == (|s| + 7) / 8
    decreases |s|
  {
    if s == [] then []
    else if |s| < 8 then [ByteOf(s + Ones(8 - |s|))]
    else [ByteOf(s[..8])] + Pack(s[8..])
  }

  lemma BitsOfCons(b: byte, rest: seq<byte>)
    ensures BitsOf([b] + rest) == ByteBits(b) + BitsOf(rest)
  {
    assert ([b] + rest)[1..] == rest;
  }

  lemma {:induction false} PackMeaning(s: bits)
    ensures BitsOf(Pack(s)) == s + Ones(8 * |Pack(s)| - |s|)
    decreases |s|
  {
    hide ByteBits, ByteOf, Ones;
    if s == [] {
      assert s + Ones(0) == s;
    } else if |s| < 8 {
      ByteOfBits(s + Ones(8 - |s|));
      BitsOfCons(ByteOf(s + Ones(8 - |s|)), []);
    } else {
      ByteOfBits(s[..8]);
      PackMeaning(s[8..]);
      BitsOfCons(ByteOf(s[..8]), Pack(s[8..]));
      assert s == s[..8] + s[8..];
    }
  }

  /** Whole octets at the front of a bit string are packed on their own. */
  lemma {:induction false} PackAppend(a: bits, b: bits)
    requires |a| % 8 == 0
    ensures Pack(a + b) == Pack(a) + Pack(b)
    decreases |a|
  {
    if a == [] {
      assert a + b == b;
    } else {
      var t := a[8..];
      assert |t| % 8 == 0;
      PackAppend(t, b);
      assert (a + b)[..8] == a[..8] && (a + b)[8..] == t + b;
      assert Pack(a + b) == [ByteOf(a[..8])] + Pack(t + b);
      assert Pack(a) == [ByteOf(a[..8])] + Pack(t);
    }
  }
}
