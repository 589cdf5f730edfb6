/** Prefixed integers of section 5.1 of RFC 7541: the encoder, and the decoder that can stop between any two octets. */
module HpackInteger {
  import opened Bytes

  /** Number of bits of the first octet that belong to the integer. */
  type prefix = p: int | 4 <= p <= 7 witness 4

  /** The value `(1 << p) - 1`. */
  function Mask(p: prefix): (k: byte)
    ensures 0 < k < 128
  {
    if p == 4 then 15 else if p == 5 then 31 else if p == 6 then 63 else 127
  }

  // ---------------------------------------------------------------- encoder

  function Continuation(n: nat): (s: seq<byte>)
    ensures |s| > 0
  {
    if n < 128 then [n] else [128 + n % 128] + Continuation(n / 128)
  }

  /** The octets of `n`; `flags` holds the bits above the prefix. */
  function EncodeInt(flags: byte, n: nat, p: prefix): (s: seq<byte>)
    requires flags % (Mask(p) + 1) == 0
    ensures |s| > 0
  {
    if n < Mask(p) then [flags + n] else [flags + Mask(p)] + Continuation(n - Mask(p))
  }

  method CountEncodedLength(n: nat, p: prefix) returns (len: nat)
    ensures forall flags: byte :: flags % (Mask(p) + 1) == 0 ==> len == |EncodeInt(flags, n, p)|
  {
    var k := Mask(p);
    if n < k {
      return 1;
    }
    var m := n - k;
    len := 1;
    while m >= 128
      invariant m >= 0 && len + |Continuation(m)| == 1 + |Continuation(n - k)|
    {
      m, len := m / 128, len + 1;
    }
    len := len + 1;
  }

  lemma FlagsAligned(first: byte, p: prefix)
    ensures (first - first % (Mask(p) + 1)) % (Mask(p) + 1) == 0
    ensures first - first % (Mask(p) + 1) + Mask(p) < 256
  {
    if p == 4 {} else if p == 5 {} else if p == 6 {} else {}
  }

  /** The bits of an octet above the prefix. */
  function FlagsOf(first: byte, p: prefix): (flags: byte)
    ensures flags % (Mask(p) + 1) == 0 && flags + Mask(p) < 256 && flags <= first <= flags + Mask(p)
  {
    FlagsAligned(first, p);
    first - first % (Mask(p) + 1)
  }

  /** `first` is the octet already in the buffer; only its bits above the prefix survive. */
  method EncodeLength(first: byte, n: nat, p: prefix) returns (buf: seq<byte>)
    ensures buf == EncodeInt(FlagsOf(first, p), n, p)
  {
    hide Mask, FlagsOf;
    var k := Mask(p);
    var flags := FlagsOf(first, p);
    if n < k {
      return [flags + n];
    }
    buf := [flags + k];
    var m := n - k;
    while m >= 128
      invariant m >= 0 && buf + Continuation(m) == EncodeInt(flags, n, p)
    {
      assert Continuation(m) == [128 + m % 128] + Continuation(m / 128);
      buf := buf + [128 + m % 128];
      m := m / 128;
    }
    buf := buf + [m];
  }

  // ---------------------------------------------------------------- decoder

  /** State between octets. `More(0, 0)` is the state before the first one. */
  datatype IntState = More(n: nat, shift: nat) | Done(value: nat) | Overflow

  /** One octet: the first one when `n` is zero, a continuation octet otherwise. */
  function IntByte(n: nat, shift: nat, b: byte, p: prefix): (r: IntState)
    ensures r.More? ==> 0 < r.n && n <= r.n <= Max(n, UINT32_MAX)
    ensures r.Done? ==> n <= r.value <= Max(n, UINT32_MAX)
  {
    if n == 0 then
      if b % (Mask(p) + 1) != Mask(p) then Done(b % (Mask(p) + 1)) else More(Mask(p), 0)
    else if shift >= 32 || UINT32_MAX / Pow2(shift) < b % 128 || UINT32_MAX - (b % 128) * Pow2(shift) < n then
      Overflow
    else if b < 128 then
      Done(n + (b % 128) * Pow2(shift))
    else
      More(n + (b % 128) * Pow2(shift), shift + 7)
  }

  /** All of `s` from state `More(n, shift)`, with the number of octets consumed. */
  function IntRun(n: nat, shift: nat, s: seq<byte>, p: prefix): (r: (IntState, nat))
    ensures r.1 <= |s|
    ensures r.0.More? ==> r.1 == |s|
    decreases |s|
  {
    if s == [] then (More(n, shift), 0)
    else
      var st := IntByte(n, shift, s[0], p);
      if st.More? then
        var r := IntRun(st.n, st.shift, s[1..], p);
        (r.0, r.1 + 1)
      else (st, 1)
  }

  /**
   * Decodes as much of `s` as belongs to the integer. `initial` is zero for a fresh integer and the
   * partial value when resuming; -1 reports a value that does not fit 32 bits.
   */
  method DecodeLength(initial: nat, shift: nat, s: seq<byte>, p: prefix)
    returns (rv: int, res: nat, shiftOut: nat, fin: bool)
    requires |s| > 0 && initial <= UINT32_MAX
    requires initial == 0 ==> shift == 0
    ensures rv == -1 <==> IntRun(initial, shift, s, p).0.Overflow?
    ensures rv != -1 ==> rv == IntRun(initial, shift, s, p).1
    ensures rv != -1 ==> IntRun(initial, shift, s, p).0 == if fin then Done(res) else More(res, shiftOut)
  {
    var k := Mask(p);
    var n := initial;
    var sh := shift;
    var i := 0;
    res, shiftOut, fin := 0, 0, false;
    if n == 0 {
      if s[0] % (k + 1) != k {
        return 1, s[0] % (k + 1), 0, true;
      }
      n := k;
      i := 1;
      if i == |s| {
        assert s[1..] == [];
        return 1, n, 0, false;
      }
    }
    while i < |s|
      invariant 0 <= i <= |s| && n > 0
      invariant var whole, rest := IntRun(initial, shift, s, p), IntRun(n, sh, s[i..], p);
                whole.0 == rest.0 && whole.1 == rest.1 + i
    {
      var add := s[i] % 128;
      assert s[i..][0] == s[i] && s[i..][1..] == s[i + 1..];
      if sh >= 32 {
        return -1, 0, 0, false;
      }
      if UINT32_MAX / Pow2(sh) < add {
        return -1, 0, 0, false;
      }
      add := add * Pow2(sh);
      if UINT32_MAX - add < n {
        return -1, 0, 0, false;
      }
      n := n + add;
      if s[i] < 128 {
        return i + 1, n, sh, true;
      }
      i, sh := i + 1, sh + 7;
    }
    return i, n, sh, false;
  }

  // ---------------------------------------------------------------- properties

  /** Cutting the octets anywhere and resuming from the saved state changes nothing. */
  lemma {:induction false} IntRunSplit(n: nat, shift: nat, a: seq<byte>, b: seq<byte>, p: prefix)
    ensures var first, whole := IntRun(n, shift, a, p), IntRun(n, shift, a + b, p);
            if first.0.More? then
              var rest := IntRun(first.0.n, first.0.shift, b, p);
              whole == (rest.0, |a| + rest.1)
            else whole == first
    decreases |a|
  {
    if a == [] {
      assert a + b == b;
    } else {
      assert (a + b)[0] == a[0] && (a + b)[1..] == a[1..] + b;
      var st := IntByte(n, shift, a[0], p);
      if st.More? {
        IntRunSplit(st.n, st.shift, a[1..], b, p);
      }
    }
  }

  /** Value carried by continuation octets, least significant group first. */
  function GroupValue(s: seq<byte>): nat {
    if s == [] then 0 else s[0] % 128 + 128 * GroupValue(s[1..])
  }

  /** Continuation octets of one integer: only the last one has its top bit clear. */
  ghost predicate IsContinuation(s: seq<byte>) {
    |s| > 0 && s[|s| - 1] < 128 && forall i :: 0 <= i < |s| - 1 ==> s[i] >= 128
  }

  lemma {:induction false} ContinuationMeaning(n: nat)
    ensures IsContinuation(Continuation(n)) && GroupValue(Continuation(n)) == n
    ensures n <= UINT32_MAX ==> |Continuation(n)| <= 5
  {
    ContinuationShape(n);
    ContinuationLength(n, 5);
  }

  lemma {:induction false} ContinuationShape(n: nat)
    ensures IsContinuation(Continuation(n)) && GroupValue(Continuation(n)) == n
  {
    if n >= 128 {
      var t := Continuation(n / 128);
      ContinuationShape(n / 128);
      assert Continuation(n)[1..] == t;
    } else {
      assert [n][1..] == [];
    }
  }

  function Pow128(d: nat): nat {
    if d == 0 then 1 else 128 * Pow128(d - 1)
  }

  lemma {:induction false} ContinuationLength(n: nat, d: nat)
    requires d > 0
    ensures |Continuation(n)| <= d <==> n < Pow128(d)
    ensures d == 5 ==> Pow128(d) == 0x8_0000_0000
  {
    assert d == 5 ==> Pow128(d) == 0x8_0000_0000 by {
      assert Pow128(3) == 0x20_0000;
    }
    if n >= 128 {
      if d > 1 {
        ContinuationLength(n / 128, d - 1);
        var q := Pow128(d - 1);
        assert Pow128(d) == 128 * q;
        assert n / 128 < q <==> n < 128 * q;
      } else {
        assert Pow128(1) == 128 * Pow128(0);
      }
    } else {
      Pow128Grows(d);
    }
  }

  lemma {:induction false} Pow128Grows(d: nat)
    requires d > 0
    ensures Pow128(d) >= 128
  {
    if d > 1 {
      Pow128Grows(d - 1);
    }
  }

  lemma ShiftValues()
    ensures Pow2(0) == 1 && Pow2(7) == 0x80 && Pow2(14) == 0x4000 && Pow2(21) == 0x20_0000 && Pow2(28) == 0x1000_0000
  {
    assert Pow2(7) == 0x80 by { assert Pow2(4) == 16; }
    Pow2Add(7, 7);
    Pow2Add(7, 14);
    Pow2Add(14, 14);
  }

  /**
   * Exactly when continuation octets are accepted after the partial value `n`: at most five minus `done` of
   * them remain and the total fits 32 bits. The decoder accepts no sixth continuation octet, even a zero one.
   */
  lemma {:induction false} ContinuationAccepted(n: nat, done: nat, s: seq<byte>, p: prefix)
    requires 0 < n <= UINT32_MAX && done <= 5
    requires IsContinuation(s)
    ensures var total := n + GroupValue(s) * Pow2(7 * done);
            var r := IntRun(n, 7 * done, s, p);
            if |s| <= 5 - done && total <= UINT32_MAX then r == (Done(total), |s|) else r.0.Overflow?
    decreases |s|
  {
    ShiftValues();
    if done < 5 {
      var t := s[1..];
      OneGroup(n, done, s[0], GroupValue(t), p);
      var st := IntByte(n, 7 * done, s[0], p);
      if |s| == 1 {
        assert GroupValue(t) == 0;
      } else if st.More? {
        assert IsContinuation(t) by {
          assert forall i :: 0 <= i < |t| ==> t[i] == s[i + 1];
        }
        ContinuationAccepted(st.n, done + 1, t, p);
      }
    }
  }

  /** One continuation octet with value `rest` still to come above it. */
  lemma OneGroup(n: nat, done: nat, b: byte, rest: nat, p: prefix)
    requires 0 < n <= UINT32_MAX && done < 5
    ensures var st := IntByte(n, 7 * done, b, p);
            var total := n + (b % 128 + 128 * rest) * Pow2(7 * done);
            && (st.Overflow? ==> total > UINT32_MAX)
            && (st.Done? ==> b < 128 && st.value == n + b * Pow2(7 * done))
            && (st.More? ==> b >= 128 && st.shift == 7 * (done + 1) && st.n + rest * Pow2(7 * (done + 1)) == total)
  {
    ShiftValues();
    assert Pow2(7 * (done + 1)) == 128 * Pow2(7 * done) by {
      assert Pow2(7) == 128;
      Pow2Add(7, 7 * done);
    }
    assert done in {0, 1, 2, 3, 4};
    OneGroupArithmetic(n, b % 128, rest, Pow2(7 * done));
  }

  lemma OneGroupArithmetic(n: nat, add: nat, rest: nat, q: nat)
    requires n <= UINT32_MAX && add < 128
    requires q in {1, 0x80, 0x4000, 0x20_0000, 0x1000_0000}
    ensures n + (add + 128 * rest) * q == n + add * q + rest * (128 * q)
    ensures UINT32_MAX / q < add || UINT32_MAX - add * q < n ==> n + (add + 128 * rest) * q > UINT32_MAX
    ensures UINT32_MAX / q >= add ==> add * q <= UINT32_MAX
  {
    if q == 1 {} else if q == 0x80 {} else if q == 0x4000 {} else if q == 0x20_0000 {} else {}
  }

  /**
   * Every integer that fits 32 bits decodes to itself and consumes exactly its own octets; a larger one is
   * reported as an overflow, whatever follows it.
   */
  lemma RoundTrip(flags: byte, n: nat, p: prefix, rest: seq<byte>)
    requires flags % (Mask(p) + 1) == 0
    ensures var e := EncodeInt(flags, n, p);
            var r := IntRun(0, 0, e + rest, p);
            if n <= UINT32_MAX then r == (Done(n), |e|) else r.0.Overflow?
  {
    var e := EncodeInt(flags, n, p);
    var k := Mask(p);
    if n < k {
      FlagsOnTop(flags, n, p);
      assert (e + rest)[0] == flags + n;
    } else {
      FlagsOnTop(flags, k, p);
      var c := Continuation(n - k);
      EncodedContinuation(n, p);
      RunTail(flags, c, p);
      IntRunSplit(0, 0, e, rest, p);
    }
  }

  lemma EncodedContinuation(n: nat, p: prefix)
    requires n >= Mask(p)
    ensures var c := Continuation(n - Mask(p));
            var r := IntRun(Mask(p), 0, c, p);
            if n <= UINT32_MAX then r == (Done(n), |c|) else r.0.Overflow?
  {
    var c := Continuation(n - Mask(p));
    ContinuationShape(n - Mask(p));
    ContinuationLength(n - Mask(p), 5);
    assert Pow2(7 * 0) == 1;
    ContinuationAccepted(Mask(p), 0, c, p);
    assert Mask(p) + GroupValue(c) * Pow2(7 * 0) == n;
  }

  lemma RunTail(flags: byte, c: seq<byte>, p: prefix)
    requires flags % (Mask(p) + 1) == 0 && flags + Mask(p) < 256
    ensures var r, t := IntRun(0, 0, [flags + Mask(p)] + c, p), IntRun(Mask(p), 0, c, p);
            r == (t.0, t.1 + 1)
  {
    FlagsOnTop(flags, Mask(p), p);
    var e := [flags + Mask(p)] + c;
    assert e[0] == flags + Mask(p) && e[1..] == c;
  }

  lemma FlagsOnTop(flags: byte, n: nat, p: prefix)
    requires flags % (Mask(p) + 1) == 0 && n <= Mask(p)
    ensures (flags + n) % (Mask(p) + 1) == n && flags + n < 256
  {
    if p == 4 {} else if p == 5 {} else if p == 6 {} else {}
  }

  /** An encoder never needs more than six octets for a 32-bit value, and six only from `Mask(p) + 2^28` on. */
  lemma EncodedLength(flags: byte, n: nat, p: prefix)
    requires flags % (Mask(p) + 1) == 0
    ensures n <= UINT32_MAX ==> |EncodeInt(flags, n, p)| <= 6
    ensures |EncodeInt(flags, n, p)| <= 5 <==> n < Mask(p) + 0x1000_0000
  {
    if n >= Mask(p) {
      ContinuationLength(n - Mask(p), 5);
      ContinuationLength(n - Mask(p), 4);
      assert Pow128(4) == 0x1000_0000 by { assert Pow128(2) == 0x4000; }
    }
  }
}
