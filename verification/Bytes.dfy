/** Octets, powers of two and the option type shared by every module. */
module Bytes {

  type byte = x: int | 0 <= x < 256

  const UINT32_MAX := 0xffff_ffff
  const UINT32_SIZE := 0x1_0000_0000
  const UINT64_SIZE := 0x1_0000_0000_0000_0000

  datatype Option<+T> = None | Some(value: T)

  function Pow2(n: nat): (r: nat)
    ensures r > 0
  {
    if n == 0 then 1 else 2 * Pow2(n - 1)
  }

  lemma {:induction false} Pow2Add(a: nat, b: nat)
    ensures Pow2(a + b) == Pow2(a) * Pow2(b)
  {
    if a > 0 {
      Pow2Add(a - 1, b);
    }
  }

  lemma {:induction false} Pow2Monotone(a: nat, b: nat)
    requires a <= b
    ensures Pow2(a) <= Pow2(b)
    ensures a < b ==> 2 * Pow2(a) <= Pow2(b)
    decreases b - a
  {
    if a < b {
      Pow2Monotone(a + 1, b);
    }
  }

  lemma Pow2Of8()
    ensures Pow2(8) == 256
  {
    assert Pow2(4) == 16;
  }

  lemma Pow2Of64()
    ensures Pow2(64) == UINT64_SIZE && Pow2(32) == UINT32_SIZE && Pow2(56) == 0x100_0000_0000_0000
  {
    Pow2Of8();
    Pow2Add(8, 8);
    Pow2Add(16, 16);
    Pow2Add(16, 8);
    Pow2Add(32, 24);
    Pow2Add(32, 32);
  }

  function Min(a: int, b: int): (r: int)
    ensures r == a || r == b
  {
    if a < b then a else b
  }

  function Max(a: int, b: int): (r: int)
    ensures r == a || r == b
  {
    if a < b then b else a
  }

  /** What masking with a power of two minus one does to a 64-bit value that may have wrapped below zero. */
  lemma ModOfWrapped(x: int, m: nat, k: nat)
    requires m > 0 && m * k == UINT64_SIZE
    ensures (x % UINT64_SIZE) % m == x % m
  {
    var q := x / UINT64_SIZE;
    assert x == (x % UINT64_SIZE) + m * (k * q) by {
      assert UINT64_SIZE * q == m * k * q == m * (k * q);
    }
    ModAddMultiple(x % UINT64_SIZE, m, k * q);
  }

  lemma WrapThenMask(x: int, bits: nat)
    requires bits <= 64
    ensures (x % UINT64_SIZE) % Pow2(bits) == x % Pow2(bits)
  {
    Pow2Add(bits, 64 - bits);
    Pow2Of64();
    ModOfWrapped(x, Pow2(bits), Pow2(64 - bits));
  }

  lemma {:induction false} ModAddMultiple(x: int, m: nat, j: int)
    requires m > 0
    ensures (x + m * j) % m == x % m
    decreases if j >= 0 then j else -j
  {
    if j > 0 {
      ModAddMultiple(x, m, j - 1);
      assert x + m * j == (x + m * (j - 1)) + m;
      ModShift(x + m * (j - 1), m);
    } else if j < 0 {
      ModAddMultiple(x, m, j + 1);
      assert x + m * (j + 1) == (x + m * j) + m;
      ModShift(x + m * j, m);
    }
  }

  lemma ModShift(x: int, m: nat)
    requires m > 0
    ensures (x + m) % m == x % m
  {
    var q, r := x / m, x % m;
    assert x + m == m * (q + 1) + r;
    ModUnique(x + m, m, q + 1, r);
  }

  lemma ModUnique(x: int, m: nat, q: int, r: nat)
    requires m > 0 && x == m * q + r && r < m
    ensures x % m == r && x / m == q
  {
    EuclideanUnique(m, x / m, x % m, q, r);
  }

  lemma EuclideanUnique(m: nat, q: int, r: nat, q': int, r': nat)
    requires r < m && r' < m && m * q + r == m * q' + r'
    ensures q == q' && r == r'
  {
    if q != q' {
      var d := if q > q' then q - q' else q' - q;
      assert m * d == if q > q' then m * q - m * q' else m * q' - m * q;
      AtLeastOne(m, d);
    }
  }

  lemma AtLeastOne(m: nat, d: nat)
    requires d > 0
    ensures m * d >= m
  {
    assert m * d == m + m * (d - 1);
  }

  /** Shifting keeps congruence. */
  lemma ModShiftBoth(a: int, b: int, i: int, m: nat)
    requires m > 0 && a % m == b % m
    ensures (a + i) % m == (b + i) % m
  {
    var q := a / m - b / m;
    assert a + i == (b + i) + m * q by {
      assert a == m * (a / m) + a % m && b == m * (b / m) + b % m;
      assert m * q == m * (a / m) - m * (b / m);
    }
    ModAddMultiple(b + i, m, q);
  }

  /** Fewer than `m` steps around a ring of `m` slots never come back. */
  lemma ModDistinct(x: int, d: int, m: nat)
    requires 0 < d < m
    ensures (x + d) % m != x % m
  {
    var r := x % m;
    ModShiftBoth(x, r, d, m) by {
      ModSmall(r, m);
    }
    if r + d < m {
      ModSmall(r + d, m);
    } else {
      ModShift(r + d - m, m);
      ModSmall(r + d - m, m);
    }
  }

  lemma ModSmall(x: int, m: nat)
    requires 0 <= x < m
    ensures x % m == x
  {
    ModUnique(x, m, 0, x);
  }
}
