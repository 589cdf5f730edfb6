/** Bucket arrays with Robin Hood probing, as plain sequences: what keeps them searchable. */
module RobinHood {
  import opened Bytes

  type key = k: int | -0x8000_0000 <= k < 0x8000_0000

  datatype Bucket<T> = Empty | Full(hash: nat, key: key, data: T)

  type buckets<T> = seq<Bucket<T>>

  function Hash(k: key): (h: nat)
    ensures h <= UINT32_MAX
  {
    k % UINT32_SIZE * 2654435769 % UINT32_SIZE
  }

  /** The multiplier can be undone modulo 2^32, so that different keys have different hashes. */
  lemma HashesDiffer(a: key, b: key)
    ensures Hash(a) == Hash(b) ==> a == b
  {
    Unhashed(a % UINT32_SIZE);
    Unhashed(b % UINT32_SIZE);
    ModUnique(a, UINT32_SIZE, a / UINT32_SIZE, a % UINT32_SIZE);
    ModUnique(b, UINT32_SIZE, b / UINT32_SIZE, b % UINT32_SIZE);
  }

  lemma Unhashed(u: nat)
    requires u < UINT32_SIZE
    ensures u * 2654435769 % UINT32_SIZE * 340573321 % UINT32_SIZE == u
  {
    var x := u * 2654435769;
    var q, r := x / UINT32_SIZE, x % UINT32_SIZE;
    assert 2654435769 * 340573321 == 1 + UINT32_SIZE * 210485888;
    ModUnique(r * 340573321, UINT32_SIZE, u * 210485888 - q * 340573321, u);
  }

  /** The bucket where probing for a hash starts: the top `bits` bits of the hash. */
  function Home(bits: nat, hash: nat): (i: nat)
    requires 0 < bits <= 32 && hash <= UINT32_MAX
    ensures i < Pow2(bits)
  {
    hide Pow2;
    HomeBelow(bits, hash);
    hash / Pow2(32 - bits)
  }

  lemma HomeBelow(bits: nat, hash: nat)
    requires bits <= 32 && hash <= UINT32_MAX
    ensures hash / Pow2(32 - bits) < Pow2(bits)
  {
    hide Pow2;
    Pow2Add(bits, 32 - bits);
    Pow2Of64();
    QuotientBelow(hash, Pow2(bits), Pow2(32 - bits));
  }

  lemma QuotientBelow(h: nat, a: nat, b: nat)
    requires b > 0 && h < a * b
    ensures h / b < a
  {
    assert h == b * (h / b) + h % b;
    assert b * (a - h / b) > 0;
  }

  // ---------------------------------------------------------------- going round

  function Next(n: nat, i: nat): (r: nat)
    requires i < n
    ensures r < n
  {
    if i + 1 == n then 0 else i + 1
  }

  /** Steps from `home` on to `i`. */
  function Distance(n: nat, home: nat, i: nat): (d: nat)
    requires home < n && i < n
    ensures d < n
  {
    if i >= home then i - home else i + n - home
  }

  /** On a table whose length is a power of two this is what masking the 64-bit values computes. */
  lemma MaskedArithmetic(bits: nat, home: nat, i: nat)
    requires bits <= 32 && home < Pow2(bits) && i < Pow2(bits)
    ensures Next(Pow2(bits), i) == (i + 1) % Pow2(bits)
    ensures Distance(Pow2(bits), home, i) == (i - home) % UINT64_SIZE % Pow2(bits)
  {
    var n := Pow2(bits);
    WrapThenMask(i - home, bits);
    if i + 1 < n {
      ModSmall(i + 1, n);
    } else {
      ModShift(0, n);
    }
    if i >= home {
      ModSmall(i - home, n);
    } else {
      ModSmall(i - home + n, n);
      ModShift(i - home, n);
    }
  }

  // ---------------------------------------------------------------- the invariant

  ghost predicate Sound<T>(s: buckets<T>, bits: nat) {
    && 0 < bits <= 32 && |s| == Pow2(bits)
    && forall i :: 0 <= i < |s| && s[i].Full? ==> s[i].hash == Hash(s[i].key)
  }

  /** How far the entry in bucket `i` is from its home. */
  function Dist<T>(s: buckets<T>, bits: nat, i: nat): (d: nat)
    requires 0 < bits <= 32 && |s| == Pow2(bits) && i < |s| && s[i].Full? && s[i].hash <= UINT32_MAX
    ensures d < |s|
  {
    Distance(|s|, Home(bits, s[i].hash), i)
  }

  /** An entry away from home has before it an entry that is at most one step nearer to its own home. */
  ghost predicate Follows<T>(s: buckets<T>, bits: nat, i: nat)
    requires Sound(s, bits) && i < |s|
  {
    var j := Next(|s|, i);
    s[j].Full? && Dist(s, bits, j) > 0 ==> s[i].Full? && Dist(s, bits, i) >= Dist(s, bits, j) - 1
  }

  ghost predicate KeysDiffer<T>(s: buckets<T>) {
    forall i, j :: 0 <= i < |s| && 0 <= j < |s| && s[i].Full? && s[j].Full? && s[i].key == s[j].key ==> i == j
  }

  ghost predicate Ordered<T>(s: buckets<T>, bits: nat) {
    && Sound(s, bits) && KeysDiffer(s)
    && forall i :: 0 <= i < |s| ==> Follows(s, bits, i)
  }

  // ---------------------------------------------------------------- contents

  ghost predicate Has<T>(s: buckets<T>, k: key) {
    exists i :: 0 <= i < |s| && s[i].Full? && s[i].key == k
  }

  ghost predicate Represents<T>(s: buckets<T>, m: map<key, T>) {
    && (forall i :: 0 <= i < |s| && s[i].Full? ==> s[i].key in m && m[s[i].key] == s[i].data)
    && forall k :: k in m ==> Has(s, k)
  }

  lemma RepresentsOne<T>(s: buckets<T>, m: map<key, T>, m': map<key, T>)
    requires Represents(s, m) && Represents(s, m')
    ensures m == m'
  {
    forall k | k in m
      ensures k in m' && m[k] == m'[k]
    {
      var i :| 0 <= i < |s| && s[i].Full? && s[i].key == k;
    }
    assert forall k :: k in m' ==> Has(s, k);
  }

  function Keys<T>(s: buckets<T>): set<key> {
    set i | 0 <= i < |s| && s[i].Full? :: s[i].key
  }

  lemma {:induction false} FullTableKeys<T>(s: buckets<T>)
    requires KeysDiffer(s) && forall i :: 0 <= i < |s| ==> s[i].Full?
    ensures |Keys(s)| == |s|
    decreases |s|
  {
    if s != [] {
      var t, b := s[..|s| - 1], s[|s| - 1];
      FullTableKeys(t);
      assert b.key !in Keys(t);
      assert Keys(s) == Keys(t) + {b.key} by {
        assert forall i :: 0 <= i < |t| ==> t[i] == s[i];
      }
    }
  }

  /** A table with more buckets than entries has an empty bucket, so that probing ends. */
  lemma EmptyBucket<T>(s: buckets<T>, m: map<key, T>)
    requires KeysDiffer(s) && Represents(s, m) && |m| < |s|
    ensures exists e :: 0 <= e < |s| && s[e].Empty?
  {
    assert |m| == |m.Keys|;
    if forall e :: 0 <= e < |s| ==> s[e].Full? {
      FullTableKeys(s);
      Subset(Keys(s), m.Keys);
    }
  }

  lemma {:induction false} Subset(a: set<key>, b: set<key>)
    requires a <= b
    ensures |a| <= |b|
  {
    if a != {} {
      var x :| x in a;
      Subset(a - {x}, b - {x});
    }
  }

  // ---------------------------------------------------------------- probing

  /** Bucket reached from `home` in `j` steps. */
  function Probe(n: nat, home: nat, j: nat): (i: nat)
    requires home < n && j < n
    ensures i < n && Distance(n, home, i) == j
  {
    if home + j < n then home + j else home + j - n
  }

  /** On the way from its home to an entry every bucket is full, and no entry there is nearer to its own home. */
  lemma {:induction false} WayIsFull<T>(s: buckets<T>, bits: nat, p: nat, j: nat)
    requires Ordered(s, bits) && p < |s| && s[p].Full? && j <= Dist(s, bits, p)
    ensures var i := Probe(|s|, Home(bits, s[p].hash), j);
            s[i].Full? && Dist(s, bits, i) >= j
    decreases Dist(s, bits, p) - j
  {
    hide Home, Hash, Pow2;
    if j < Dist(s, bits, p) {
      WayIsFull(s, bits, p, j + 1);
      assert Follows(s, bits, Probe(|s|, Home(bits, s[p].hash), j));
    }
  }

  /** Probing for `k` may stop at an empty bucket, or at an entry nearer to its home than the probe has gone. */
  ghost predicate Stops<T>(s: buckets<T>, bits: nat, i: nat, d: nat)
    requires Sound(s, bits) && i < |s|
  {
    s[i].Empty? || d > Dist(s, bits, i)
  }

  lemma StopMeansAbsent<T>(s: buckets<T>, bits: nat, k: key, d: nat)
    requires Ordered(s, bits) && d < |s| && Stops(s, bits, Probe(|s|, Home(bits, Hash(k)), d), d)
    requires forall j :: 0 <= j < d ==> !IsAt(s, k, Probe(|s|, Home(bits, Hash(k)), j))
    ensures !Has(s, k)
  {
    hide Home, Hash, Pow2;
    if Has(s, k) {
      var p :| 0 <= p < |s| && s[p].Full? && s[p].key == k;
      var e := Dist(s, bits, p);
      var q := Probe(|s|, Home(bits, Hash(k)), e);
      assert IsAt(s, k, q);
      if e >= d {
        WayIsFull(s, bits, p, d);
      }
    }
  }

  ghost predicate IsAt<T>(s: buckets<T>, k: key, i: nat) {
    i < |s| && s[i].Full? && s[i].key == k
  }

  // ---------------------------------------------------------------- placing an entry

  /** Bucket `i` is where an entry that is then `d` from home may stand, as far as the bucket before it goes. */
  ghost predicate MayStand<T>(s: buckets<T>, bits: nat, i: nat, d: nat)
    requires Sound(s, bits)
  {
    d > 0 ==> forall h :: 0 <= h < |s| && Next(|s|, h) == i ==> s[h].Full? && Dist(s, bits, h) >= d - 1
  }

  /** Putting an entry into an empty bucket, or in the place of an entry nearer to its home, keeps the order. */
  lemma PlacingKeepsOrder<T>(s: buckets<T>, bits: nat, i: nat, b: Bucket<T>, d: nat)
    requires Ordered(s, bits) && i < |s| && b.Full? && b.hash == Hash(b.key) && !Has(s, b.key)
    requires d == Distance(|s|, Home(bits, b.hash), i) && Stops(s, bits, i, d) && MayStand(s, bits, i, d)
    ensures Ordered(s[i := b], bits)
  {
    hide Home, Hash, Pow2;
    var t := s[i := b];
    assert Sound(t, bits) && Dist(t, bits, i) == d;
    forall h | 0 <= h < |t|
      ensures Follows(t, bits, h)
    {
      assert Follows(s, bits, h);
    }
  }

  /** The table together with an entry still looking for its place. */
  ghost predicate RepresentsWith<T>(s: buckets<T>, b: Bucket<T>, m: map<key, T>) {
    && b.Full? && !Has(s, b.key) && b.key in m && m[b.key] == b.data
    && Represents(s, m - {b.key})
  }

  lemma Carried<T>(s: buckets<T>, m: map<key, T>, b: Bucket<T>)
    requires Represents(s, m) && b.Full? && b.key !in m
    ensures RepresentsWith(s, b, m[b.key := b.data])
  {
    assert m[b.key := b.data] - {b.key} == m;
  }

  /** Entries change places: the one carried is put down, the one found there is carried on. */
  lemma SwapKeepsContents<T>(s: buckets<T>, b: Bucket<T>, m: map<key, T>, i: nat)
    requires RepresentsWith(s, b, m) && i < |s| && s[i].Full? && KeysDiffer(s)
    ensures RepresentsWith(s[i := b], s[i], m) && KeysDiffer(s[i := b])
  {
    var t := s[i := b];
    var m1 := m - {s[i].key};
    forall k | k in m1
      ensures Has(t, k)
    {
      if k == b.key {
        assert t[i].key == k;
      } else {
        assert Has(s, k);
        var j :| 0 <= j < |s| && s[j].Full? && s[j].key == k;
        assert t[j] == s[j];
      }
    }
  }

  lemma PutKeepsContents<T>(s: buckets<T>, b: Bucket<T>, m: map<key, T>, i: nat)
    requires RepresentsWith(s, b, m) && i < |s| && s[i].Empty?
    ensures Represents(s[i := b], m)
  {
    var t := s[i := b];
    forall k | k in m
      ensures Has(t, k)
    {
      if k == b.key {
        assert t[i].key == k;
      } else {
        assert Has(s, k);
        var j :| 0 <= j < |s| && s[j].Full? && s[j].key == k;
        assert t[j] == s[j];
      }
    }
  }

  // ---------------------------------------------------------------- closing a gap

  /** In order but for the step after the empty bucket `gap`, whose last tenant was `g` from home. */
  ghost predicate OrderedBut<T>(s: buckets<T>, bits: nat, gap: nat, g: nat) {
    && Sound(s, bits) && KeysDiffer(s) && gap < |s| && s[gap].Empty? && |s| > 1
    && (forall i :: 0 <= i < |s| && i != gap ==> Follows(s, bits, i))
    && MayStand(s, bits, gap, g)
    && (var j := Next(|s|, gap); s[j].Full? ==> Dist(s, bits, j) <= g + 1)
  }

  lemma OpenGap<T>(s: buckets<T>, bits: nat, p: nat)
    requires Ordered(s, bits) && p < |s| && s[p].Full? && |s| > 1
    ensures OrderedBut(s[p := Empty], bits, p, Dist(s, bits, p))
  {
    hide Home, Hash, Pow2;
    var t := s[p := Empty];
    forall i | 0 <= i < |s|
      ensures i != p ==> Follows(t, bits, i)
      ensures Dist(s, bits, p) > 0 && Next(|s|, i) == p ==> t[i].Full? && Dist(t, bits, i) >= Dist(s, bits, p) - 1
    {
      assert Follows(s, bits, i);
    }
    assert Follows(s, bits, p);
  }

  lemma GapContents<T>(s: buckets<T>, m: map<key, T>, p: nat)
    requires Represents(s, m) && KeysDiffer(s) && p < |s| && s[p].Full?
    ensures Represents(s[p := Empty], m - {s[p].key})
  {
    var t := s[p := Empty];
    forall k | k in m - {s[p].key}
      ensures Has(t, k)
    {
      assert Has(s, k);
      var j :| 0 <= j < |s| && s[j].Full? && s[j].key == k;
      assert t[j] == s[j];
    }
  }

  /** The entry after the gap, unless at home, moves into it and leaves the gap behind. */
  function Shifted<T>(s: buckets<T>, gap: nat): (t: buckets<T>)
    requires gap < |s|
    ensures |t| == |s|
  {
    s[gap := s[Next(|s|, gap)]][Next(|s|, gap) := Empty]
  }

  lemma ShiftKeepsOrder<T>(s: buckets<T>, bits: nat, gap: nat, g: nat)
    requires OrderedBut(s, bits, gap, g)
    requires var j := Next(|s|, gap); s[j].Full? && Dist(s, bits, j) > 0
    ensures var j := Next(|s|, gap); OrderedBut(Shifted(s, gap), bits, j, Dist(s, bits, j))
  {
    hide Home, Hash, Pow2;
    var j := Next(|s|, gap);
    var t := Shifted(s, gap);
    assert t[gap] == s[j] && t[j].Empty? && forall i :: 0 <= i < |s| && i != gap && i != j ==> t[i] == s[i];
    assert Sound(t, bits) && Dist(t, bits, gap) == Dist(s, bits, j) - 1;
    forall i | 0 <= i < |s|
      ensures i != j ==> Follows(t, bits, i)
    {
      if i != gap {
        assert Follows(s, bits, i);
      }
    }
    assert Follows(s, bits, j);
  }

  lemma ShiftKeepsContents<T>(s: buckets<T>, m: map<key, T>, gap: nat)
    requires Represents(s, m) && gap < |s| && s[gap].Empty? && s[Next(|s|, gap)].Full?
    ensures Represents(Shifted(s, gap), m)
  {
    var j := Next(|s|, gap);
    var t := Shifted(s, gap);
    forall k | k in m
      ensures Has(t, k)
    {
      assert Has(s, k);
      var i :| 0 <= i < |s| && s[i].Full? && s[i].key == k;
      assert t[if i == j then gap else i] == s[i];
    }
  }

  lemma GapClosed<T>(s: buckets<T>, bits: nat, gap: nat, g: nat)
    requires OrderedBut(s, bits, gap, g)
    requires var j := Next(|s|, gap); s[j].Empty? || Dist(s, bits, j) == 0
    ensures Ordered(s, bits)
  {
    hide Home, Hash, Pow2;
    assert Follows(s, bits, gap);
  }
}
