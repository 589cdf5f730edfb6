/** The dynamic table of sections 2.3.2 and 4 of RFC 7541 as a sequence, newest field first. */
module HpackTable {
  import opened Bytes

  datatype Field = Field(name: seq<byte>, value: seq<byte>)

  type fields = seq<Field>

  const ENTRY_OVERHEAD := 32

  /** Size charged for one entry. */
  function Room(f: Field): (r: nat)
    ensures r >= ENTRY_OVERHEAD
  {
    ENTRY_OVERHEAD + |f.name| + |f.value|
  }

  function SizeOf(t: fields): nat {
    if t == [] then 0 else Room(t[0]) + SizeOf(t[1..])
  }

  /** The newest entries that fit `max` octets: what is left after evicting from the old end. */
  function Fit(t: fields, max: nat): (r: fields)
    ensures |r| <= |t|
  {
    if t == [] || Room(t[0]) > max then [] else [t[0]] + Fit(t[1..], max - Room(t[0]))
  }

  function Insert(t: fields, f: Field, max: nat): fields {
    Fit([f] + t, max)
  }

  lemma {:induction false} SizeOfAppend(a: fields, b: fields)
    ensures SizeOf(a + b) == SizeOf(a) + SizeOf(b)
  {
    if a == [] {
      assert a + b == b;
    } else {
      assert (a + b)[0] == a[0] && (a + b)[1..] == a[1..] + b;
      SizeOfAppend(a[1..], b);
    }
  }

  /** `Fit` keeps the longest prefix within the budget: it fits, and any longer prefix does not. */
  lemma {:induction false} FitIsLongestPrefix(t: fields, max: nat, n: nat)
    requires n <= |t|
    ensures Fit(t, max) == t[..|Fit(t, max)|]
    ensures SizeOf(t[..n]) <= max <==> n <= |Fit(t, max)|
    decreases |t|
  {
    if n > 0 {
      assert t[..n][0] == t[0] && t[..n][1..] == t[1..][..n - 1];
    }
    if t != [] && Room(t[0]) <= max {
      FitIsLongestPrefix(t[1..], max - Room(t[0]), if n > 0 then n - 1 else 0);
    }
  }

  /** All names and values, one after the other. */
  function Octets(t: fields): seq<byte> {
    if t == [] then [] else t[0].name + t[0].value + Octets(t[1..])
  }

  /** The size of a table by section 4.1 of RFC 7541: all octets in it, and 32 for every entry. */
  lemma {:induction false} SizeLaw(t: fields)
    ensures SizeOf(t) == 32 * |t| + |Octets(t)|
  {
    if t != [] {
      SizeLaw(t[1..]);
    }
  }

  /**
   * Eviction by sections 4.3 and 4.4: what is left are the newest entries, and a number of them are left exactly if
   * their octets and 32 for each are within the maximum.
   */
  lemma LongestFit(t: fields, max: nat, n: nat)
    requires n <= |t|
    ensures Fit(t, max) == t[..|Fit(t, max)|]
    ensures 32 * n + |Octets(t[..n])| <= max <==> n <= |Fit(t, max)|
  {
    FitIsLongestPrefix(t, max, n);
    SizeLaw(t[..n]);
  }

  /** Insertion by section 4.4: the new entry with the newest of the old ones, or nothing if it is too large alone. */
  lemma LongestInsert(t: fields, f: Field, max: nat, n: nat)
    requires n <= |t|
    ensures var r := Insert(t, f, max);
            && (r == [] <==> 32 + |f.name| + |f.value| > max)
            && (r != [] ==> r[0] == f && r[1..] == t[..|r| - 1])
            && (n < |r| <==> 32 * (n + 1) + |f.name| + |f.value| + |Octets(t[..n])| <= max)
  {
    LongestFit([f] + t, max, n + 1);
    LongestFit([f] + t, max, 1);
    assert ([f] + t)[..n + 1] == [f] + t[..n] && ([f] + t)[..1] == [f];
    assert ([f] + t[..n])[1..] == t[..n] && [f][1..] == [];
  }

  lemma FitFits(t: fields, max: nat)
    ensures SizeOf(Fit(t, max)) <= max
  {
    FitIsLongestPrefix(t, max, |Fit(t, max)|);
  }

  lemma FitKeepsAll(t: fields, max: nat)
    requires SizeOf(t) <= max
    ensures Fit(t, max) == t
  {
    FitIsLongestPrefix(t, max, |t|);
    assert t[..|t|] == t;
  }

  /** Evicting for one budget and then another is evicting for the smaller of the two. */
  lemma {:induction false} FitTwice(t: fields, a: nat, b: nat)
    ensures Fit(Fit(t, a), b) == Fit(t, Min(a, b))
    decreases |t|
  {
    if t != [] && Room(t[0]) <= Min(a, b) {
      var r := Room(t[0]);
      FitTwice(t[1..], a - r, b - r);
      assert Fit(t, a)[1..] == Fit(t[1..], a - r);
    }
  }

  lemma {:induction false} EntryCount(t: fields)
    ensures ENTRY_OVERHEAD * |t| <= SizeOf(t)
  {
    if t != [] {
      EntryCount(t[1..]);
    }
  }

  /** Dropping the oldest entry while too large ends at `Fit`. */
  lemma FitDropLast(t: fields, max: nat)
    requires t != [] && SizeOf(t) > max
    ensures Fit(t, max) == Fit(t[..|t| - 1], max)
  {
    var n := |t| - 1;
    FitIsLongestPrefix(t, max, |t|);
    assert t[..|t|] == t;
    var k := |Fit(t, max)|;
    var u := t[..n];
    var j := |Fit(u, max)|;
    FitIsLongestPrefix(t, max, k);
    FitIsLongestPrefix(u, max, k);
    FitIsLongestPrefix(u, max, j);
    FitIsLongestPrefix(t, max, j);
    assert u[..k] == t[..k] && u[..j] == t[..j];
  }
}
