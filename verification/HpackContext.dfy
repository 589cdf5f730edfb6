/** The dynamic table as both ends store it: a ring of entry objects, and for the deflater 128 hash chains over them. */
module HpackContext {
  import opened Bytes
  import opened HpackTable
  import opened HpackFormat

  const HD_MAP_SIZE := 128

  class Entry {
    const field: Field
    const token: int
    const seqNo: nat
    const hash: nat
    var next: Entry?

    constructor (field: Field, token: int, seqNo: nat, hash: nat)
      ensures this.field == field && this.token == token && this.seqNo == seqNo && this.hash == hash
      ensures next == null
    {
      this.field, this.token, this.seqNo, this.hash := field, token, seqNo, hash;
      next := null;
    }
  }

  ghost function Fields(es: seq<Entry>): (r: fields)
    ensures |r| == |es| && forall i :: 0 <= i < |es| ==> r[i] == es[i].field
  {
    seq(|es|, i requires 0 <= i < |es| => es[i].field)
  }

  ghost predicate Distinct(es: seq<Entry>) {
    forall i, j :: 0 <= i < j < |es| ==> es[i] != es[j]
  }

  // ---------------------------------------------------------------- hash chains

  /** 32-bit FNV-1a over the name. */
  function NameHash(name: seq<byte>): bv32 {
    FnvFrom(2166136261, name)
  }

  function FnvFrom(h: bv32, name: seq<byte>): bv32
    decreases |name|
  {
    if name == [] then h else FnvFrom(FnvStep(h, name[0]), name[1..])
  }

  function FnvStep(h: bv32, b: byte): bv32 {
    Multiplied(h ^ (b as bv32))
  }

  function Multiplied(x: bv32): bv32 {
    x + ((x << 1) + (x << 4) + (x << 7) + (x << 8) + (x << 24))
  }

  /** The shifts and additions of a step multiply by the prime of 32-bit FNV. */
  lemma MultipliesByPrime(x: bv32)
    ensures Multiplied(x) == x * 16777619
  {
    hide Multiplied;
    ShiftsMultiply(x);
    SumOfPowers(x);
  }

  lemma ShiftsMultiply(x: bv32)
    ensures Multiplied(x) == x + (x * 2 + x * 16 + x * 128 + x * 256 + x * 0x100_0000)
  {
    FiveShifts(x);
  }

  lemma FiveShifts(x: bv32)
    ensures x << 1 == x * 2 && x << 4 == x * 16 && x << 7 == x * 128 && x << 8 == x * 256 && x << 24 == x * 0x100_0000
  {
  }

  lemma SumOfPowers(x: bv32)
    ensures x + (x * 2 + x * 16 + x * 128 + x * 256 + x * 0x100_0000) == x * 16777619
  {
  }

  /** The hash stored with a name: precomputed for static names, zero for the other well-known ones. */
  function HashOf(P: Params, name: seq<byte>): nat {
    var token := LookupToken(P, name);
    if token == -1 then NameHash(name) as nat
    else if token <= TOKEN_WWW_AUTHENTICATE && token < |P.statics| then P.statics[token].hash
    else 0
  }

  /** The entry carries the token and hash of its own name. */
  ghost predicate Keyed(P: Params, es: seq<Entry>) {
    forall e :: e in es ==> e.token == LookupToken(P, e.field.name) && e.hash == HashOf(P, e.field.name)
  }

  /** Entries of bucket `b`, in the order of `es`. */
  ghost function Chain(es: seq<Entry>, b: nat): (r: seq<Entry>)
    ensures forall i :: 0 <= i < |r| ==> r[i] in es && r[i].hash % HD_MAP_SIZE == b
  {
    if es == [] then []
    else
      (if es[0].hash % HD_MAP_SIZE == b then [es[0]] else []) + Chain(es[1..], b)
  }

  lemma {:induction false} ChainAppend(a: seq<Entry>, c: seq<Entry>, b: nat)
    ensures Chain(a + c, b) == Chain(a, b) + Chain(c, b)
  {
    if a == [] {
      assert a + c == c;
    } else {
      assert (a + c)[0] == a[0] && (a + c)[1..] == a[1..] + c;
      ChainAppend(a[1..], c, b);
    }
  }

  lemma {:induction false} ChainDistinct(es: seq<Entry>, b: nat)
    requires Distinct(es)
    ensures Distinct(Chain(es, b))
  {
    if es != [] {
      ChainDistinct(es[1..], b);
      assert es[0] !in es[1..];
    }
  }

  /** Following `next` from `head` visits exactly `l` and then arrives at `tail`. */
  ghost predicate Segment(head: Entry?, l: seq<Entry>, tail: Entry?)
    reads l
  {
    if l == [] then head == tail else head == l[0] && Segment(l[0].next, l[1..], tail)
  }

  ghost function Head(l: seq<Entry>, tail: Entry?): Entry? {
    if l == [] then tail else l[0]
  }

  lemma {:induction false} SegmentAppend(head: Entry?, a: seq<Entry>, c: seq<Entry>, tail: Entry?)
    ensures Segment(head, a + c, tail) <==> Segment(head, a, Head(c, tail)) && Segment(Head(c, tail), c, tail)
    decreases |a|
  {
    if a == [] {
      assert a + c == c;
    } else {
      assert (a + c)[0] == a[0] && (a + c)[1..] == a[1..] + c;
      SegmentAppend(a[0].next, a[1..], c, tail);
    }
  }

  lemma ChainCons(ent: Entry, es: seq<Entry>, c: nat)
    ensures Chain([ent] + es, c) == if ent.hash % HD_MAP_SIZE == c then [ent] + Chain(es, c) else Chain(es, c)
  {
    assert ([ent] + es)[1..] == es;
    assert [] + Chain(es, c) == Chain(es, c);
  }

  class HdMap {
    const table: array<Entry?>

    constructor ()
      ensures fresh(table) && Indexes([])
    {
      table := new Entry?[HD_MAP_SIZE](_ => null);
    }

    /** Every bucket's chain holds exactly the entries of `es` with that hash, in the order of `es`. */
    ghost predicate Indexes(es: seq<Entry>)
      reads this, table, es
    {
      && table.Length == HD_MAP_SIZE
      && forall b :: 0 <= b < HD_MAP_SIZE ==> InBucket(b, Chain(es, b))
    }

    ghost predicate InBucket(b: nat, l: seq<Entry>)
      requires b < table.Length
      reads this, table, l
    {
      Segment(table[b], l, null)
    }

    /** A new entry goes to the root of its chain. */
    method Insert(ent: Entry, ghost es: seq<Entry>)
      requires Indexes(es) && ent !in es && ent.next == null
      modifies table, ent
      ensures Indexes([ent] + es)
    {
      var b := ent.hash % HD_MAP_SIZE;
      assert InBucket(b, Chain(es, b));
      if table[b] == null {
        table[b] := ent;
      } else {
        ent.next := table[b];
        table[b] := ent;
      }
      forall c | 0 <= c < HD_MAP_SIZE
        ensures InBucket(c, Chain([ent] + es, c))
      {
        var l := Chain(es, c);
        assert old(InBucket(c, l));
        assert Segment(old(table[c]), l, null);
        ChainCons(ent, es, c);
        assert ([ent] + l)[1..] == l;
      }
    }

    /** The entry before `ent` in its chain, or null at the root. */
    method Predecessor(ent: Entry, ghost l1: seq<Entry>, ghost l2: seq<Entry>) returns (prev: Entry?)
      requires table.Length == HD_MAP_SIZE && Segment(table[ent.hash % HD_MAP_SIZE], l1 + [ent] + l2, null)
      requires ent !in l1
      ensures prev == if l1 == [] then null else l1[|l1| - 1]
    {
      ghost var l := l1 + [ent] + l2;
      var cur := table[ent.hash % HD_MAP_SIZE];
      prev := null;
      ghost var i := 0;
      assert l[0..] == l;
      while cur != ent
        invariant 0 <= i <= |l1|
        invariant Segment(cur, l[i..], null)
        invariant prev == if i == 0 then null else l1[i - 1]
        decreases |l1| - i
      {
        assert l[|l1|] == ent;
        assert l[i..][0] == l[i] && l[i..][1..] == l[i + 1..];
        prev, cur := cur, cur.next;
        i := i + 1;
      }
    }

    /** Takes one entry out of its chain; the others keep their order. */
    method Remove(ent: Entry, ghost es: seq<Entry>, ghost k: nat)
      requires Indexes(es) && Distinct(es) && k < |es| && es[k] == ent
      modifies table, es
      ensures Indexes(es[..k] + es[k + 1..])
    {
      hide Chain, Segment;
      var b := ent.hash % HD_MAP_SIZE;
      ghost var rest, l1, l2 := es[..k] + es[k + 1..], Chain(es[..k], b), Chain(es[k + 1..], b);
      ChainAround(es, k, b);
      assert InBucket(b, Chain(es, b));
      assert ent !in l1 && ent !in l2;
      var prev := Predecessor(ent, l1, l2);
      assert Distinct(l1 + [ent] + l2) by { ChainDistinct(es, b); }
      Unlink(ent, prev, l1, l2);
      forall c | 0 <= c < HD_MAP_SIZE
        ensures InBucket(c, Chain(rest, c))
      {
        if c != b {
          ChainAround(es, k, c);
          assert old(InBucket(c, Chain(es, c)));
          assert ent !in Chain(es, c) && prev !in Chain(es, c);
        } else {
          ChainAround(es, k, b);
        }
      }
    }

    method Unlink(ent: Entry, prev: Entry?, ghost l1: seq<Entry>, ghost l2: seq<Entry>)
      requires table.Length == HD_MAP_SIZE && Segment(table[ent.hash % HD_MAP_SIZE], l1 + [ent] + l2, null)
      requires Distinct(l1 + [ent] + l2)
      requires prev == if l1 == [] then null else l1[|l1| - 1]
      modifies table, prev, ent
      ensures InBucket(ent.hash % HD_MAP_SIZE, l1 + l2)
      ensures forall c :: 0 <= c < HD_MAP_SIZE && c != ent.hash % HD_MAP_SIZE ==> table[c] == old(table[c])
    {
      var b := ent.hash % HD_MAP_SIZE;
      ghost var p := if l1 == [] then [] else l1[..|l1| - 1];
      assert l1 + [ent] + l2 == l1 + ([ent] + l2);
      SegmentAppend(table[b], l1, [ent] + l2, null);
      assert ([ent] + l2)[1..] == l2;
      assert ent.next == Head(l2, null);
      if prev == null {
        table[b] := ent.next;
        assert l1 + l2 == l2;
      } else {
        assert l1 == p + [prev];
        SegmentAppend(table[b], p, [prev], ent);
        assert prev !in p && ent !in p && prev !in l2 && ent !in l2 by {
          DistinctParts(p, prev, ent, l2);
        }
        prev.next := ent.next;
        SegmentAppend(table[b], p, [prev], Head(l2, null));
        assert [prev][1..] == [];
        SegmentAppend(table[b], l1, l2, null);
      }
      assert Segment(table[b], l1 + l2, null);
      assert ent !in l1 + l2;
      ent.next := null;
    }

    /** Walks one chain for the newest exact match, or failing that the newest entry of that name. */
    method Find(P: Params, f: Field, token: int, hash: nat, nameOnly: bool, ghost es: seq<Entry>)
      returns (res: Entry?, exact: bool)
      requires Indexes(es) && Keyed(P, es)
      requires token == LookupToken(P, f.name) && hash == HashOf(P, f.name)
      ensures var e, n := FindExact(Fields(es), f), FindName(Fields(es), f.name);
              && (exact <==> !nameOnly && e >= 0)
              && (exact ==> res == es[e])
              && (!exact ==> res == if n >= 0 then es[n] else null)
    {
      ghost var b := hash % HD_MAP_SIZE;
      ghost var l := Chain(es, b);
      assert InBucket(b, l);
      forall e | e in l ensures Skips(e, f, token, hash) <==> e.field.name != f.name {
        MatchIsName(P, e, f, token, hash);
      }
      res, exact := FindInChain(f, token, hash, nameOnly, l);
      KeyedInOneBucket(P, es, f.name);
      ChainFindsExact(es, f, b);
      ChainFindsName(es, f, b);
    }

    method FindInChain(f: Field, token: int, hash: nat, nameOnly: bool, ghost l: seq<Entry>)
      returns (res: Entry?, exact: bool)
      requires table.Length == HD_MAP_SIZE && Segment(table[hash % HD_MAP_SIZE], l, null)
      requires forall e :: e in l ==> (Skips(e, f, token, hash) <==> e.field.name != f.name)
      ensures var e, n := FindExact(Fields(l), f), FindName(Fields(l), f.name);
              && (exact <==> !nameOnly && e >= 0)
              && (exact ==> res == l[e])
              && (!exact ==> res == if n >= 0 then l[n] else null)
    {
      hide FindExact, FindName, Skips;
      ghost var e, n := FindExact(Fields(l), f), FindName(Fields(l), f.name);
      FindExactIsNewest(Fields(l), f);
      FindNameIsNewest(Fields(l), f.name);
      var p := table[hash % HD_MAP_SIZE];
      res, exact := null, false;
      ghost var i := 0;
      assert l[0..] == l;
      while p != null
        invariant 0 <= i <= |l| && Segment(p, l[i..], null)
        invariant nameOnly || e == -1 || i <= e
        invariant res == null ==> n == -1 || i <= n
        invariant res != null ==> !nameOnly && 0 <= n < i && res == l[n]
        decreases |l| - i
      {
        assert l[i..][0] == l[i] && l[i..][1..] == l[i + 1..];
        assert p == l[i] && p in l && Fields(l)[i] == p.field;
        if Skips(p, f, token, hash) {
          p := p.next;
          i := i + 1;
          continue;
        }
        if res == null {
          res := p;
          if nameOnly {
            return;
          }
        }
        if p.field.value == f.value {
          assert p.field == f;
          return p, true;
        }
        p := p.next;
        i := i + 1;
      }
    }
  }

  /** The test by which a chain entry is passed over. */
  predicate Skips(p: Entry, f: Field, token: int, hash: nat) {
    token != p.token || (token == -1 && (hash != p.hash || p.field.name != f.name))
  }

  /** The chain test is equality of names. */
  lemma MatchIsName(P: Params, p: Entry, f: Field, token: int, hash: nat)
    requires p.token == LookupToken(P, p.field.name) && p.hash == HashOf(P, p.field.name)
    requires token == LookupToken(P, f.name) && hash == HashOf(P, f.name)
    ensures Skips(p, f, token, hash) <==> p.field.name != f.name
  {
    if token == p.token != -1 {
      TokenNamesOneName(P, f.name, p.field.name);
    }
  }

  /** All entries of a name are in one bucket. */
  ghost predicate InOneBucket(es: seq<Entry>, name: seq<byte>, b: nat) {
    forall i :: 0 <= i < |es| && es[i].field.name == name ==> es[i].hash % HD_MAP_SIZE == b
  }

  lemma KeyedInOneBucket(P: Params, es: seq<Entry>, name: seq<byte>)
    requires Keyed(P, es)
    ensures InOneBucket(es, name, HashOf(P, name) % HD_MAP_SIZE)
  {
  }

  ghost predicate SameEntry(a: seq<Entry>, i: int, c: seq<Entry>, j: int) {
    (i == -1 && j == -1) || (0 <= i < |a| && 0 <= j < |c| && a[i] == c[j])
  }

  lemma SameEntryCons(e: Entry, a: seq<Entry>, i: int, c: seq<Entry>, j: int)
    requires SameEntry(a, i, c, j)
    ensures SameEntry([e] + a, if i == -1 then -1 else i + 1, [e] + c, if j == -1 then -1 else j + 1)
    ensures SameEntry([e] + a, if i == -1 then -1 else i + 1, c, j)
    ensures SameEntry([e] + a, 0, [e] + c, 0)
  {
  }

  lemma ExactCons(e: Entry, es: seq<Entry>, f: Field)
    ensures var r, t := FindExact(Fields([e] + es), f), FindExact(Fields(es), f);
            r == if e.field == f then 0 else if t == -1 then -1 else t + 1
  {
    assert Fields([e] + es)[1..] == Fields(es);
  }

  lemma NameCons(e: Entry, es: seq<Entry>, name: seq<byte>)
    ensures var r, t := FindName(Fields([e] + es), name), FindName(Fields(es), name);
            r == if e.field.name == name then 0 else if t == -1 then -1 else t + 1
  {
    assert Fields([e] + es)[1..] == Fields(es);
  }

  /** Searching one chain for a field finds the entry that searching the whole table finds. */
  lemma {:induction false} ChainFindsExact(es: seq<Entry>, f: Field, b: nat)
    requires InOneBucket(es, f.name, b)
    ensures SameEntry(es, FindExact(Fields(es), f), Chain(es, b), FindExact(Fields(Chain(es, b)), f))
  {
    if es != [] {
      var e, t := es[0], es[1..];
      assert InOneBucket(t, f.name, b);
      ChainFindsExact(t, f, b);
      ChainExactStep(e, t, f, b);
      assert es == [e] + t;
    }
  }

  lemma ChainExactStep(e: Entry, t: seq<Entry>, f: Field, b: nat)
    requires e.field.name == f.name ==> e.hash % HD_MAP_SIZE == b
    requires SameEntry(t, FindExact(Fields(t), f), Chain(t, b), FindExact(Fields(Chain(t, b)), f))
    ensures SameEntry([e] + t, FindExact(Fields([e] + t), f), Chain([e] + t, b),
                      FindExact(Fields(Chain([e] + t, b)), f))
  {
    hide FindExact, Chain, Fields;
    var i, j := FindExact(Fields(t), f), FindExact(Fields(Chain(t, b)), f);
    ChainCons(e, t, b);
    ExactCons(e, t, f);
    ExactCons(e, Chain(t, b), f);
    SameEntryCons(e, t, i, Chain(t, b), j);
  }

  /** The same for a name. */
  lemma {:induction false} ChainFindsName(es: seq<Entry>, f: Field, b: nat)
    requires InOneBucket(es, f.name, b)
    ensures SameEntry(es, FindName(Fields(es), f.name), Chain(es, b), FindName(Fields(Chain(es, b)), f.name))
  {
    if es != [] {
      var e, t := es[0], es[1..];
      assert InOneBucket(t, f.name, b);
      ChainFindsName(t, f, b);
      ChainNameStep(e, t, f, b);
      assert es == [e] + t;
    }
  }

  lemma ChainNameStep(e: Entry, t: seq<Entry>, f: Field, b: nat)
    requires e.field.name == f.name ==> e.hash % HD_MAP_SIZE == b
    requires SameEntry(t, FindName(Fields(t), f.name), Chain(t, b), FindName(Fields(Chain(t, b)), f.name))
    ensures SameEntry([e] + t, FindName(Fields([e] + t), f.name), Chain([e] + t, b),
                      FindName(Fields(Chain([e] + t, b)), f.name))
  {
    hide FindName, Chain, Fields;
    var i, j := FindName(Fields(t), f.name), FindName(Fields(Chain(t, b)), f.name);
    ChainCons(e, t, b);
    NameCons(e, t, f.name);
    NameCons(e, Chain(t, b), f.name);
    SameEntryCons(e, t, i, Chain(t, b), j);
  }

  lemma DistinctParts(p: seq<Entry>, a: Entry, b: Entry, q: seq<Entry>)
    requires Distinct(p + [a] + [b] + q)
    ensures a !in p && b !in p && a !in q && b !in q
  {
    var l := p + [a] + [b] + q;
    assert l[|p|] == a && l[|p| + 1] == b;
    assert forall i :: 0 <= i < |p| ==> l[i] == p[i];
    assert forall i :: 0 <= i < |q| ==> l[|p| + 2 + i] == q[i];
  }

  /** Leaving an entry out of a list leaves it out of its own chain and changes no other. */
  lemma ChainAround(es: seq<Entry>, k: nat, c: nat)
    requires k < |es|
    ensures var l1, l2 := Chain(es[..k], c), Chain(es[k + 1..], c);
            && Chain(es[..k] + es[k + 1..], c) == l1 + l2
            && Chain(es, c) == if es[k].hash % HD_MAP_SIZE == c then l1 + [es[k]] + l2 else l1 + l2
  {
    var a, d := es[..k], es[k + 1..];
    ChainAppend(a, d, c);
    ChainAppend(a, [es[k]] + d, c);
    assert es == a + ([es[k]] + d);
    ChainCons(es[k], d, c);
    Regroup(Chain(a, c), es[k], Chain(d, c));
  }

  lemma Regroup(a: seq<Entry>, e: Entry, d: seq<Entry>)
    ensures a + ([e] + d) == a + [e] + d
  {
  }
}
