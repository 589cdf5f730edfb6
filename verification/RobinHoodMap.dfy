/** The hash map from stream identifiers to streams: a bucket array updated in place, proved to be a finite map. */
module RobinHoodMap {
  import opened Bytes
  import opened MapGrowth
  import opened RobinHood

  const ERR_NOMEM := -901
  const ERR_INVALID_ARGUMENT := -501

  // ---------------------------------------------------------------- one turn of the insertion loop

  lemma TurnKeepsOrder<T>(s: buckets<T>, bits: nat, i: nat, d: nat, c: Bucket<T>)
    requires Ordered(s, bits) && i < |s| && c.Full? && c.hash == Hash(c.key)
    requires d == Distance(|s|, Home(bits, c.hash), i) && MayStand(s, bits, i, d)
    ensures s[i].Empty? && !Has(s, c.key) ==> Ordered(s[i := c], bits)
    ensures s[i].Full? && d > Dist(s, bits, i) && !Has(s, c.key) ==>
              Ordered(s[i := c], bits) && MayStand(s[i := c], bits, Next(|s|, i), Dist(s, bits, i) + 1)
    ensures s[i].Full? && d <= Dist(s, bits, i) ==> MayStand(s, bits, Next(|s|, i), d + 1)
  {
    hide Home, Hash, Pow2, Follows, KeysDiffer, Has;
    if !Has(s, c.key) && Stops(s, bits, i, d) {
      PlacingKeepsOrder(s, bits, i, c, d);
    }
  }

  lemma TurnKeepsContents<T>(s: buckets<T>, i: nat, c: Bucket<T>, m: map<key, T>)
    requires RepresentsWith(s, c, m) && i < |s| && KeysDiffer(s)
    ensures !Has(s, c.key)
    ensures s[i].Empty? ==> Represents(s[i := c], m)
    ensures s[i].Full? ==> s[i].key != c.key && RepresentsWith(s[i := c], s[i], m)
  {
    if s[i].Empty? {
      PutKeepsContents(s, c, m, i);
    } else {
      SwapKeepsContents(s, c, m, i);
    }
  }

  /** While a key that is present at `p` is looked for, nothing makes the probe stop or swap before `p`. */
  lemma TurnTowardsKey<T>(s: buckets<T>, bits: nat, k: key, p: nat, i: nat, d: nat)
    requires Ordered(s, bits) && IsAt(s, k, p) && d <= Dist(s, bits, p) && i < |s|
    requires d == Distance(|s|, Home(bits, Hash(k)), i)
    ensures s[i].Full? && d <= Dist(s, bits, i)
    ensures s[i].key != k ==> d < Dist(s, bits, p)
  {
    hide Home, Hash, Pow2, Follows;
    WayIsFull(s, bits, p, d);
  }

  lemma FindEmpty<T>(s: buckets<T>, m: map<key, T>) returns (e: nat)
    requires KeysDiffer(s) && Represents(s, m) && |m| < |s|
    ensures e < |s| && s[e].Empty?
  {
    EmptyBucket(s, m);
    e :| e < |s| && s[e].Empty?;
  }

  lemma FindKey<T>(s: buckets<T>, m: map<key, T>, k: key) returns (p: nat)
    requires Represents(s, m)
    ensures k in m ==> IsAt(s, k, p)
  {
    p := 0;
    if k in m {
      assert Has(s, k);
      p :| p < |s| && s[p].Full? && s[p].key == k;
    }
  }

  // ---------------------------------------------------------------- operations on a bucket array

  /** Puts an entry into its place, carrying displaced entries on; a key already there is left alone. */
  method Insert<T>(table: array<Bucket<T>>, bits: nat, hash: nat, k: key, data: T, ghost m: map<key, T>)
    returns (rv: int)
    requires Ordered(table[..], bits) && Represents(table[..], m) && |m| < table.Length && hash == Hash(k)
    modifies table
    ensures Ordered(table[..], bits)
    ensures k in m ==> rv == ERR_INVALID_ARGUMENT && table[..] == old(table[..])
    ensures k !in m ==> rv == 0 && Represents(table[..], m[k := data])
  {
    hide Home, Hash, Pow2, Follows, KeysDiffer, Represents, RepresentsWith, Has;
    var n := table.Length;
    ghost var s := table[..];
    ghost var e := FindEmpty(s, m);
    ghost var p := FindKey(s, m, k);
    var carried: Bucket<T> := Full(hash, k, data);
    ghost var first := carried;
    if k !in m {
      Carried(s, m, carried);
    }
    var idx: nat, d: nat := Home(bits, hash), 0;
    while true
      invariant Ordered(table[..], bits) && idx < n && table[e].Empty?
      invariant carried.Full? && carried.hash == Hash(carried.key) && d == Distance(n, Home(bits, carried.hash), idx)
      invariant d + Distance(n, idx, e) < n && MayStand(table[..], bits, idx, d)
      invariant k in m ==> table[..] == s && carried == first && d <= Dist(s, bits, p)
      invariant k !in m ==> RepresentsWith(table[..], carried, m[k := data])
      decreases Distance(n, idx, e)
    {
      ghost var now := table[..];
      var bkt := table[idx];
      assert bkt == now[idx];
      if k in m {
        TurnTowardsKey(s, bits, k, p, idx, d);
      } else {
        TurnKeepsContents(now, idx, carried, m[k := data]);
      }
      TurnKeepsOrder(now, bits, idx, d, carried);
      if bkt.Empty? {
        table[idx] := carried;
        assert table[..] == now[idx := carried];
        return 0;
      }
      var dd := Distance(n, Home(bits, bkt.hash), idx);
      if d > dd {
        table[idx] := carried;
        assert table[..] == now[idx := carried];
        carried, d := bkt, dd;
      } else if bkt.key == carried.key {
        return ERR_INVALID_ARGUMENT;
      }
      d := d + 1;
      idx := Next(n, idx);
    }
  }

  /** Moves the entries after the gap one bucket back until one is at home or the next bucket is empty. */
  method ShiftBack<T>(table: array<Bucket<T>>, bits: nat, gap: nat, ghost dist: nat, ghost e: nat, ghost m: map<key, T>)
    requires OrderedBut(table[..], bits, gap, dist) && Represents(table[..], m)
    requires e < table.Length && e != gap && table[e].Empty?
    modifies table
    ensures Ordered(table[..], bits) && Represents(table[..], m)
  {
    hide Home, Hash, Pow2, Follows, KeysDiffer, Represents, MayStand;
    var n := table.Length;
    var didx: nat := gap;
    var idx: nat := Next(n, gap);
    ghost var g: nat := dist;
    while true
      invariant didx < n && idx == Next(n, didx) && e != didx && table[e].Empty?
      invariant OrderedBut(table[..], bits, didx, g) && Represents(table[..], m)
      decreases Distance(n, didx, e)
    {
      ghost var s := table[..];
      var bkt := table[idx];
      assert bkt == s[idx];
      if bkt.Empty? || Distance(n, Home(bits, bkt.hash), idx) == 0 {
        GapClosed(s, bits, didx, g);
        return;
      }
      ShiftKeepsOrder(s, bits, didx, g);
      ShiftKeepsContents(s, m, didx);
      g := Dist(s, bits, idx);
      table[didx] := bkt;
      table[idx] := Empty;
      assert table[..] == Shifted(s, didx);
      didx := idx;
      idx := Next(n, idx);
    }
  }

  // ---------------------------------------------------------------- the map

  class HashMap<T> {
    var table: array<Bucket<T>>
    var tablelen: nat
    var bits: nat
    var size: nat
    ghost var contents: map<key, T>

    /** At most three quarters of the buckets are taken, so that every probe meets an empty one. */
    ghost predicate Valid()
      reads this, table
    {
      && table.Length == tablelen && |contents| == size && size * 4 <= tablelen * 3
      && Represents(table[..], contents)
      && if tablelen == 0 then bits == 0 else INITIAL_TABLE_LENBITS <= bits <= 31 && Ordered(table[..], bits)
    }

    constructor ()
      ensures Valid() && contents == map[] && fresh(table) && Run([]) == Some(State())
    {
      table := new Bucket<T>[0];
      tablelen, bits, size, contents := 0, 0, 0, map[];
    }

    /** Where a key is, if anywhere. */
    method Locate(k: key) returns (at: Option<nat>)
      requires Valid() && size > 0
      ensures match at
              case None => k !in contents
              case Some(i) => IsAt(table[..], k, i) && k in contents && contents[k] == table[i].data
    {
      hide Hash, Pow2, Follows, KeysDiffer;
      ghost var s := table[..];
      ghost var e := FindEmpty(s, contents);
      var home := Home(bits, Hash(k));
      var idx: nat, d: nat := home, 0;
      while true
        invariant d <= Distance(tablelen, home, e) && idx == Probe(tablelen, home, d)
        invariant forall j :: 0 <= j < d ==> !IsAt(s, k, Probe(tablelen, home, j))
        decreases tablelen - d
      {
        var bkt := table[idx];
        assert bkt == s[idx];
        if bkt.Empty? || d > Distance(tablelen, Home(bits, bkt.hash), idx) {
          StopMeansAbsent(s, bits, k, d);
          return None;
        }
        if bkt.key == k {
          return Some(idx);
        }
        d := d + 1;
        idx := Next(tablelen, idx);
      }
    }

    method Find(k: key) returns (data: Option<T>)
      requires Valid()
      ensures data == if k in contents then Some(contents[k]) else None
    {
      if size == 0 {
        return None;
      }
      var at := Locate(k);
      match at
      case None => data := None;
      case Some(i) => data := Some(table[i].data);
    }

    ghost function State(): Load
      reads this
    {
      Load(tablelen, bits, size)
    }

    /** Every entry moves to a longer array; none can be met there twice. No memory is handed out for the length 0. */
    method Resize(newLen: nat, newBits: nat) returns (rv: int)
      requires Valid()
      requires newLen != 0 ==> newLen == Pow2(newBits) && INITIAL_TABLE_LENBITS <= newBits <= 31 && newLen > tablelen
      modifies this`table, this`tablelen, this`bits
      ensures Valid()
      ensures if newLen == 0 then rv == ERR_NOMEM && table == old(table) && State() == old(State())
              else rv == 0 && tablelen == newLen && bits == newBits && fresh(table)
    {
      if newLen == 0 {
        return ERR_NOMEM;
      }
      hide Hash, Follows, Ordered, Represents, KeysDiffer;
      var newTable := new Bucket<T>[newLen](_ => Empty);
      EmptyOrdered<T>(newTable[..], newBits);
      Rehash(newTable, newBits);
      table, tablelen, bits := newTable, newLen, newBits;
      rv := 0;
    }

    method Rehash(newTable: array<Bucket<T>>, newBits: nat)
      requires Valid() && newTable != table && newTable.Length > tablelen
      requires INITIAL_TABLE_LENBITS <= newBits <= 31 && newTable.Length == Pow2(newBits)
      requires Ordered(newTable[..], newBits) && Represents(newTable[..], map[])
      modifies newTable
      ensures Ordered(newTable[..], newBits) && Represents(newTable[..], contents)
    {
      hide Home, Hash, Pow2, Follows, Ordered, Represents, KeysDiffer;
      EmptyRepresents<T>();
      ghost var s, m: map<key, T> := table[..], map[];
      for i := 0 to tablelen
        invariant Ordered(newTable[..], newBits) && Represents(newTable[..], m) && Represents(s[..i], m) && |m| <= i
      {
        assert s[..i + 1] == s[..i] + [s[i]];
        assert table[i] == s[i];
        if table[i].Full? {
          OneMore(s, i, m, bits);
          var inserted := Insert(newTable, newBits, table[i].hash, table[i].key, table[i].data, m);
          m := m[table[i].key := table[i].data];
        } else {
          NoMore(s, i, m);
        }
      }
      assert s[..tablelen] == s;
      RepresentsOne(s, m, contents);
    }

    /** The table grows when the load test says so. */
    method GrowIfFull() returns (rv: int)
      requires Valid()
      modifies this`table, this`tablelen, this`bits
      ensures Valid() && (table == old(table) || fresh(table))
      ensures rv == if Grown(old(State())).tablelen == 0 then ERR_NOMEM else 0
      ensures State() == if rv == 0 then Grown(old(State())) else old(State())
      ensures rv == 0 ==> tablelen > 0 && (size + 1) * 4 <= tablelen * 3
    {
      hide Hash, Pow2, Follows, KeysDiffer, Represents;
      LoadFits();
      Growth(State());
      rv := 0;
      if (size + 1) * 4 > tablelen * 3 % UINT32_SIZE {
        if tablelen > 0 {
          rv := Resize(tablelen * 2 % UINT32_SIZE, bits + 1);
        } else {
          rv := Resize(16, INITIAL_TABLE_LENBITS);
        }
      }
    }

    /**
     * A new entry; an old key is refused and nothing changes. When the longest table is asked to grow nothing changes
     * either.
     */
    method Add(k: key, data: T) returns (rv: int)
      requires Valid()
      modifies this, table
      ensures Valid() && (table == old(table) || fresh(table))
      ensures rv == if old(bits == 31 && size >= LONGEST_TABLE_FULL) then ERR_NOMEM
                    else if k in old(contents) then ERR_INVALID_ARGUMENT else 0
      ensures contents == if rv == 0 then old(contents)[k := data] else old(contents)
      ensures match After(old(State()), if k in old(contents) then KnownKey else NewKey)
              case None => rv == ERR_NOMEM && State() == old(State())
              case Some(t) => State() == t
    {
      hide Hash, Pow2, Ordered, Represents;
      LoadFits();
      Growth(State());
      rv := GrowIfFull();
      if rv != 0 {
        return;
      }
      rv := Insert(table, bits, Hash(k), k, data, contents);
      if rv != 0 {
        return;
      }
      contents := contents[k := data];
      size := size + 1;
    }

    lemma LoadFits()
      requires Valid()
      ensures Fits(State())
    {
    }

    method Remove(k: key) returns (rv: int)
      requires Valid()
      modifies this, table
      ensures Valid() && table == old(table)
      ensures rv == if k in old(contents) then 0 else ERR_INVALID_ARGUMENT
      ensures contents == old(contents) - {k}
      ensures Some(State()) == if rv == 0 then After(old(State()), Removed) else Some(old(State()))
    {
      if size == 0 {
        return ERR_INVALID_ARGUMENT;
      }
      var at := Locate(k);
      if at.None? {
        return ERR_INVALID_ARGUMENT;
      }
      var idx := at.value;
      ghost var s := table[..];
      ghost var e := FindEmpty(s, contents);
      OpenGap(s, bits, idx);
      GapContents(s, contents, idx);
      table[idx] := Empty;
      assert table[..] == s[idx := Empty];
      contents := contents - {k};
      ShiftBack(table, bits, idx, Dist(s, bits, idx), e, contents);
      size := size - 1;
      rv := 0;
    }

    method Clear()
      requires Valid()
      modifies this, table
      ensures Valid() && contents == map[] && table == old(table) && After(old(State()), Cleared) == Some(State())
    {
      if tablelen == 0 {
        return;
      }
      hide Hash, Pow2, Ordered, Represents;
      for i := 0 to tablelen
        invariant table.Length == tablelen == old(tablelen) && bits == old(bits) && table == old(table)
        invariant forall j :: 0 <= j < i ==> table[j].Empty?
      {
        table[i] := Empty;
      }
      size, contents := 0, map[];
      EmptyOrdered<T>(table[..], bits);
    }
  }

  lemma EmptyRepresents<T>()
    ensures Represents<T>([], map[])
  {
  }

  lemma EmptyOrdered<T>(s: buckets<T>, bits: nat)
    requires 0 < bits <= 32 && |s| == Pow2(bits) && forall i :: 0 <= i < |s| ==> s[i].Empty?
    ensures Ordered(s, bits) && Represents(s, map[])
  {
  }

  lemma OneMore<T>(s: buckets<T>, i: nat, m: map<key, T>, bits: nat)
    requires Ordered(s, bits) && i < |s| && s[i].Full? && Represents(s[..i], m)
    ensures s[i].key !in m && s[i].hash == Hash(s[i].key)
    ensures Represents(s[..i + 1], m[s[i].key := s[i].data])
  {
    hide Hash, Follows;
    var t, u := s[..i], s[..i + 1];
    var m1 := m[s[i].key := s[i].data];
    assert forall j :: 0 <= j < i ==> s[j] == t[j];
    assert s[i].key in m ==> Has(t, s[i].key);
    forall k | k in m1
      ensures Has(u, k)
    {
      if k in m {
        assert Has(t, k);
        var j :| 0 <= j < |t| && t[j].Full? && t[j].key == k;
        assert u[j] == t[j];
      } else {
        assert u[i].key == k;
      }
    }
    assert forall j :: 0 <= j < i ==> u[j] == t[j];
  }

  lemma NoMore<T>(s: buckets<T>, i: nat, m: map<key, T>)
    requires i < |s| && s[i].Empty? && Represents(s[..i], m)
    ensures Represents(s[..i + 1], m)
  {
    var t, u := s[..i], s[..i + 1];
    forall k | k in m
      ensures Has(u, k)
    {
      assert Has(t, k);
      var j :| 0 <= j < |t| && t[j].Full? && t[j].key == k;
      assert u[j] == t[j];
    }
    assert forall j :: 0 <= j < i ==> u[j] == t[j];
  }
}
