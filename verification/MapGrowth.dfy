/** How long the hash map's table gets, and for how long 32 bits let it grow. */
module MapGrowth {
  import opened Bytes

  const INITIAL_TABLE_LENBITS := 4

  /** From this many entries on the longest table of all is asked to grow. */
  const LONGEST_TABLE_FULL := 0x2000_0000

  /** New keys that an empty map takes before it is asked for a table that 32 bits cannot measure. */
  const MOST_INSERTIONS := 0x3000_0001

  datatype Load = Load(tablelen: nat, bits: nat, size: nat)

  /** At most three quarters of the buckets are taken. */
  ghost predicate Fits(t: Load) {
    && t.size * 4 <= t.tablelen * 3
    && if t.tablelen == 0 then t.bits == 0 else INITIAL_TABLE_LENBITS <= t.bits <= 31 && t.tablelen == Pow2(t.bits)
  }

  /** Length of the table that is to take one more entry; the products wrap at 32 bits. */
  function NextLength(tablelen: nat, size: nat): nat {
    if (size + 1) * 4 > tablelen * 3 % UINT32_SIZE then if tablelen > 0 then tablelen * 2 % UINT32_SIZE else 16
    else tablelen
  }

  function Grown(t: Load): Load {
    var n := NextLength(t.tablelen, t.size);
    Load(n, if n == t.tablelen then t.bits else if t.tablelen > 0 then t.bits + 1 else INITIAL_TABLE_LENBITS, t.size)
  }

  /**
   * The load test and doubling leave room for one more entry and an empty bucket, except for the longest table: its
   * length times three wraps, so that it is asked to grow when it is a quarter full, and doubling it gives nothing.
   */
  lemma Growth(t: Load)
    requires Fits(t)
    ensures Fits(Grown(t)) && (t.size + 1) * 4 <= Grown(t).tablelen * 3 <==>
            !(t.bits == 31 && t.size >= LONGEST_TABLE_FULL)
    ensures Grown(t).tablelen == 0 <==> t.bits == 31 && t.size >= LONGEST_TABLE_FULL
    ensures Grown(t).tablelen in {0, t.tablelen} || Grown(t).tablelen > t.tablelen
  {
    hide Pow2;
    Pow2Of31();
    if t.tablelen > 0 {
      TableLength(t);
    }
  }

  lemma TableLength(t: Load)
    requires Fits(t) && t.tablelen > 0
    ensures 16 <= t.tablelen && 2 * t.tablelen == Pow2(t.bits + 1)
    ensures if t.bits < 31 then t.tablelen <= 0x4000_0000 else t.tablelen == 0x8000_0000
  {
    Pow2Of31();
    Pow2Monotone(4, t.bits);
    if t.bits < 31 {
      Pow2Monotone(t.bits, 30);
    }
  }

  lemma Pow2Of31()
    ensures Pow2(4) == 16 && Pow2(30) == 0x4000_0000 && Pow2(31) == 0x8000_0000
  {
    Pow2Of64();
    assert Pow2(32) == 2 * Pow2(31) && Pow2(31) == 2 * Pow2(30);
  }

  // ---------------------------------------------------------------- runs

  datatype Event = NewKey | KnownKey | Removed | Cleared

  /** Nothing if the table would have to get the length zero. */
  function After(t: Load, e: Event): Option<Load> {
    if e.Removed? then Some(t.(size := if t.size > 0 then t.size - 1 else 0))
    else if e.Cleared? then Some(t.(size := 0))
    else
      var g := Grown(t);
      if g.tablelen == 0 then None else Some(if e.NewKey? then g.(size := g.size + 1) else g)
  }

  function Run(events: seq<Event>): Option<Load> {
    if events == [] then Some(Load(0, 0, 0))
    else
      match Run(events[..|events| - 1])
      case None => None
      case Some(t) => After(t, events[|events| - 1])
  }

  /** Keys are only put in while there are fewer than 0x3000_0000 entries. */
  predicate StaysBelow(events: seq<Event>) {
    events == [] ||
    var before, e := events[..|events| - 1], events[|events| - 1];
    && StaysBelow(before)
    && ((e.NewKey? || e.KnownKey?) && Run(before).Some? ==> Run(before).value.size < MOST_INSERTIONS - 1)
  }

  /** Over any such run the table can grow whenever it has to. */
  lemma {:induction false} RunBelow(events: seq<Event>)
    requires StaysBelow(events)
    ensures Run(events).Some? && Fits(Run(events).value) && Run(events).value.bits <= 30
  {
    if events != [] {
      var before := events[..|events| - 1];
      RunBelow(before);
      Growth(Run(before).value);
      BelowLongest(Run(before).value);
    }
  }

  lemma BelowLongest(t: Load)
    requires Fits(t) && t.bits <= 30
    ensures Grown(t).bits == 31 <==> t.bits == 30 && t.size >= MOST_INSERTIONS - 1
  {
    hide Pow2;
    Pow2Of31();
    if t.tablelen > 0 {
      TableLength(t);
      if t.bits == 30 {
        assert t.tablelen == 0x4000_0000;
      }
    }
  }

  lemma {:induction false} InsertionsLoad(events: seq<Event>)
    requires |events| <= MOST_INSERTIONS && forall i :: 0 <= i < |events| ==> events[i].NewKey?
    ensures Run(events).Some? && Fits(Run(events).value) && Run(events).value.size == |events|
    ensures Run(events).value.bits == 31 <==> |events| == MOST_INSERTIONS
  {
    if events != [] {
      InsertionsLoad(events[..|events| - 1]);
      var t := Run(events[..|events| - 1]).value;
      Growth(t);
      BelowLongest(t);
      if |events| == MOST_INSERTIONS && t.bits < 30 {
        Pow2Of31();
        Pow2Monotone(Grown(t).bits, 30);
      }
    }
  }

  /** New keys go into an empty map as long as there are no more than 805306369 of them. */
  lemma {:induction false} InsertionsSucceed(events: seq<Event>)
    requires forall i :: 0 <= i < |events| ==> events[i].NewKey?
    ensures Run(events).Some? <==> |events| <= MOST_INSERTIONS
    decreases |events|
  {
    if |events| <= MOST_INSERTIONS {
      InsertionsLoad(events);
    } else {
      var before := events[..|events| - 1];
      InsertionsSucceed(before);
      if |before| == MOST_INSERTIONS {
        InsertionsLoad(before);
        Growth(Run(before).value);
      }
    }
  }
}
