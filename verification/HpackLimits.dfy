/** What the inflater holds itself and its peer to, over any octets and any changes of its limit. */
module HpackLimits {
  import opened Bytes
  import opened HpackInteger
  import opened HpackTable
  import opened HpackFormat
  import opened HpackReader
  import opened HpackChunks
  import opened HpackReference
  import HuffmanTable

  // ---------------------------------------------------------------- a change of the limit

  /** A lower limit takes effect at once: the newest entries that fit are left, and the peer owes an update. */
  lemma LowerLimit(s: Dec, n: nat, k: nat)
    requires Between(s) && !s.state.Opcode? && n < s.max && k <= |s.table|
    ensures ChangeLimit(s, n).Some?
    ensures var d := ChangeLimit(s, n).value;
            && d.max == d.settingsMax == d.minMax == n && d.state.ExpectTableSize?
            && |d.table| <= |s.table| && d.table == s.table[..|d.table|]
            && 32 * |d.table| + |Octets(d.table)| <= n
            && (32 * k + |Octets(s.table[..k])| <= n ==> k <= |d.table|)
  {
    LongestFit(s.table, n, k);
    LongestFit(s.table, n, |Fit(s.table, n)|);
  }

  /** Any other limit is only remembered, also while an update is owed; and within a block none is taken. */
  lemma HigherLimit(s: Dec, n: nat)
    ensures Between(s) && !s.state.Opcode? && n >= s.max ==> ChangeLimit(s, n) == Some(s.(settingsMax := n))
    ensures !Between(s) || s.state.Opcode? ==> ChangeLimit(s, n).None?
  {
  }

  /** While an update is owed nothing but an update is read, and of an update only one within the lowest limit. */
  lemma OwedUpdate(P: Params, s: Dec, input: seq<byte>)
    requires ValidParams(P) && s.state.ExpectTableSize? && input != []
    ensures Run(P, s, input).dec.Some? ==> 32 <= input[0] < 64
    ensures forall h, m: nat, rest :: input == h + rest && Spells(h, 5, m) && m > Min(s.minMax, s.settingsMax) ==>
              Run(P, s, input) == Outcome(None, [])
    ensures Accepted(Run(P, s, input)) ==> StartsWithUpdate(input, Min(s.minMax, s.settingsMax))
  {
    hide ValidParams, Run, Spells;
    Begins(P, s, input);
    forall h, m: nat, rest | input == h + rest && Spells(h, 5, m) && m > Min(s.minMax, s.settingsMax)
      ensures Run(P, s, input) == Outcome(None, [])
    {
      TooLarge(P, s, h, m, rest);
    }
    if Accepted(Run(P, s, input)) {
      var x, rest := ItemBackward(P, s, input);
      UpdateFirst(P, ViewOf(s), x);
      assert input == x.head + rest;
    }
  }

  lemma UpdateFirst(P: Params, w: View, x: Item)
    requires ValidParams(P) && w.must && Spelled(P, x) && Effect(P, w, x).Some?
    ensures x.Update? && Spells(x.head, 5, x.n) && x.n <= Min(w.lowest, w.limit) && ItemOctets(x) == x.head
    ensures 32 <= x.head[0] < 64
  {
    Lengths(P);
  }

  ghost predicate StartsWithUpdate(input: seq<byte>, most: nat) {
    exists h, m: nat, rest :: input == h + rest && Spells(h, 5, m) && 32 <= h[0] < 64 && m <= most
  }

  lemma TooLarge(P: Params, s: Dec, h: seq<byte>, m: nat, rest: seq<byte>)
    requires s.state.ExpectTableSize? && Spells(h, 5, m) && m > Min(s.minMax, s.settingsMax)
    ensures Run(P, s, h + rest) == Outcome(None, [])
  {
    var input := h + rest;
    assert input[0] == h[0];
    Begins(P, s, input);
    if h[0] / 32 == 1 {
      var s1 := Dispatch(s, h[0]).dec;
      SpelledIsRead(h, 5, m, rest);
      NumberRun(P, s1, input);
    }
  }

  // ---------------------------------------------------------------- over whole runs

  /** The table is within its maximum, and that within the limit announced last. */
  ghost predicate Holds(s: Dec) {
    SizeOf(s.table) <= s.max <= s.settingsMax
  }

  lemma NumberHolds(P: Params, s: Dec, b: byte)
    requires Holds(s) && IsLengthState(s.state) && Step(P, s, b).Next?
    ensures Holds(Step(P, s, b).dec) && Step(P, s, b).dec.settingsMax == s.settingsMax
  {
    hide SizeOf, Fit, IntByte, Get, NameStart, Insert;
    LengthStep(P, s, b);
    var l := LengthByte(s, b, PrefixOf(s), LimitOf(s));
    if l.Complete? {
      FinishHolds(P, l.dec);
    }
  }

  lemma FinishHolds(P: Params, s: Dec)
    requires Holds(s) && IsLengthState(s.state) && s.left <= LimitOf(s) && Finish(P, s).Next?
    ensures Holds(Finish(P, s).dec) && Finish(P, s).dec.settingsMax == s.settingsMax
  {
    hide SizeOf, Fit, Insert, Get;
    FitFits(s.table, s.left);
    CommitHolds(P, ValueStart(s));
  }

  lemma CommitHolds(P: Params, s: Dec)
    requires Holds(s)
    ensures Commit(P, s).Next? && Holds(Commit(P, s).dec) && Commit(P, s).dec.settingsMax == s.settingsMax
  {
    hide SizeOf, Fit, Get;
    FitFits([Commit(P, s).out[0].field] + s.table, s.max);
  }

  lemma StepHolds(P: Params, s: Dec, b: byte)
    requires Holds(s) && Step(P, s, b).Next?
    ensures Holds(Step(P, s, b).dec) && Step(P, s, b).dec.settingsMax == s.settingsMax
  {
    hide SizeOf, LengthByte, IndexDone, SizeRead, NameStart, Commit, HuffmanTable.ReadByte, HuffmanOk;
    if Between(s) {
      var c := Dispatch(s, b);
      if c.Number? {
        KindsOfFirst(s, b);
        assert Step(P, c.dec, b) == Step(P, s, b);
        NumberHolds(P, c.dec, b);
      }
    } else if IsLengthState(s.state) {
      NumberHolds(P, s, b);
    } else if s.state.ReadValue? || s.state.ReadValuehuff? {
      ValueHolds(P, s, b);
    } else if s.state.NewnameCheckNamelen? {
      var s1 := CheckLength(s, b, NewnameReadNamelen);
      assert Step(P, s1, b) == Step(P, s, b);
      NumberHolds(P, s1, b);
    } else if AwaitsLength(s) {
      var s1 := CheckLength(s, b, ReadValuelen);
      assert Step(P, s1, b) == Step(P, s, b);
      NumberHolds(P, s1, b);
    }
  }

  lemma ValueHolds(P: Params, s: Dec, b: byte)
    requires Holds(s) && (s.state.ReadValue? || s.state.ReadValuehuff?) && Step(P, s, b).Next?
    ensures Holds(Step(P, s, b).dec) && Step(P, s, b).dec.settingsMax == s.settingsMax
  {
    hide SizeOf, Commit, HuffmanTable.ReadByte, HuffmanOk;
    if s.left > 0 {
      var (f, o) := HuffmanTable.ReadByte(P.table, s.fstate, b);
      CommitHolds(P, s.(value := s.value + [b], left := s.left - 1));
      CommitHolds(P, s.(value := s.value + o, fstate := f, left := s.left - 1));
    }
  }

  lemma {:induction false} RunHolds(P: Params, s: Dec, input: seq<byte>)
    requires Holds(s) && Run(P, s, input).dec.Some?
    ensures Holds(Run(P, s, input).dec.value) && Run(P, s, input).dec.value.settingsMax == s.settingsMax
    decreases |input|
  {
    hide Step, Holds;
    if input != [] {
      StepHolds(P, s, input[0]);
      RunHolds(P, Step(P, s, input[0]).dec, input[1..]);
    }
  }

  datatype Event = Received(octets: seq<byte>) | Announced(limit: nat) | BlockEnd

  /** Whatever comes in, in whatever order; None once something has been refused. */
  function After(P: Params, events: seq<Event>): Option<Dec> {
    if events == [] then Some(InitialDec())
    else
      match After(P, events[..|events| - 1])
      case None => None
      case Some(s) =>
        match events[|events| - 1]
        case Received(input) => Run(P, s, input).dec
        case Announced(n) => ChangeLimit(s, n)
        case BlockEnd => Some(EndHeaders(s))
  }

  /** The limit announced last, 4096 before the first. */
  function LastLimit(events: seq<Event>): nat {
    if events == [] then 4096
    else if events[|events| - 1].Announced? then events[|events| - 1].limit
    else LastLimit(events[..|events| - 1])
  }

  /** The inflater never holds more than the limit it announced last. */
  lemma {:induction false} NeverMoreThanAnnounced(P: Params, events: seq<Event>)
    requires After(P, events).Some?
    ensures var s := After(P, events).value;
            32 * |s.table| + |Octets(s.table)| <= s.max <= s.settingsMax == LastLimit(events)
  {
    RunKeepsLimit(P, events);
    SizeLaw(After(P, events).value.table);
  }

  lemma {:induction false} RunKeepsLimit(P: Params, events: seq<Event>)
    requires After(P, events).Some?
    ensures Holds(After(P, events).value) && After(P, events).value.settingsMax == LastLimit(events)
  {
    hide Run, SizeOf, Fit;
    if events != [] {
      var before, e := events[..|events| - 1], events[|events| - 1];
      RunKeepsLimit(P, before);
      var s := After(P, before).value;
      if e.Received? {
        RunHolds(P, s, e.octets);
      } else if e.Announced? {
        FitFits(s.table, e.limit);
      }
    } else {
      SizeLaw([]);
    }
  }
}
