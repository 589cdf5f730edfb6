/** Whole connections: header blocks with changes of the table size limit between them. */
module HpackSession {
  import opened Bytes
  import opened HpackTable
  import opened HpackFormat
  import opened HpackReader
  import opened HpackLockStep

  // ---------------------------------------------------------------- size updates at the head of a block

  function Resized(s: Dec, n: nat): Dec {
    s.(minMax := UINT32_MAX, max := n, table := Fit(s.table, n), state := InflateStart,
       op := Indexed, left := n, shift := 0)
  }

  /** A size update is obeyed if it is within both limits the inflater keeps, and refused otherwise. */
  lemma SizeUpdateRead(P: Params, s: Dec, n: nat, rest: seq<byte>)
    requires s.state.InflateStart? || s.state.ExpectTableSize?
    ensures Run(P, s, SizeUpdate(n) + rest) ==
              if n > Min(s.minMax, s.settingsMax) || n > UINT32_MAX then Outcome(None, [])
              else Run(P, Resized(s, n), rest)
  {
    var e := SizeUpdate(n);
    var s1 := s.(op := Indexed, state := ReadTableSize, left := 0, shift := 0);
    assert e[0] / 32 == 1;
    assert (e + rest)[0] == e[0];
    assert Dispatch(s, e[0]) == Number(s1);
    assert Run(P, s, e + rest) == Run(P, s1, e + rest);
    LengthOctets(P, s1, 0x20, n, rest);
    PrependNothing(Run(P, Resized(s, n), rest));
  }

  // ---------------------------------------------------------------- the invariant

  /** Smallest table size the deflater is about to announce. */
  function Lowest(e: Enc): nat {
    Min(e.minMax, e.max)
  }

  /**
   * Between blocks. With no change pending the tables are the same. With one pending, the deflater has
   * already evicted down to the smallest size it will announce, and everything it will announce is within
   * the limits the inflater will hold it to.
   */
  ghost predicate InStep(e: Enc, s: Dec) {
    && (s.state.InflateStart? || s.state.ExpectTableSize?)
    && SizeOf(s.table) <= s.max <= UINT32_MAX && SizeOf(e.table) <= e.max <= UINT32_MAX
    && e.minMax <= UINT32_MAX
    && if e.notify then
         && e.table == Fit(s.table, Lowest(e))
         && Lowest(e) <= s.minMax && e.max <= s.settingsMax
         && (e.minMax <= e.max || e.max == e.limit)
       else
         && e.table == s.table && e.max == s.max
         && s.state.InflateStart? && e.minMax == s.minMax == UINT32_MAX
  }

  lemma InitiallyInStep(limit: nat)
    ensures InStep(InitialEnc(limit), InitialDec())
  {
  }

  /** Both ends learning the same new limit stay in step. */
  lemma LimitChangeKeepsStep(e: Enc, s: Dec, n: nat)
    requires InStep(e, s) && n <= UINT32_MAX
    ensures ChangeLimit(s, n).Some? && InStep(ChangeSize(e, n), ChangeLimit(s, n).value)
  {
    hide Fit, SizeOf;
    var next := Min(n, e.limit);
    var e', s' := ChangeSize(e, n), ChangeLimit(s, n).value;
    FitFits(e.table, next);
    FitFits(s.table, n);
    if e.notify {
      FitTwice(s.table, Lowest(e), next);
    }
    FitTwice(s.table, n, Lowest(e'));
    if !e.notify {
      FitKeepsAll(s.table, s.max);
    }
  }

  lemma HeadRead(P: Params, e: Enc, s: Dec, rest: seq<byte>)
    requires InStep(e, s)
    ensures exists s1 :: Run(P, s, HeadBytes(e) + rest) == Run(P, s1, rest) && AfterHead(e, s, s1)
  {
    if !e.notify {
      assert HeadBytes(e) + rest == rest;
      assert AfterHead(e, s, s);
    } else if e.max > e.minMax {
      assert HeadBytes(e) + rest == SizeUpdate(e.minMax) + (SizeUpdate(e.max) + rest);
      SizeUpdateRead(P, s, e.minMax, SizeUpdate(e.max) + rest);
      SizeUpdateRead(P, Resized(s, e.minMax), e.max, rest);
      FitTwice(s.table, e.minMax, e.max);
      assert AfterHead(e, s, Resized(Resized(s, e.minMax), e.max));
    } else {
      assert HeadBytes(e) == SizeUpdate(e.max);
      SizeUpdateRead(P, s, e.max, rest);
      assert AfterHead(e, s, Resized(s, e.max));
    }
  }

  /** After the head of a block the inflater has exactly the deflater's table, ready for fields. */
  ghost predicate AfterHead(e: Enc, s: Dec, s1: Dec) {
    s1.state.InflateStart? && s1.table == e.table && s1.max == e.max && s1.minMax == UINT32_MAX
    && s1.settingsMax == s.settingsMax
  }

  /**
   * One block: accepted exactly when every literal is within the inflater's limit; then every field is
   * delivered in order and both tables and sizes are equal.
   */
  lemma BlockRoundTrip(P: Params, e: Enc, s: Dec, nvs: seq<Nv>)
    requires ValidParams(P) && InStep(e, s)
    ensures var o := Run(P, s, BlockBytes(P, e, nvs));
            if AllAcceptable(P, e.table, e.max, nvs) then
              && o.dec.Some? && AtBoundary(o.dec.value)
              && o.out == Delivery(P, e.max, nvs)
              && InStep(AfterBlock(P, e, nvs), EndHeaders(o.dec.value))
              && o.dec.value.table == AfterBlock(P, e, nvs).table
            else o.dec.None? && o.out <= Delivery(P, e.max, nvs)
  {
    var rest := FieldsBytes(P, e.table, e.max, nvs);
    HeadRead(P, e, s, rest);
    var s1 :| Run(P, s, HeadBytes(e) + rest) == Run(P, s1, rest) && AfterHead(e, s, s1);
    ValidIsUsable(P);
    FieldsRoundTrip(P, s1, e.max, nvs);
  }

  /** The same, however the block is cut into chunks on its way. */
  lemma ChunkedBlockRoundTrip(P: Params, e: Enc, s: Dec, nvs: seq<Nv>, chunks: seq<seq<byte>>)
    requires ValidParams(P) && InStep(e, s) && chunks != [] && Flatten(chunks) == BlockBytes(P, e, nvs)
    ensures var o := FedAll(P, s, chunks);
            if AllAcceptable(P, e.table, e.max, nvs) then
              o.dec.Some? && o.out == Delivery(P, e.max, nvs) && InStep(AfterBlock(P, e, nvs), o.dec.value)
            else o.dec.None? && o.out <= Delivery(P, e.max, nvs)
  {
    hide Run, FedAll, Flatten, BlockBytes, AllAcceptable, Delivery, AfterBlock, InStep;
    ChunkIndependence(P, s, chunks);
    BlockRoundTrip(P, e, s, nvs);
  }

  // ---------------------------------------------------------------- runs

  datatype Action = Settings(limit: nat) | Block(nvs: seq<Nv>)

  /** Both ends run side by side; None as soon as the inflater refuses something. */
  function Session(P: Params, e: Enc, s: Dec, actions: seq<Action>): Option<(Enc, Dec, seq<seq<Emitted>>)>
    requires |P.statics| == STATIC_LENGTH && |P.code.codes| == 257
    decreases |actions|
  {
    if actions == [] then Some((e, s, []))
    else match actions[0]
      case Settings(n) =>
        var s1 := ChangeLimit(s, n);
        if s1.None? then None else Session(P, ChangeSize(e, n), s1.value, actions[1..])
      case Block(nvs) =>
        var o := Run(P, s, BlockBytes(P, e, nvs));
        if o.dec.None? || !AtBoundary(o.dec.value) then None
        else
          match Session(P, AfterBlock(P, e, nvs), EndHeaders(o.dec.value), actions[1..])
          case None => None
          case Some(r) => Some((r.0, r.1, [o.out] + r.2))
  }

  /** The deflater alone never writes a literal that is too long. */
  predicate NothingTooLong(P: Params, e: Enc, actions: seq<Action>)
    requires |P.statics| == STATIC_LENGTH && |P.code.codes| == 257
    decreases |actions|
  {
    actions == [] ||
    match actions[0]
    case Settings(n) => NothingTooLong(P, ChangeSize(e, n), actions[1..])
    case Block(nvs) => AllAcceptable(P, e.table, e.max, nvs) && NothingTooLong(P, AfterBlock(P, e, nvs), actions[1..])
  }

  /** What should be delivered, block by block. */
  function Deliveries(P: Params, e: Enc, actions: seq<Action>): seq<seq<Emitted>>
    requires |P.statics| == STATIC_LENGTH
    decreases |actions|
  {
    if actions == [] then []
    else match actions[0]
      case Settings(n) => Deliveries(P, ChangeSize(e, n), actions[1..])
      case Block(nvs) => [Delivery(P, e.max, nvs)] + Deliveries(P, AfterBlock(P, e, nvs), actions[1..])
  }

  ghost predicate LimitsFit32Bits(actions: seq<Action>) {
    forall i :: 0 <= i < |actions| && actions[i].Settings? ==> actions[i].limit <= UINT32_MAX
  }

  /**
   * Lock step over whole runs: whatever blocks are sent and however the limit changes in between, the
   * inflater delivers exactly the header lists that were sent and the two ends are in step at the end; it
   * refuses exactly when some literal is longer than it allows.
   */
  lemma {:induction false} LockStep(P: Params, e: Enc, s: Dec, actions: seq<Action>)
    requires ValidParams(P) && InStep(e, s) && LimitsFit32Bits(actions)
    ensures var r := Session(P, e, s, actions);
            && (r.Some? <==> NothingTooLong(P, e, actions))
            && (r.Some? ==> r.value.2 == Deliveries(P, e, actions) && InStep(r.value.0, r.value.1))
    decreases |actions|
  {
    if actions != [] {
      var rest := actions[1..];
      assert LimitsFit32Bits(rest) by {
        assert forall i :: 0 <= i < |rest| ==> rest[i] == actions[i + 1];
      }
      match actions[0]
      case Settings(n) =>
        assert actions[0].limit <= UINT32_MAX;
        LimitChangeKeepsStep(e, s, n);
        LockStep(P, ChangeSize(e, n), ChangeLimit(s, n).value, rest);
      case Block(nvs) =>
        BlockRoundTrip(P, e, s, nvs);
        var o := Run(P, s, BlockBytes(P, e, nvs));
        if o.dec.Some? {
          LockStep(P, AfterBlock(P, e, nvs), EndHeaders(o.dec.value), rest);
        }
    }
  }

  /** Two freshly initialised ends. */
  lemma FreshEndsLockStep(P: Params, limit: nat, actions: seq<Action>)
    requires ValidParams(P) && LimitsFit32Bits(actions) && NothingTooLong(P, InitialEnc(limit), actions)
    ensures var r := Session(P, InitialEnc(limit), InitialDec(), actions);
            r.Some? && r.value.2 == Deliveries(P, InitialEnc(limit), actions) && InStep(r.value.0, r.value.1)
  {
    InitiallyInStep(limit);
    LockStep(P, InitialEnc(limit), InitialDec(), actions);
  }
}
