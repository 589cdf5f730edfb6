/**
 * The inflater as the library keeps it: fed chunk by chunk, it works through as much of each chunk as it can in
 * every state and hands out one field per call. It is proved to do what the octet machine of HpackReader does.
 */
module HpackInflater {
  import opened Bytes
  import opened HpackInteger
  import opened HpackTable
  import opened HpackFormat
  import opened HpackReader
  import opened HpackChunks
  import opened HpackContext
  import opened HpackRing
  import HuffmanTable

  const ERR_HEADER_COMP := -523
  const ERR_INVALID_STATE := -519

  /** How one piece of work inside a chunk ended. */
  datatype Verdict = Go | Busy | Almost | Emit(field: Emitted) | Refuse

  /** What holds of the state between octets. */
  ghost predicate Coherent(s: Dec) {
    && SizeOf(s.table) <= s.max <= UINT32_MAX && s.minMax <= UINT32_MAX
    && (if IsLengthState(s.state) then s.left <= LimitOf(s) && (s.left == 0 ==> s.shift == 0) else s.shift == 0)
    && (s.state.NewnameReadNamehuff? && s.left == 0 ==> s.fstate == HuffmanTable.ACCEPTED)
    && (s.state.NewnameCheckNamelen? || s.state.NewnameReadNamelen? || Rank(s.state) == 1 ==> s.op.Newname?)
    && (!s.op.Newname? &&
        (s.state.CheckValuelen? || s.state.ReadValuelen? || s.state.ReadValue? || s.state.ReadValuehuff?)
        ==> s.index < STATIC_LENGTH + |s.table|)
  }

  predicate AwaitsValue(s: Dec) {
    s.state.ReadValue? || s.state.ReadValuehuff?
  }

  /** What the octet machine makes of the rest of the input, `s` being possibly a value just announced. */
  function Rest(P: Params, s: Dec, rest: seq<byte>): Outcome {
    if AwaitsValue(s) then Continue(P, ValueDoneIfEmpty(P, s), rest) else Run(P, s, rest)
  }

  /** A verdict and the state it leaves account for everything the octet machine does with the input. */
  ghost predicate Accounts(P: Params, whole: Outcome, v: Verdict, s: Dec, rest: seq<byte>) {
    match v
    case Go => whole == Run(P, s, rest) && !AwaitsValue(s)
    case Busy => whole == Rest(P, s, rest) && AwaitsValue(s)
    case Almost => rest == [] && whole == Outcome(Some(s), []) && !AtBoundary(s) && (AwaitsValue(s) ==> s.left > 0)
    case Emit(e) => whole == Prepend([e], Run(P, s, rest)) && s.state.Opcode?
    case Refuse => whole == Outcome(None, [])
  }

  class Inflater {
    const P: Params
    const ctx: HdContext
    var settingsMax: nat
    var minMax: nat
    var state: State
    var op: Op
    var left: nat
    var shift: nat
    var index: nat
    var huffman: bool
    var indexRequired: bool
    var noIndex: bool
    var name: seq<byte>
    var value: seq<byte>
    var fstate: nat
    ghost var Repr: set<object>

    /** What not even a failure breaks. */
    ghost predicate Intact()
      reads this, ctx, ctx.buffer
    {
      && this !in Repr && {ctx, ctx.buffer} <= Repr
      && (forall i :: 0 <= i < |ctx.entries| ==> ctx.entries[i] in Repr)
      && |P.statics| == STATIC_LENGTH && HuffmanTable.Stuck(P.table)
      && ctx.Settled()
    }

    ghost predicate Valid()
      reads this, ctx, ctx.buffer
    {
      Intact() && Coherent(Machine())
    }

    /** The state of the octet machine; the shift count only matters while a number is being read. */
    ghost function Machine(): Dec
      reads this, ctx
    {
      Dec(ctx.Table(), ctx.bufsizeMax, settingsMax, minMax, state, op, left,
              if IsLengthState(state) then shift else 0, index, huffman, indexRequired, noIndex, name, value, fstate)
    }

    constructor (P: Params)
      requires |P.statics| == STATIC_LENGTH && HuffmanTable.Stuck(P.table)
      ensures Valid() && Machine() == InitialDec() && !ctx.bad && this.P == P && fresh(Repr)
    {
      this.P := P;
      ctx := new HdContext(DEFAULT_TABLE_SIZE / ENTRY_OVERHEAD);
      settingsMax, minMax := DEFAULT_TABLE_SIZE, UINT32_MAX;
      state, op := InflateStart, OpNone;
      left, shift, index := 0, 0, 0;
      huffman, indexRequired, noIndex := false, false, false;
      name, value, fstate := [], [], 0;
      new;
      Repr := {ctx, ctx.buffer};
    }

    /**
     * Reads as much of a number as the chunk holds and checks it against `maxlen` once.
     */
    method ReadLen(input: seq<byte>, i: nat, p: prefix, maxlen: nat) returns (ok: bool, fin: bool, j: nat)
      requires Valid() && i < |input| && IsLengthState(state)
      requires p == PrefixOf(Machine()) && maxlen == LimitOf(Machine()) <= UINT32_MAX
      modifies this`left, this`shift
      ensures ctx.Settled() && Machine() == old(Machine()).(left := left, shift := shift)
      ensures i <= j <= |input|
      ensures !ok ==> Run(P, old(Machine()), input[i..]) == Outcome(None, [])
      ensures ok ==> left <= maxlen && Coherent(Machine().(shift := 0))
      ensures ok && !fin ==> Coherent(Machine())
      ensures ok && !fin ==>
                j == |input| && left > 0 && Run(P, old(Machine()), input[i..]) == Outcome(Some(Machine()), [])
      ensures ok && fin ==> j > i
      ensures ok && fin ==>
                Run(P, old(Machine()), input[i..]) == Continue(P, Finish(P, Machine().(shift := 0)), input[j..])
    {
      hide Run, Finish, Continue, IntRun, Coherent, HuffmanTable.Stuck, HdContext.Settled;
      LengthCoherent(Machine());
      NumberRun(P, Machine(), input[i..]);
      var rv, out, sh;
      rv, out, sh, fin := DecodeLength(left, shift, input[i..], p);
      LengthProgress(left, shift, input[i..], p);
      if rv == -1 || out > maxlen {
        return false, false, i;
      }
      left, shift := out, sh;
      ok, j := true, i + rv;
      assert input[i..][rv..] == input[j..];
    }

    /** The first octet of a representation; only the one of a new name is used up here. */
    method StartRepresentation(input: seq<byte>, i: nat) returns (v: Verdict, j: nat)
      requires Valid() && i < |input| && Rank(state) == 2
      modifies this
      ensures Valid() && Repr == old(Repr)
      ensures v.Go? || v.Refuse?
      ensures i <= j <= |input| && (v.Go? ==> Rank(state) < 2)
      ensures Accounts(P, Run(P, old(Machine()), input[i..]), v, Machine(), input[j..])
    {
      hide HdContext.Settled, Coherent, Accounts, Run, LimitOf, HuffmanTable.Stuck, Chosen;
      ghost var s := Machine();
      var b := input[i];
      assert input[i..][0] == b && input[i..][1..] == input[i + 1..];
      StartAccounts(P, s, input[i..]);
      if (state.ExpectTableSize? && b / 32 != 1) || (b / 32 == 1 && state.Opcode?) {
        return Refuse, i;
      }
      var newname := Choose(b);
      v, j := Go, if newname then i + 1 else i;
    }

    method Choose(b: byte) returns (newname: bool)
      modifies this`op, this`state, this`left, this`shift, this`indexRequired, this`noIndex
      ensures Machine() == Chosen(old(Machine()), b) && newname == state.NewnameCheckNamelen?
    {
      newname := false;
      if b / 32 == 1 {
        op, state := Indexed, ReadTableSize;
      } else if b >= 128 {
        op, state := Indexed, ReadIndex;
      } else {
        newname := b == 0x40 || b == 0 || b == 0x10;
        if newname {
          op, state := Newname, NewnameCheckNamelen;
        } else {
          op, state := Indname, ReadIndex;
        }
        indexRequired, noIndex := b / 64 % 2 == 1, b / 16 == 1;
      }
      left, shift := 0, 0;
    }

    method ShrinkTo(max: nat)
      requires ctx.Settled() && max <= UINT32_MAX
      modifies ctx`bufsizeMax, ctx`len, ctx`bufsize, ctx`entries, ctx.entries
      ensures ctx.Settled() && Machine() == old(Machine()).(max := max, table := Fit(old(ctx.Table()), max))
      ensures forall i :: 0 <= i < |ctx.entries| ==> ctx.entries[i] in old(ctx.entries)
    {
      hide HdContext.Valid, HdContext.Indexed, Fit;
      IndexedNull(ctx);
      ctx.SetMax(max, null);
      ctx.ShrinkTableSize(null);
    }

    /** The size update of a block's head: within both limits, or refused. */
    method DoTableSize(input: seq<byte>, i: nat) returns (v: Verdict, j: nat)
      requires Valid() && i < |input| && state.ReadTableSize?
      modifies this, Repr
      ensures Intact() && (!v.Refuse? ==> Valid()) && Repr == old(Repr) && ctx.bad == old(ctx.bad)
      ensures (v.Go? || v.Almost? || v.Refuse?) && i <= j <= |input| && (v.Go? ==> j > i)
      ensures Accounts(P, Run(P, old(Machine()), input[i..]), v, Machine(), input[j..])
    {
      hide Run, Finish, Continue, HuffmanTable.Stuck, HdContext.Settled, Fit, SizeOf, Coherent, HdContext.Table;
      ghost var s := Machine();
      LengthCoherent(s);
      var ok, fin;
      ok, fin, j := ReadLen(input, i, 5, Min(minMax, settingsMax));
      if !ok {
        return Refuse, i;
      }
      if !fin {
        return Almost, j;
      }
      ghost var d := Machine();
      SizeAccounts(P, d, Run(P, s, input[i..]), input[j..]);
      ApplySize();
      v := Go;
    }

    method ApplySize()
      requires ctx.Settled() && state.ReadTableSize? && left <= UINT32_MAX
      modifies this`minMax, this`state, ctx`bufsizeMax, ctx`len, ctx`bufsize, ctx`entries, ctx.entries
      ensures ctx.Settled() && Machine() == SizeRead(old(Machine()).(shift := 0))
      ensures forall i :: 0 <= i < |ctx.entries| ==> ctx.entries[i] in old(ctx.entries)
    {
      hide Fit, HdContext.Settled;
      minMax := UINT32_MAX;
      ShrinkTo(left);
      state := InflateStart;
    }

    /** The field at an index already checked. */
    method TableGet(idx: nat) returns (f: Field)
      requires |P.statics| == STATIC_LENGTH && ctx.Settled() && idx < STATIC_LENGTH + |ctx.Table()|
      ensures f == Get(P, ctx.Table(), idx)
    {
      if idx >= STATIC_LENGTH {
        f := ctx.Get(idx - STATIC_LENGTH).field;
      } else {
        f := P.statics[idx].field;
      }
    }

    lemma IndexLimit()
      requires ctx.Settled()
      ensures ctx.len == |ctx.Table()| && ctx.len + STATIC_LENGTH <= UINT32_MAX
    {
      EntryCount(ctx.Table());
    }

    /** An index: zero is refused, an indexed field is handed out, an indexed name awaits its value. */
    method DoIndex(input: seq<byte>, i: nat) returns (v: Verdict, j: nat)
      requires Valid() && i < |input| && state.ReadIndex?
      modifies this
      ensures Intact() && (!v.Refuse? ==> Valid()) && Repr == old(Repr)
      ensures !v.Busy? && i <= j <= |input| && (v.Go? || v.Emit? ==> j > i)
      ensures Accounts(P, Run(P, old(Machine()), input[i..]), v, Machine(), input[j..])
    {
      hide Run, Finish, Continue, HuffmanTable.Stuck, HdContext.Settled, Get, SizeOf, Coherent;
      ghost var s := Machine();
      IndexLimit();
      var ok, fin;
      var p := if op.Indexed? then 7 else if indexRequired then 6 else 4;
      ok, fin, j := ReadLen(input, i, p, ctx.len + STATIC_LENGTH);
      if !ok {
        return Refuse, i;
      }
      if !fin {
        return Almost, j;
      }
      ghost var d := Machine();
      if left == 0 {
        ZeroIndex(P, d, Run(P, s, input[i..]), input[j..]);
        return Refuse, j;
      }
      v := Go;
      if op.Indexed? {
        var f := TableGet(left - 1);
        v := Emit(Emitted(f, false));
      }
      IndexAccounts(P, d, Run(P, s, input[i..]), input[j..], v);
      hide Accounts;
      SetIndex(left - 1, if v.Emit? then Opcode else CheckValuelen);
    }

    method SetIndex(index: nat, state: State)
      requires !IsLengthState(state)
      modifies this`index, this`state
      ensures Machine() == old(Machine()).(shift := 0, index := index, state := state)
    {
      this.index, this.state := index, state;
    }

    /** A name's length; its first octet also carries the Huffman flag. */
    method DoNamelen(input: seq<byte>, i: nat) returns (v: Verdict, j: nat)
      requires Valid() && i < |input| && (state.NewnameCheckNamelen? || state.NewnameReadNamelen?)
      modifies this
      ensures Intact() && (!v.Refuse? ==> Valid()) && Repr == old(Repr)
      ensures (v.Go? || v.Almost? || v.Refuse?) && i <= j <= |input| && (v.Go? ==> j > i)
      ensures Accounts(P, Run(P, old(Machine()), input[i..]), v, Machine(), input[j..])
    {
      hide Run, Finish, Continue, HuffmanTable.Stuck, HdContext.Settled, Coherent;
      ghost var s := Machine();
      if state.NewnameCheckNamelen? {
        CheckedSame(P, s, input[i..], NewnameReadNamelen);
        CheckLen(input[i], NewnameReadNamelen);
      }
      var ok, fin;
      ok, fin, j := ReadLen(input, i, 7, MAX_NV);
      if !ok {
        return Refuse, i;
      }
      if !fin {
        return Almost, j;
      }
      NameAccounts(P, Machine(), Run(P, s, input[i..]), input[j..]);
      hide Accounts;
      StartName();
      return Go, j;
    }

    method StartName()
      modifies this`name, this`fstate, this`state, this`shift
      ensures Machine() == NameStart(old(Machine()).(shift := 0))
    {
      name, shift := [], 0;
      if huffman {
        fstate, state := HuffmanTable.ACCEPTED, NewnameReadNamehuff;
      } else {
        state := NewnameReadName;
      }
    }

    method CheckLen(b: byte, next: State)
      modifies this`huffman, this`state, this`left, this`shift
      ensures Machine() == CheckLength(old(Machine()), b, next)
    {
      huffman, state, left, shift := b >= 128, next, 0, 0;
    }

    /** A value's length; the value itself is looked at even if the chunk ends here, as it may be empty. */
    method DoValuelen(input: seq<byte>, i: nat) returns (v: Verdict, j: nat)
      requires Valid() && i < |input| && (state.CheckValuelen? || state.ReadValuelen?)
      modifies this
      ensures Intact() && (!v.Refuse? ==> Valid()) && Repr == old(Repr)
      ensures (v.Busy? || v.Almost? || v.Refuse?) && i <= j <= |input|
      ensures v.Busy? ==> j > i && AwaitsValue(Machine()) && (state.ReadValuehuff? ==> fstate == HuffmanTable.ACCEPTED)
      ensures Accounts(P, Run(P, old(Machine()), input[i..]), v, Machine(), input[j..])
    {
      hide Run, Finish, Continue, HuffmanTable.Stuck, HdContext.Settled, Coherent;
      ghost var s := Machine();
      if state.CheckValuelen? {
        CheckedSame(P, s, input[i..], ReadValuelen);
        CheckLen(input[i], ReadValuelen);
      }
      var ok, fin;
      ok, fin, j := ReadLen(input, i, 7, MAX_NV);
      if !ok {
        return Refuse, i;
      }
      if !fin {
        return Almost, j;
      }
      ValueAccounts(P, Machine(), Run(P, s, input[i..]), input[j..]);
      hide Accounts;
      StartValue();
      return Busy, j;
    }

    method StartValue()
      modifies this`value, this`fstate, this`state, this`shift
      ensures Machine() == ValueStart(old(Machine()).(shift := 0))
    {
      value, shift := [], 0;
      if huffman {
        fstate, state := HuffmanTable.ACCEPTED, ReadValuehuff;
      } else {
        state := ReadValue;
      }
    }

    /** Huffman octets through the table, two nibbles each. */
    method HuffDecode(part: seq<byte>) returns (f: nat, out: seq<byte>)
      ensures (f, out) == HuffmanTable.Read(P.table, fstate, part)
    {
      f, out := fstate, [];
      for k := 0 to |part|
        invariant (f, out) == HuffmanTable.Read(P.table, fstate, part[..k])
      {
        assert part[..k + 1] == part[..k] + [part[k]];
        HuffmanTable.ReadAppend(P.table, fstate, part[..k], [part[k]]);
        ReadOne(P.table, f, part[k]);
        hide HuffmanTable.Read;
        var o;
        f, o := HuffByte(f, part[k]);
        out := out + o;
      }
      assert part[..|part|] == part;
    }

    method HuffByte(f0: nat, b: byte) returns (f: nat, out: seq<byte>)
      ensures (f, out) == HuffmanTable.ReadByte(P.table, f0, b)
    {
      hide HuffmanTable.Look;
      var c := HuffmanTable.Look(P.table, f0, b / 16);
      out := if c.Emits() then [c.sym] else [];
      assert out == HuffmanTable.Output(c);
      ghost var first := out;
      c := HuffmanTable.Look(P.table, c.fstate, b % 16);
      if c.Emits() {
        out := out + [c.sym];
      }
      assert out == first + HuffmanTable.Output(c);
      f := c.fstate;
    }

    /** Name octets, as many as the chunk has. */
    method DoName(input: seq<byte>, i: nat) returns (v: Verdict, j: nat)
      requires Valid() && i < |input| && state.NewnameReadName?
      modifies this`name, this`fstate, this`left, this`state
      ensures Valid()
      ensures (v.Go? || v.Almost?) && i <= j <= |input| && (v.Go? ==> j > i || Rank(state) == 0)
      ensures Accounts(P, Run(P, old(Machine()), input[i..]), v, Machine(), input[j..])
    {
      hide Run, Coherent, Accounts, HuffmanTable.Stuck, HdContext.Settled;
      ghost var s := Machine();
      var n := Min(|input| - i, left);
      var part := input[i..i + n];
      assert input[i..] == part + input[i + n..];
      v, j := if left > n then Almost else Go, i + n;
      NameTakenAccounts(P, s, part, input[j..]);
      SetName(name + part, fstate, left - n, if v.Go? then CheckValuelen else state);
    }

    method DoNameHuff(input: seq<byte>, i: nat) returns (v: Verdict, j: nat)
      requires Valid() && i < |input| && state.NewnameReadNamehuff?
      modifies this`name, this`left, this`state, this`fstate
      ensures Intact() && (!v.Refuse? ==> Valid())
      ensures (v.Go? || v.Almost? || v.Refuse?) && i <= j <= |input| && (v.Go? ==> j > i || Rank(state) == 0)
      ensures Accounts(P, Run(P, old(Machine()), input[i..]), v, Machine(), input[j..])
    {
      hide Run, Coherent, Accounts, HuffmanTable.Stuck, HdContext.Settled, HuffmanTable.Read, HuffmanOk;
      ghost var s := Machine();
      var n := Min(|input| - i, left);
      var part := input[i..i + n];
      assert input[i..] == part + input[i + n..];
      var f, out := HuffDecode(part);
      v := if !HuffmanOk(f, left - n) then Refuse else if left > n then Almost else Go;
      j := i + n;
      ghost var s1 := s.(name := name + out, fstate := f, left := left - n,
                         state := if v.Go? then CheckValuelen else state);
      NameHuffAccounts(P, s, part, input[j..], f, out, v, s1);
      SetName(name + out, f, left - n, if v.Go? then CheckValuelen else state);
    }

    method SetName(name: seq<byte>, fstate: nat, left: nat, state: State)
      requires IsLengthState(this.state) <==> IsLengthState(state)
      modifies this`name, this`fstate, this`left, this`state
      ensures Machine() == old(Machine()).(name := name, fstate := fstate, left := left, state := state)
    {
      this.name, this.fstate, this.left, this.state := name, fstate, left, state;
    }

    /** Value octets, as many as the chunk has; `done` says that the value is complete. */
    method TakeValue(input: seq<byte>, i: nat) returns (ok: bool, done: bool, j: nat)
      requires Valid() && i <= |input| && AwaitsValue(Machine())
      requires state.ReadValuehuff? && (left == 0 || i == |input|) ==> fstate == HuffmanTable.ACCEPTED
      modifies this`value, this`left, this`fstate
      ensures !ok ==> Rest(P, old(Machine()), input[i..]) == Outcome(None, [])
      ensures Intact()
      ensures ok ==> Valid() && i <= j <= |input| && done == (left == 0)
      ensures ok && done ==> Rest(P, old(Machine()), input[i..]) == Continue(P, Commit(P, Machine()), input[j..])
      ensures ok && !done ==> j == |input| && Rest(P, old(Machine()), input[i..]) == Outcome(Some(Machine()), [])
      ensures ok ==> Machine() == old(Machine()).(value := value, left := left, fstate := fstate)
      ensures ok && i < |input| && old(left) > 0 ==> j > i
    {
      hide Run, Rest, Commit, Continue, Coherent, Accounts, HuffmanTable.Stuck, HdContext.Settled,
           HuffmanTable.Read, HuffmanOk;
      ghost var s := Machine();
      var n := Min(|input| - i, left);
      var part := input[i..i + n];
      assert input[i..] == part + input[i + n..];
      var f, out := fstate, part;
      if state.ReadValuehuff? {
        f, out := HuffDecode(part);
      }
      ok := state.ReadValue? || HuffmanOk(f, left - n);
      done, j := left == n, i + n;
      ghost var s1 := s.(value := value + out, fstate := f, left := left - n);
      ValueTakenAccounts(P, s, part, input[j..], f, out, ok, s1);
      SetValue(value + out, f, left - n);
    }

    method SetValue(value: seq<byte>, fstate: nat, left: nat)
      requires !IsLengthState(state)
      modifies this`value, this`fstate, this`left
      ensures Machine() == old(Machine()).(value := value, fstate := fstate, left := left)
    {
      this.value, this.fstate, this.left := value, fstate, left;
    }

    method InsertField(f: Field)
      requires Valid()
      modifies this`Repr, Repr
      ensures ctx.Settled() && this !in Repr && {ctx, ctx.buffer} <= Repr
      ensures forall i :: 0 <= i < |ctx.entries| ==> ctx.entries[i] in Repr
      ensures fresh(Repr - old(Repr)) && ctx.bad == old(ctx.bad)
      ensures Machine() == old(Machine()).(table := Insert(old(ctx.Table()), f, ctx.bufsizeMax))
    {
      hide HdContext.Valid, HdContext.Indexed, Insert, Coherent, HuffmanTable.Stuck;
      IndexedNull(ctx);
      ctx.AddIncremental(f, -1, null, 0);
      Repr := Repr + {ctx.buffer} + set i | 0 <= i < |ctx.entries| :: ctx.entries[i] as object;
    }

    method LiteralName() returns (n: seq<byte>)
      requires Valid() && AwaitsValue(Machine())
      ensures n == if op.Newname? then name else Get(P, ctx.Table(), index).name
    {
      if op.Newname? {
        return name;
      }
      var g := TableGet(index);
      n := g.name;
    }

    /** A literal is complete: it goes into the table if so marked, and is handed out. */
    method CommitLiteral() returns (e: Emitted)
      requires Valid() && AwaitsValue(Machine())
      modifies this, Repr
      ensures Valid() && fresh(Repr - old(Repr)) && ctx.bad == old(ctx.bad)
      ensures Commit(P, old(Machine())) == Next(Machine(), [e]) && state.Opcode?
    {
      hide HdContext.Settled, Insert, Get, Coherent, HuffmanTable.Stuck;
      CommitCoherent(P, Machine());
      var n := LiteralName();
      var f := Field(n, value);
      e := Emitted(f, noIndex);
      if indexRequired {
        InsertField(f);
      }
      SetDone(if op.Newname? then [] else name);
    }

    method SetDone(name: seq<byte>)
      modifies this`name, this`value, this`state
      ensures Machine() == old(Machine()).(name := name, value := [], state := Opcode, shift := 0)
    {
      this.name, value, state := name, [], Opcode;
    }

    /** A value, and with it the literal, as far as the chunk goes. */
    method DoValue(input: seq<byte>, i: nat) returns (v: Verdict, j: nat)
      requires Valid() && i <= |input| && AwaitsValue(Machine())
      requires state.ReadValuehuff? && (left == 0 || i == |input|) ==> fstate == HuffmanTable.ACCEPTED
      modifies this, Repr
      ensures fresh(Repr - old(Repr)) && ctx.bad == old(ctx.bad)
      ensures Intact() && if v.Refuse? then Repr == old(Repr) else Valid()
      ensures (v.Emit? || v.Almost? || v.Refuse?) && i <= j <= |input|
      ensures v.Emit? && i < |input| && old(left) > 0 ==> j > i
      ensures Accounts(P, Rest(P, old(Machine()), input[i..]), v, Machine(), input[j..])
    {
      hide Rest, Commit, Coherent, HuffmanTable.Stuck, HdContext.Settled, Run;
      var ok, done;
      ok, done, j := TakeValue(input, i);
      if !ok {
        return Refuse, i;
      }
      if !done {
        return Almost, j;
      }
      var e := CommitLiteral();
      v := Emit(e);
    }

    /** One turn of the loop: whatever the state calls for. */
    method Turn(input: seq<byte>, i: nat, busy: bool) returns (v: Verdict, j: nat)
      requires Valid() && i <= |input| && (i < |input| || busy)
      requires busy ==> AwaitsValue(Machine()) && (state.ReadValuehuff? ==> fstate == HuffmanTable.ACCEPTED)
      requires !busy && AwaitsValue(Machine()) ==> left > 0
      modifies this, Repr
      ensures fresh(Repr - old(Repr)) && ctx.bad == old(ctx.bad)
      ensures Intact() && if v.Refuse? then Repr == old(Repr) else Valid()
      ensures i <= j <= |input| && (v.Go? || v.Busy? ==> j > i || Rank(state) < old(Rank(state)))
      ensures v.Emit? ==> j > i || busy
      ensures v.Busy? ==> j > i && (state.ReadValuehuff? ==> fstate == HuffmanTable.ACCEPTED)
      ensures Accounts(P, Rest(P, old(Machine()), input[i..]), v, Machine(), input[j..])
    {
      hide Rest, Run, Coherent, Accounts, HuffmanTable.Stuck, HdContext.Settled;
      RestIsRun(P, Machine(), input[i..]);
      match state
      case ExpectTableSize => v, j := StartRepresentation(input, i);
      case InflateStart => v, j := StartRepresentation(input, i);
      case Opcode => v, j := StartRepresentation(input, i);
      case ReadTableSize => v, j := DoTableSize(input, i);
      case ReadIndex => v, j := DoIndex(input, i);
      case NewnameCheckNamelen => v, j := DoNamelen(input, i);
      case NewnameReadNamelen => v, j := DoNamelen(input, i);
      case NewnameReadNamehuff => v, j := DoNameHuff(input, i);
      case NewnameReadName => v, j := DoName(input, i);
      case CheckValuelen => v, j := DoValuelen(input, i);
      case ReadValuelen => v, j := DoValuelen(input, i);
      case ReadValuehuff => v, j := DoValue(input, i);
      case ReadValue => v, j := DoValue(input, i);
    }

    /** Between calls: usable, unless an earlier call failed. */
    ghost predicate Ready()
      reads this, ctx, ctx.buffer
    {
      Intact() && (!ctx.bad ==> Valid() && (AwaitsValue(Machine()) ==> left > 0))
    }

    method SetBad(bad: bool)
      requires Intact()
      modifies ctx`bad
      ensures Intact() && ctx.bad == bad && Machine() == old(Machine())
    {
      ctx.bad := bad;
    }

    /**
     * Works through the chunk until a field is complete, the chunk ends, or the input is refused; a failure is final.
     * A last chunk must end at a boundary between representations.
     */
    method InflateHdNv(input: seq<byte>, inFinal: bool) returns (rv: int, nv: Option<Emitted>, fin: bool)
      requires Ready()
      modifies this, Repr
      ensures Ready() && fresh(Repr - old(Repr))
      ensures rv == ERR_HEADER_COMP || 0 <= rv <= |input|
      ensures ctx.bad <==> rv == ERR_HEADER_COMP
      ensures old(ctx.bad) ==> rv == ERR_HEADER_COMP
      ensures rv < 0 ==> nv.None?
      ensures fin <==> !ctx.bad && nv.None? && inFinal
      ensures !old(ctx.bad) ==> Explains(P, old(Machine()), input, inFinal, rv, nv, Machine())
    {
      hide Rest, Run, Coherent, Accounts, HuffmanTable.Stuck, HdContext.Settled;
      nv, fin := None, false;
      if ctx.bad {
        return ERR_HEADER_COMP, nv, fin;
      }
      ghost var s := Machine();
      RestIsRun(P, s, input);
      var i, busy := 0, false;
      assert input[i..] == input;
      while i < |input| || busy
        invariant i <= |input| && Valid() && !ctx.bad && fresh(Repr - old(Repr))
        invariant busy ==> i > 0 && AwaitsValue(Machine()) && (state.ReadValuehuff? ==> fstate == HuffmanTable.ACCEPTED)
        invariant !busy && AwaitsValue(Machine()) ==> left > 0
        invariant Run(P, s, input) == Rest(P, Machine(), input[i..])
        decreases |input| - i, Rank(state)
      {
        var v, j := Turn(input, i, busy);
        AfterTurn(P, s, input, inFinal, v, Machine(), j);
        busy := v.Busy?;
        i := j;
        match v
        case Go =>
        case Busy =>
        case Emit(e) =>
          return j, Some(e), false;
        case Almost =>
          SetBad(inFinal);
          return if inFinal then ERR_HEADER_COMP else j, None, false;
        case Refuse =>
          SetBad(true);
          return ERR_HEADER_COMP, None, false;
      }
      assert input[i..] == [];
      RestAtEnd(P, Machine());
      rv := i;
      if inFinal {
        if !state.Opcode? && !state.InflateStart? {
          SetBad(true);
          rv := ERR_HEADER_COMP;
        } else {
          fin := true;
        }
      }
    }

    method EndHeaders()
      modifies this`state
      ensures Machine() == HpackReader.EndHeaders(old(Machine())).(shift := 0)
      ensures old(state.Opcode? || state.InflateStart?) ==> Machine() == HpackReader.EndHeaders(old(Machine()))
      ensures old(Ready()) ==> Ready()
    {
      state := InflateStart;
    }

    /** The caller's loop over one chunk of a block: all its fields, or those before the refusal. */
    method InflateBlock(input: seq<byte>, inFinal: bool) returns (ok: bool, out: seq<Emitted>)
      requires Ready()
      modifies this, Repr
      ensures Ready() && fresh(Repr - old(Repr)) && ok == !ctx.bad
      ensures old(ctx.bad) ==> !ok && out == []
      ensures !old(ctx.bad) ==>
                Outcome(if ok then Some(Machine()) else None, out) == Fed(P, old(Machine()), input, inFinal)
    {
      hide Run, Fed, Explains, Coherent, HuffmanTable.Stuck, HdContext.Settled;
      out := [];
      if ctx.bad {
        return false, [];
      }
      ghost var s := Machine();
      var i := 0;
      assert input[0..] == input;
      PrependNothing(Fed(P, s, input, inFinal));
      while true
        invariant i <= |input| && Ready() && !ctx.bad && fresh(Repr - old(Repr))
        invariant Fed(P, s, input, inFinal) == Prepend(out, Fed(P, Machine(), input[i..], inFinal))
        decreases |input| - i
      {
        ghost var was := Machine();
        var rv, nv, fin := InflateHdNv(input[i..], inFinal);
        match nv {
          case None =>
            ExplainedEnd(P, was, input[i..], inFinal, rv, Machine());
            if rv < 0 {
              return false, out;
            }
            if fin {
              EndHeaders();
            }
            return true, out;
          case Some(e) =>
            ExplainedField(P, was, input[i..], inFinal, rv, e, Machine());
            PrependTwice(out, [e], Fed(P, Machine(), input[i..][rv..], inFinal));
            assert input[i..][rv..] == input[i + rv..];
            out, i := out + [e], i + rv;
        }
      }
    }

    lemma MaxIsShort()
      requires ctx.Settled()
      ensures ctx.bufsizeMax <= UINT32_MAX
    {
    }

    method LowerTo(settings: nat)
      requires ctx.Settled() && settings <= UINT32_MAX && !IsLengthState(state)
      modifies this`state, this`minMax, ctx`bufsizeMax, ctx`len, ctx`bufsize, ctx`entries, ctx.entries
      ensures ctx.Settled() && forall i :: 0 <= i < |ctx.entries| ==> ctx.entries[i] in old(ctx.entries)
      ensures Machine() == old(Machine()).(state := ExpectTableSize, minMax := settings, max := settings,
                                           table := Fit(old(ctx.Table()), settings))
    {
      hide HdContext.Settled, Fit;
      state, minMax := ExpectTableSize, settings;
      ShrinkTo(settings);
    }

    /** The table size limit changed; this also works once the inflater has failed. */
    method ChangeTableSize(settings: nat) returns (rv: int)
      requires Ready()
      modifies this, Repr
      ensures Ready() && ctx.bad == old(ctx.bad) && Repr == old(Repr)
      ensures match ChangeLimit(old(Machine()), settings)
              case None => rv == ERR_INVALID_STATE && Machine() == old(Machine())
              case Some(s) => rv == 0 && Machine() == s
    {
      hide HuffmanTable.Stuck, HdContext.Settled, HdContext.Table, Fit, Coherent;
      if !state.ExpectTableSize? && !state.InflateStart? {
        return ERR_INVALID_STATE;
      }
      if !ctx.bad {
        LimitCoherent(Machine(), settings);
      }
      MaxIsShort();
      settingsMax := settings;
      if ctx.bufsizeMax > settings {
        LowerTo(settings);
      }
      rv := 0;
    }
  }

  lemma LimitCoherent(s: Dec, settings: nat)
    requires Coherent(s) && ChangeLimit(s, settings).Some?
    ensures Coherent(ChangeLimit(s, settings).value)
  {
    hide SizeOf, Fit;
    FitFits(s.table, settings);
  }

  lemma ExplainedEnd(P: Params, s: Dec, input: seq<byte>, inFinal: bool, rv: int, s1: Dec)
    requires Explains(P, s, input, inFinal, rv, None, s1)
    ensures 0 <= rv <= |input| && inFinal ==> AtBoundary(s1)
    ensures 0 <= rv <= |input| ==>
              Fed(P, s, input, inFinal) == Outcome(Some(if inFinal then EndHeaders(s1) else s1), [])
    ensures rv < 0 ==> Fed(P, s, input, inFinal) == Outcome(None, [])
  {
    hide Run;
  }

  lemma ExplainedField(P: Params, s: Dec, input: seq<byte>, inFinal: bool, rv: int, e: Emitted, s1: Dec)
    requires Explains(P, s, input, inFinal, rv, Some(e), s1) && 0 <= rv <= |input|
    ensures rv > 0 && Fed(P, s, input, inFinal) == Prepend([e], Fed(P, s1, input[rv..], inFinal))
  {
    hide Run;
  }

  lemma RestIsRun(P: Params, s: Dec, rest: seq<byte>)
    ensures !AwaitsValue(s) || s.left > 0 ==> Rest(P, s, rest) == Run(P, s, rest)
  {
    ContinueQuietly(P, s, rest);
  }

  lemma RestAtEnd(P: Params, s: Dec)
    requires AwaitsValue(s) ==> s.left > 0
    ensures Rest(P, s, []) == Outcome(Some(s), [])
  {
    ContinueQuietly(P, s, []);
  }

  /** What one call's result says about the octet machine, `s` being the state before and `s1` the state after. */
  ghost predicate Explains(P: Params, s: Dec, input: seq<byte>, inFinal: bool, rv: int, nv: Option<Emitted>, s1: Dec) {
    var o := Run(P, s, input);
    if 0 <= rv <= |input| then
      match nv
      case Some(e) => rv > 0 && AtBoundary(s1) && o == Prepend([e], Run(P, s1, input[rv..]))
      case None => rv == |input| && o == Outcome(Some(s1), []) && (inFinal ==> AtBoundary(s1))
    else o.out == [] && (o.dec.None? || (inFinal && !AtBoundary(o.dec.value)))
  }

  lemma AfterTurn(P: Params, s: Dec, input: seq<byte>, inFinal: bool, v: Verdict, s1: Dec, j: nat)
    requires j <= |input| && Accounts(P, Run(P, s, input), v, s1, input[j..]) && (v.Emit? ==> j > 0)
    ensures v.Go? || v.Busy? ==> Run(P, s, input) == Rest(P, s1, input[j..])
    ensures v.Go? ==> !AwaitsValue(s1)
    ensures v.Busy? ==> AwaitsValue(s1)
    ensures v.Emit? ==> !AwaitsValue(s1) && Explains(P, s, input, inFinal, j, Some(v.field), s1)
    ensures v.Almost? ==> Explains(P, s, input, inFinal, if inFinal then ERR_HEADER_COMP else j, None, s1)
    ensures v.Almost? && AwaitsValue(s1) ==> s1.left > 0
    ensures v.Refuse? ==> Explains(P, s, input, inFinal, ERR_HEADER_COMP, None, s1)
  {
    hide Run;
  }

  lemma LengthCoherent(s: Dec)
    requires Coherent(s) && IsLengthState(s.state)
    ensures s.left <= LimitOf(s) && (s.left == 0 ==> s.shift == 0)
    ensures s.state.ReadTableSize? ==> LimitOf(s) <= UINT32_MAX
    ensures forall left: nat, shift: nat :: left <= LimitOf(s) ==>
              && Coherent(s.(left := left, shift := 0))
              && (left > 0 ==> Coherent(s.(left := left, shift := shift)))
  {
  }

  lemma LengthProgress(n: nat, shift: nat, s: seq<byte>, p: prefix)
    requires s != []
    ensures var r := IntRun(n, shift, s, p);
            (r.0.More? ==> r.0.n > 0 && r.1 == |s|) && (!r.0.More? ==> r.1 > 0)
    decreases |s|
  {
    var st := IntByte(n, shift, s[0], p);
    if st.More? && s[1..] != [] {
      LengthProgress(st.n, st.shift, s[1..], p);
    }
  }

  /** States that expect a representation first, then those that may pass on without using an octet. */
  function Rank(st: State): nat {
    if st.ExpectTableSize? || st.InflateStart? || st.Opcode? then 2
    else if st.NewnameReadName? || st.NewnameReadNamehuff? then 1
    else 0
  }

  /** What the first octet of a representation sets up, unless it is refused. */
  function Chosen(s: Dec, b: byte): Dec {
    var s1 := s.(left := 0, shift := 0);
    if b / 32 == 1 then s1.(op := Indexed, state := ReadTableSize)
    else if b >= 128 then s1.(op := Indexed, state := ReadIndex)
    else
      var s2 := s1.(indexRequired := b / 64 % 2 == 1, noIndex := b / 16 == 1);
      if b == 0x40 || b == 0 || b == 0x10 then s2.(op := Newname, state := NewnameCheckNamelen)
      else s2.(op := Indname, state := ReadIndex)
  }

  lemma ChosenCoherent(s: Dec, b: byte)
    requires Rank(s.state) == 2 && Coherent(s)
    ensures Coherent(Chosen(s, b)) && Rank(Chosen(s, b).state) < 2
  {
    hide SizeOf;
  }

  lemma StartAccounts(P: Params, s: Dec, rest: seq<byte>)
    requires rest != [] && Rank(s.state) == 2 && Coherent(s)
    ensures if (s.state.ExpectTableSize? && rest[0] / 32 != 1) || (rest[0] / 32 == 1 && s.state.Opcode?) then
              Accounts(P, Run(P, s, rest), Refuse, s, rest)
            else
              var s1 := Chosen(s, rest[0]);
              && Coherent(s1) && Rank(s1.state) < 2
              && Accounts(P, Run(P, s, rest), Go, s1, if s1.state.NewnameCheckNamelen? then rest[1..] else rest)
  {
    hide Step, Coherent;
    var s1 := Chosen(s, rest[0]);
    ChosenCoherent(s, rest[0]);
    ChosenStep(P, s, rest[0]);
    if s1.state.NewnameCheckNamelen? {
      PrependNothing(Run(P, s1, rest[1..]));
    }
  }

  /** A number's first octet is read again in the state that it selects. */
  lemma ChosenStep(P: Params, s: Dec, b: byte)
    requires Rank(s.state) == 2
    ensures var s1 := Chosen(s, b);
            Step(P, s, b) ==
              if (s.state.ExpectTableSize? && b / 32 != 1) || (b / 32 == 1 && s.state.Opcode?) then Bad
              else if s1.state.NewnameCheckNamelen? then Next(s1, [])
              else Step(P, s1, b)
  {
    hide TableSizeByte, IndexByte;
  }

  lemma IndexedNull(ctx: HdContext)
    ensures ctx.Indexed(null)
  {
  }

  lemma SizeAccounts(P: Params, d: Dec, whole: Outcome, rest: seq<byte>)
    requires d.state.ReadTableSize? && d.left <= UINT32_MAX
    requires whole == Continue(P, Finish(P, d.(shift := 0)), rest)
    ensures var s1 := SizeRead(d.(shift := 0));
            Coherent(s1) && Accounts(P, whole, Go, s1, rest)
  {
    FitFits(d.table, d.left);
    PrependNothing(Run(P, SizeRead(d.(shift := 0)), rest));
  }

  lemma ZeroIndex(P: Params, d: Dec, whole: Outcome, rest: seq<byte>)
    requires d.state.ReadIndex? && d.left == 0 && whole == Continue(P, Finish(P, d.(shift := 0)), rest)
    ensures Accounts(P, whole, Refuse, d, rest)
  {
  }

  lemma IndexAccounts(P: Params, d: Dec, whole: Outcome, rest: seq<byte>, v: Verdict)
    requires |P.statics| == STATIC_LENGTH && d.state.ReadIndex? && 0 < d.left <= STATIC_LENGTH + |d.table|
    requires Coherent(d.(shift := 0))
    requires whole == Continue(P, Finish(P, d.(shift := 0)), rest)
    requires v == if d.op.Indexed? then Emit(Emitted(Get(P, d.table, d.left - 1), false)) else Go
    ensures var s1 := d.(shift := 0, index := d.left - 1, state := if v.Emit? then Opcode else CheckValuelen);
            Coherent(s1) && Accounts(P, whole, v, s1, rest)
  {
    if !d.op.Indexed? {
      PrependNothing(Run(P, d.(shift := 0, index := d.left - 1, state := CheckValuelen), rest));
    }
  }

  /** Where the length of a string is awaited, its first octet is looked at but not used up. */
  lemma CheckedSame(P: Params, s: Dec, rest: seq<byte>, next: State)
    requires rest != []
    requires || (s.state.NewnameCheckNamelen? && next.NewnameReadNamelen?)
             || (s.state.CheckValuelen? && next.ReadValuelen?)
    ensures Run(P, s, rest) == Run(P, CheckLength(s, rest[0], next), rest)
    ensures Coherent(s) ==> Coherent(CheckLength(s, rest[0], next))
  {
    var s1 := CheckLength(s, rest[0], next);
    assert Step(P, s, rest[0]) == Step(P, s1, rest[0]);
  }

  lemma NameAccounts(P: Params, d: Dec, whole: Outcome, rest: seq<byte>)
    requires d.state.NewnameReadNamelen? && whole == Continue(P, Finish(P, d.(shift := 0)), rest)
    ensures Coherent(d.(shift := 0)) ==> Coherent(NameStart(d.(shift := 0)))
    ensures Accounts(P, whole, Go, NameStart(d.(shift := 0)), rest)
  {
    PrependNothing(Run(P, NameStart(d.(shift := 0)), rest));
  }

  lemma ValueAccounts(P: Params, d: Dec, whole: Outcome, rest: seq<byte>)
    requires d.state.ReadValuelen? && whole == Continue(P, Finish(P, d.(shift := 0)), rest)
    ensures Coherent(d.(shift := 0)) ==> Coherent(ValueStart(d.(shift := 0)))
    ensures Accounts(P, whole, Busy, ValueStart(d.(shift := 0)), rest)
  {
  }

  lemma NameTakenAccounts(P: Params, s: Dec, part: seq<byte>, rest: seq<byte>)
    requires s.state.NewnameReadName? && |part| <= s.left && part + rest != []
    requires rest == [] || |part| == s.left
    requires Coherent(s)
    ensures var s1 := NameTaken(s, part);
            && Coherent(s1)
            && (s1.left > 0 ==> Accounts(P, Run(P, s, part + rest), Almost, s1, rest))
            && (s1.left == 0 ==> Accounts(P, Run(P, s, part + rest), Go, s1, rest))
  {
    if part == [] {
      assert part + rest == rest;
      assert s.name + part == s.name;
      assert Step(P, s, rest[0]) == Step(P, NameTaken(s, part), rest[0]);
    } else {
      NameRun(P, s, part, rest);
    }
  }

  lemma NameHuffAccounts(P: Params, s: Dec, part: seq<byte>, rest: seq<byte>, f: nat, o: seq<byte>, v: Verdict, s1: Dec)
    requires HuffmanTable.Stuck(P.table) && Coherent(s)
    requires s.state.NewnameReadNamehuff? && |part| <= s.left && part + rest != []
    requires rest == [] || |part| == s.left
    requires (f, o) == HuffmanTable.Read(P.table, s.fstate, part)
    requires v == if !HuffmanOk(f, s.left - |part|) then Refuse else if s.left > |part| then Almost else Go
    requires s1 == s.(name := s.name + o, fstate := f, left := s.left - |part|,
                      state := if v.Go? then CheckValuelen else s.state)
    ensures Accounts(P, Run(P, s, part + rest), v, s1, rest)
    ensures !v.Refuse? ==> Coherent(s1)
  {
    hide HuffmanTable.Read, HuffmanTable.Stuck, Step, Run, HuffmanOk, SizeOf;
    NameHuffContinues(P, s, part, rest, f, o, s1);
    ContinueQuietly(P, s1, rest);
  }

  lemma NameHuffContinues(P: Params, s: Dec, part: seq<byte>, rest: seq<byte>, f: nat, o: seq<byte>, s1: Dec)
    requires HuffmanTable.Stuck(P.table)
    requires s.state.NewnameReadNamehuff? && |part| <= s.left && part + rest != []
    requires rest == [] || |part| == s.left
    requires s.left == 0 ==> s.fstate == HuffmanTable.ACCEPTED
    requires (f, o) == HuffmanTable.Read(P.table, s.fstate, part)
    requires HuffmanOk(f, s.left - |part|) ==>
               s1 == s.(name := s.name + o, fstate := f, left := s.left - |part|,
                        state := if |part| == s.left then CheckValuelen else s.state)
    ensures Run(P, s, part + rest) == Continue(P, if HuffmanOk(f, s.left - |part|) then Next(s1, []) else Bad, rest)
  {
    assert HuffmanOk(HuffmanTable.ACCEPTED, 0);
    hide HuffmanTable.Read, HuffmanTable.Stuck, Step, Run, HuffmanOk;
    if part == [] {
      assert part + rest == rest;
      assert s.name + [] == s.name;
      ReadNothing(P.table, s.fstate);
      EmptyNameHuff(P, s, rest);
      ContinueQuietly(P, s1, rest);
    } else {
      NameHuffRun(P, s, part, rest);
      assert NameHuffTaken(P, s, part) == if HuffmanOk(f, s.left - |part|) then Next(s1, []) else Bad;
    }
  }

  lemma ReadNothing(tbl: HuffmanTable.table, f: nat)
    ensures HuffmanTable.Read(tbl, f, []) == (f, [])
  {
  }

  /** An empty Huffman name is passed over without using an octet. */
  lemma EmptyNameHuff(P: Params, s: Dec, rest: seq<byte>)
    requires s.state.NewnameReadNamehuff? && s.left == 0 && rest != []
    ensures Run(P, s, rest) == Run(P, s.(state := CheckValuelen), rest)
  {
    hide ValuelenByte;
    assert Step(P, s, rest[0]) == Step(P, s.(state := CheckValuelen), rest[0]);
  }

  lemma CommitCoherent(P: Params, s: Dec)
    requires Coherent(s) && AwaitsValue(s)
    ensures s.shift == 0 && Coherent(Commit(P, s).dec)
  {
    FitFits([Commit(P, s).out[0].field] + s.table, s.max);
  }

  lemma ValueTakenAccounts(P: Params, s: Dec, part: seq<byte>, rest: seq<byte>, f: nat, o: seq<byte>, ok: bool, s1: Dec)
    requires HuffmanTable.Stuck(P.table) && Coherent(s) && AwaitsValue(s)
    requires |part| <= s.left && (rest == [] || |part| == s.left)
    requires s.state.ReadValuehuff? && part == [] ==> s.fstate == HuffmanTable.ACCEPTED
    requires (f, o) == if s.state.ReadValuehuff? then HuffmanTable.Read(P.table, s.fstate, part) else (s.fstate, part)
    requires ok == (s.state.ReadValue? || HuffmanOk(f, s.left - |part|))
    requires s1 == s.(value := s.value + o, fstate := f, left := s.left - |part|)
    ensures !ok ==> Rest(P, s, part + rest) == Outcome(None, [])
    ensures ok ==> Coherent(s1)
    ensures ok && s1.left == 0 ==> Rest(P, s, part + rest) == Continue(P, Commit(P, s1), rest)
    ensures ok && s1.left > 0 ==> rest == [] && Rest(P, s, part + rest) == Outcome(Some(s1), [])
  {
    if part == [] && s.state.ReadValuehuff? {
      assert HuffmanOk(HuffmanTable.ACCEPTED, 0);
      ReadNothing(P.table, s.fstate);
    }
    hide Commit, Step, HuffmanTable.Read, HuffmanTable.Stuck, Run, HuffmanOk;
    ContinueQuietly(P, s1, rest);
    if part == [] {
      assert part + rest == rest;
      assert s.value + [] == s.value;
      assert s1 == s;
    } else {
      ContinueQuietly(P, s, part + rest);
      if s.state.ReadValue? {
        ValueRun(P, s, part, rest);
        assert ValueTaken(P, s, part) == ValueDoneIfEmpty(P, s1);
      } else {
        ValueHuffRun(P, s, part, rest);
        assert ValueHuffTaken(P, s, part) == if ok then ValueDoneIfEmpty(P, s1) else Bad;
      }
    }
  }

  lemma ContinueQuietly(P: Params, s: Dec, rest: seq<byte>)
    ensures Continue(P, Next(s, []), rest) == Run(P, s, rest)
    ensures rest == [] ==> Run(P, s, rest) == Outcome(Some(s), [])
  {
    hide Step;
    var o := Run(P, s, rest);
    assert [] + o.out == o.out;
    assert Continue(P, Next(s, []), rest) == Prepend([], o);
  }
}
