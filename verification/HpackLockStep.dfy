/**
 * The two ends stay in step: what the deflater writes, the inflater reads back field by field, and after every
 * block both dynamic tables are the same, through any changes of table size in between.
 */
module HpackLockStep {
  import opened Bytes
  import opened HpackInteger
  import opened HpackTable
  import opened HpackFormat
  import opened HpackReader
  import opened HpackChunks
  import HuffmanCode
  import HuffmanTable

  // ---------------------------------------------------------------- strings

  /** The length octets of a string, read from a state that expects them. */
  lemma LengthOctets(P: Params, s: Dec, flags: byte, n: nat, body: seq<byte>)
    requires IsLengthState(s.state) && s.left == 0 && s.shift == 0
    requires flags % (Mask(PrefixOf(s)) + 1) == 0
    ensures Run(P, s, EncodeInt(flags, n, PrefixOf(s)) + body) ==
              if n > LimitOf(s) || n > UINT32_MAX then Outcome(None, [])
              else Continue(P, Finish(P, s.(left := n, shift := 0)), body)
  {
    var e := EncodeInt(flags, n, PrefixOf(s));
    NumberRun(P, s, e + body);
    RoundTrip(flags, n, PrefixOf(s), body);
    assert (e + body)[|e|..] == body;
  }

  /** The inflater's state when a whole string value has been read. */
  function WithValue(P: Params, s: Dec, v: seq<byte>): Dec
    requires |P.code.codes| == 257
  {
    var e := HuffmanCode.Encode(P.code, v);
    if |e| < |v| then
      s.(value := v, left := 0, shift := 0, huffman := true, state := ReadValuehuff,
         fstate := HuffmanTable.Read(P.table, HuffmanTable.ACCEPTED, e).0)
    else s.(value := v, left := 0, shift := 0, huffman := false, state := ReadValue)
  }

  /** The same for a name, in the state that expects the value's length. */
  function WithName(P: Params, s: Dec, v: seq<byte>): Dec
    requires |P.code.codes| == 257
  {
    var e := HuffmanCode.Encode(P.code, v);
    if |e| < |v| then
      s.(name := v, left := 0, shift := 0, huffman := true, state := CheckValuelen,
         fstate := HuffmanTable.Read(P.table, HuffmanTable.ACCEPTED, e).0)
    else if v == [] then s.(name := v, left := 0, shift := 0, huffman := false, state := NewnameReadName)
    else s.(name := v, left := 0, shift := 0, huffman := false, state := CheckValuelen)
  }

  /** An encoded string is read back from the start of the table, and its end is acceptable. */
  ghost predicate ReadsBack(P: Params, v: seq<byte>)
    requires |P.code.codes| == 257
  {
    var e := HuffmanCode.Encode(P.code, v);
    var r := HuffmanTable.Read(P.table, HuffmanTable.ACCEPTED, e);
    r.1 == v && HuffmanOk(r.0, 0) && (v != [] ==> e != [])
  }

  /** What reading strings needs of the parameters. */
  ghost predicate Usable(P: Params) {
    && |P.statics| == STATIC_LENGTH && |P.code.codes| == 257
    && HuffmanTable.Stuck(P.table)
    && forall v :: ReadsBack(P, v)
  }

  lemma ValidIsUsable(P: Params)
    requires ValidParams(P)
    ensures Usable(P)
  {
    HuffmanTable.FailureIsFinal(P.code);
    forall v ensures ReadsBack(P, v) {
      OneReadsBack(P, v);
    }
  }

  lemma OneReadsBack(P: Params, v: seq<byte>)
    requires ValidParams(P)
    ensures ReadsBack(P, v)
  {
    HuffmanTable.EncodingReadsBack(P.code, P.table, v);
    AcceptingIsOk(HuffmanTable.Read(P.table, HuffmanTable.ACCEPTED, HuffmanCode.Encode(P.code, v)).0);
  }

  lemma AcceptingIsOk(f: nat)
    requires f / HuffmanTable.ACCEPTED % 2 == 1
    ensures HuffmanOk(f, 0)
  {
  }

  /** The first octet of an encoded string carries its Huffman flag. */
  lemma HuffmanFlag(n: nat)
    ensures EncodeInt(128, n, 7)[0] >= 128 && EncodeInt(0, n, 7)[0] < 128
  {
  }

  /** Flag of a string's length octets, and the octets after them. */
  function Literal(P: Params, v: seq<byte>): (bool, seq<byte>)
    requires |P.code.codes| == 257
  {
    var e := HuffmanCode.Encode(P.code, v);
    if |e| < |v| then (true, e) else (false, v)
  }

  function LiteralHead(huff: bool, n: nat): seq<byte> {
    EncodeInt(if huff then 128 else 0, n, 7)
  }

  lemma StringParts(P: Params, v: seq<byte>)
    requires |P.code.codes| == 257
    ensures var (huff, body) := Literal(P, v);
            StringBytes(P, v) == LiteralHead(huff, |body|) + body && |body| == LiteralLength(P, v)
  {
  }

  /** State in which the octets of a value are about to be read. */
  function ValueAwaited(s: Dec, huff: bool, n: nat): Dec {
    ValueStart(s.(huffman := huff, state := ReadValuelen, left := n, shift := 0))
  }

  lemma ValueLength(P: Params, s: Dec, huff: bool, n: nat, rest: seq<byte>)
    requires s.state.CheckValuelen?
    ensures Run(P, s, LiteralHead(huff, n) + rest) ==
              if n > MAX_NV then Outcome(None, [])
              else Continue(P, ValueDoneIfEmpty(P, ValueAwaited(s, huff, n)), rest)
  {
    var head := LiteralHead(huff, n);
    HuffmanFlag(n);
    var s1 := CheckLength(s, head[0], ReadValuelen);
    assert (head + rest)[0] == head[0];
    assert Run(P, s, head + rest) == Run(P, s1, head + rest);
    LengthOctets(P, s1, if huff then 128 else 0, n, rest);
  }

  lemma ValueBody(P: Params, s: Dec, v: seq<byte>)
    requires Usable(P) && LiteralLength(P, v) > 0
    ensures var (huff, body) := Literal(P, v);
            Run(P, ValueAwaited(s, huff, |body|), body) == Continue(P, Commit(P, WithValue(P, s, v)), [])
  {
    var (huff, body) := Literal(P, v);
    var s2 := ValueAwaited(s, huff, |body|);
    assert body + [] == body && [] + v == v;
    if huff {
      assert ReadsBack(P, v);
      ValueHuffRun(P, s2, body, []);
    } else {
      ValueRun(P, s2, body, []);
    }
  }

  lemma ValueString(P: Params, s: Dec, v: seq<byte>)
    requires Usable(P) && s.state.CheckValuelen?
    ensures Run(P, s, StringBytes(P, v)) ==
              if LiteralLength(P, v) > MAX_NV then Outcome(None, [])
              else Continue(P, Commit(P, WithValue(P, s, v)), [])
  {
    var (huff, body) := Literal(P, v);
    StringParts(P, v);
    ValueLength(P, s, huff, |body|, body);
    if |body| == 0 {
      assert ReadsBack(P, v);
    } else if |body| <= MAX_NV {
      ValueBody(P, s, v);
      PrependNothing(Run(P, ValueAwaited(s, huff, |body|), body));
    }
  }

  function NameAwaited(s: Dec, huff: bool, n: nat): Dec {
    NameStart(s.(huffman := huff, state := NewnameReadNamelen, left := n, shift := 0))
  }

  lemma NameLength(P: Params, s: Dec, huff: bool, n: nat, rest: seq<byte>)
    requires s.state.NewnameCheckNamelen?
    ensures Run(P, s, LiteralHead(huff, n) + rest) ==
              if n > MAX_NV then Outcome(None, []) else Run(P, NameAwaited(s, huff, n), rest)
  {
    var head := LiteralHead(huff, n);
    HuffmanFlag(n);
    var s1 := CheckLength(s, head[0], NewnameReadNamelen);
    assert (head + rest)[0] == head[0];
    assert Run(P, s, head + rest) == Run(P, s1, head + rest);
    LengthOctets(P, s1, if huff then 128 else 0, n, rest);
    PrependNothing(Run(P, NameAwaited(s, huff, n), rest));
  }

  lemma NameBody(P: Params, s: Dec, v: seq<byte>, rest: seq<byte>)
    requires Usable(P)
    ensures var (huff, body) := Literal(P, v);
            Run(P, NameAwaited(s, huff, |body|), body + rest) == Run(P, WithName(P, s, v), rest)
  {
    var (huff, body) := Literal(P, v);
    var s2 := NameAwaited(s, huff, |body|);
    assert [] + v == v;
    assert ReadsBack(P, v);
    if huff {
      NameHuffRun(P, s2, body, rest);
      PrependNothing(Run(P, WithName(P, s, v), rest));
    } else if v == [] {
      assert body + rest == rest;
    } else {
      NameRun(P, s2, body, rest);
    }
  }

  lemma NameString(P: Params, s: Dec, v: seq<byte>, rest: seq<byte>)
    requires Usable(P) && s.state.NewnameCheckNamelen?
    ensures Run(P, s, StringBytes(P, v) + rest) ==
              if LiteralLength(P, v) > MAX_NV then Outcome(None, []) else Run(P, WithName(P, s, v), rest)
  {
    var (huff, body) := Literal(P, v);
    StringParts(P, v);
    assert StringBytes(P, v) + rest == LiteralHead(huff, |body|) + (body + rest);
    NameLength(P, s, huff, |body|, body + rest);
    NameBody(P, s, v, rest);
  }

  // ---------------------------------------------------------------- one field

  /** The inflater accepts a field exactly when every string literal written for it is within its limit. */
  predicate Acceptable(P: Params, t: fields, max: nat, nv: Nv)
    requires |P.statics| == STATIC_LENGTH && |P.code.codes| == 257
  {
    var r := Search(P, t, nv.field, ModeOf(P, max, nv));
    r.exact || (LiteralLength(P, nv.field.value) <= MAX_NV
                && (r.index >= 0 || LiteralLength(P, nv.field.name) <= MAX_NV))
  }

  /** The inflater stands at the start of a representation with this table. */
  ghost predicate Synced(s: Dec, t: fields, max: nat) {
    s.table == t && s.max == max && AtBoundary(s) && SizeOf(t) <= max <= UINT32_MAX
  }

  ghost predicate FieldDelivered(P: Params, s: Dec, max: nat, nv: Nv, o: Outcome)
    requires |P.statics| == STATIC_LENGTH
  {
    && o.dec.Some?
    && o.out == [Emitted(nv.field, ModeOf(P, max, nv).NeverIndexing?)]
    && var d := o.dec.value;
       && d.state.Opcode?
       && d.max == s.max && d.settingsMax == s.settingsMax && d.minMax == s.minMax
       && d.table == FieldTable(P, s.table, max, nv)
  }

  lemma IndexFits(P: Params, t: fields, max: nat, index: int)
    requires SizeOf(t) <= max <= UINT32_MAX && index < STATIC_LENGTH + |t|
    ensures index + 1 <= UINT32_MAX
  {
    EntryCount(t);
  }

  /** A number's first octet is read the same once its state is selected. */
  lemma NumberFirst(P: Params, s: Dec, s1: Dec, input: seq<byte>)
    requires AtBoundary(s) && input != [] && Dispatch(s, input[0]) == Number(s1)
    ensures Run(P, s, input) == Run(P, s1, input)
  {
    hide TableSizeByte, IndexByte;
    assert Step(P, s, input[0]) == Step(P, s1, input[0]);
  }

  lemma IndexedField(P: Params, s: Dec, index: nat)
    requires |P.statics| == STATIC_LENGTH
    requires Synced(s, s.table, s.max) && index < STATIC_LENGTH + |s.table|
    ensures var o := Run(P, s, EncodeInt(128, index + 1, 7));
            && o.dec.Some? && o.out == [Emitted(Get(P, s.table, index), false)]
            && var d := o.dec.value;
               && d.state.Opcode? && d.table == s.table
               && d.max == s.max && d.settingsMax == s.settingsMax && d.minMax == s.minMax
  {
    hide Step, IndexByte;
    var e := EncodeInt(128, index + 1, 7);
    var s1 := s.(op := Indexed, state := ReadIndex, left := 0, shift := 0);
    assert Dispatch(s, e[0]) == Number(s1);
    NumberFirst(P, s, s1, e);
    IndexFits(P, s.table, s.max, index);
    LengthOctets(P, s1, 128, index + 1, []);
    assert e + [] == e;
  }

  lemma LiteralModes(mode: Mode)
    ensures FirstByte(mode) % (Mask(LiteralPrefix(mode)) + 1) == 0
    ensures (FirstByte(mode) / 64 % 2 == 1 <==> mode.WithIndexing?)
    ensures (FirstByte(mode) / 16 == 1 <==> mode.NeverIndexing?)
  {
  }

  /** First octet of a literal with an indexed name. */
  lemma LiteralFirst(mode: Mode, n: nat)
    requires n > 0
    ensures FirstByte(mode) % (Mask(LiteralPrefix(mode)) + 1) == 0
    ensures var b := EncodeInt(FirstByte(mode), n, LiteralPrefix(mode))[0];
            b < 128 && b / 32 != 1 && b != 0x40 && b != 0 && b != 0x10
            && (b / 64 % 2 == 1 <==> mode.WithIndexing?) && (b / 16 == 1 <==> mode.NeverIndexing?)
  {
    match mode
    case WithIndexing =>
    case WithoutIndexing =>
    case NeverIndexing =>
  }

  /** The inflater's state once a literal's kind is known. */
  function Marked(s: Dec, mode: Mode, op: Op, st: State): Dec {
    s.(indexRequired := mode.WithIndexing?, noIndex := mode.NeverIndexing?, left := 0, shift := 0, op := op,
       state := st)
  }

  /** A literal was delivered with value `v` and this name. */
  ghost predicate Delivered(s: Dec, f: Field, mode: Mode, o: Outcome) {
    && o.dec.Some? && o.out == [Emitted(f, mode.NeverIndexing?)]
    && var d := o.dec.value;
       && d.state.Opcode? && d.table == (if mode.WithIndexing? then Insert(s.table, f, s.max) else s.table)
       && d.max == s.max && d.settingsMax == s.settingsMax && d.minMax == s.minMax
  }

  lemma IndexedNameHead(P: Params, s: Dec, index: nat, mode: Mode, body: seq<byte>)
    requires Synced(s, s.table, s.max) && index < STATIC_LENGTH + |s.table|
    ensures FirstByte(mode) % (Mask(LiteralPrefix(mode)) + 1) == 0
    ensures Run(P, s, EncodeInt(FirstByte(mode), index + 1, LiteralPrefix(mode)) + body) ==
            Run(P, Marked(s, mode, Indname, CheckValuelen).(left := index + 1, index := index), body)
  {
    LiteralFirst(mode, index + 1);
    var e := EncodeInt(FirstByte(mode), index + 1, LiteralPrefix(mode));
    assert (e + body)[0] == e[0];
    assert Dispatch(s, e[0]) == Number(Marked(s, mode, Indname, ReadIndex));
    assert Run(P, s, e + body) == Run(P, Marked(s, mode, Indname, ReadIndex), e + body);
    IndexFits(P, s.table, s.max, index);
    NameIndexRead(P, s, index, mode, body);
  }

  lemma NameIndexRead(P: Params, s: Dec, index: nat, mode: Mode, body: seq<byte>)
    requires index < STATIC_LENGTH + |s.table| && index + 1 <= UINT32_MAX
    requires FirstByte(mode) % (Mask(LiteralPrefix(mode)) + 1) == 0
    ensures Run(P, Marked(s, mode, Indname, ReadIndex),
                EncodeInt(FirstByte(mode), index + 1, LiteralPrefix(mode)) + body) ==
            Run(P, Marked(s, mode, Indname, CheckValuelen).(left := index + 1, index := index), body)
  {
    var s1 := Marked(s, mode, Indname, ReadIndex);
    assert PrefixOf(s1) == LiteralPrefix(mode);
    LengthOctets(P, s1, FirstByte(mode), index + 1, body);
    PrependNothing(Run(P, Marked(s, mode, Indname, CheckValuelen).(left := index + 1, index := index), body));
  }

  lemma CommitDelivers(P: Params, s: Dec, s1: Dec, v: seq<byte>, f: Field, mode: Mode)
    requires |P.code.codes| == 257
    requires s1.indexRequired == mode.WithIndexing? && s1.noIndex == mode.NeverIndexing?
    requires s1.table == s.table && s1.max == s.max && s1.settingsMax == s.settingsMax && s1.minMax == s.minMax
    requires f == Field(if s1.op.Newname? then s1.name else Get(P, s1.table, s1.index).name, v)
    ensures Delivered(s, f, mode, Continue(P, Commit(P, WithValue(P, s1, v)), []))
  {
    var r := Commit(P, WithValue(P, s1, v));
    assert r.out == [Emitted(f, mode.NeverIndexing?)];
    assert Run(P, r.dec, []) == Outcome(Some(r.dec), []);
    assert r.out + [] == r.out;
  }

  lemma IndexedNameField(P: Params, s: Dec, index: nat, v: seq<byte>, mode: Mode)
    requires Usable(P)
    requires Synced(s, s.table, s.max) && index < STATIC_LENGTH + |s.table|
    ensures FirstByte(mode) % (Mask(LiteralPrefix(mode)) + 1) == 0
    ensures var o := Run(P, s, EncodeInt(FirstByte(mode), index + 1, LiteralPrefix(mode)) + StringBytes(P, v));
            if LiteralLength(P, v) > MAX_NV then o == Outcome(None, [])
            else Delivered(s, Field(Get(P, s.table, index).name, v), mode, o)
  {
    var s2 := Marked(s, mode, Indname, CheckValuelen).(left := index + 1, index := index);
    IndexedNameHead(P, s, index, mode, StringBytes(P, v));
    ValueString(P, s2, v);
    CommitDelivers(P, s, s2, v, Field(Get(P, s.table, index).name, v), mode);
  }

  lemma NewNameHead(P: Params, s: Dec, mode: Mode, body: seq<byte>)
    requires AtBoundary(s)
    ensures Run(P, s, [FirstByte(mode)] + body) == Run(P, Marked(s, mode, Newname, NewnameCheckNamelen), body)
  {
    LiteralModes(mode);
    RunCons(P, s, FirstByte(mode), body);
    assert Dispatch(s, FirstByte(mode)) == NewName(Marked(s, mode, Newname, NewnameCheckNamelen));
    PrependNothing(Run(P, Marked(s, mode, Newname, NewnameCheckNamelen), body));
  }

  lemma StringNotEmpty(P: Params, v: seq<byte>)
    requires |P.code.codes| == 257
    ensures StringBytes(P, v) != []
  {
    hide EncodeInt, HuffmanCode.Encode;
  }

  /** A name that is all there passes the next octet on. */
  lemma EmptyNameStep(P: Params, s: Dec, b: byte)
    requires (s.state.NewnameReadName? || s.state.NewnameReadNamehuff?) && s.left == 0
    ensures Step(P, s, b) == ValuelenByte(P, CheckLength(s, b, ReadValuelen), b)
  {
    hide ValuelenByte;
  }

  /** The octets of a value are never empty, so the state before them may as well be the one that expects them. */
  lemma ValueAfterName(P: Params, s: Dec, name: seq<byte>, v: seq<byte>)
    requires Usable(P)
    ensures Run(P, WithName(P, s, name), StringBytes(P, v)) ==
            Run(P, WithName(P, s, name).(state := CheckValuelen), StringBytes(P, v))
  {
    hide ValuelenByte, StringBytes, NameByte, NameHuffByte;
    var vb := StringBytes(P, v);
    StringNotEmpty(P, v);
    var s1 := WithName(P, s, name);
    if s1.state.NewnameReadName? {
      EmptyNameStep(P, s1, vb[0]);
    }
    assert Step(P, WithName(P, s, name), vb[0]) == Step(P, WithName(P, s, name).(state := CheckValuelen), vb[0]);
  }

  lemma NewNameField(P: Params, s: Dec, f: Field, mode: Mode)
    requires Usable(P) && Synced(s, s.table, s.max)
    ensures var o := Run(P, s, [FirstByte(mode)] + StringBytes(P, f.name) + StringBytes(P, f.value));
            if LiteralLength(P, f.name) > MAX_NV || LiteralLength(P, f.value) > MAX_NV then o == Outcome(None, [])
            else Delivered(s, f, mode, o)
  {
    var nb, vb := StringBytes(P, f.name), StringBytes(P, f.value);
    var s1 := Marked(s, mode, Newname, NewnameCheckNamelen);
    assert [FirstByte(mode)] + nb + vb == [FirstByte(mode)] + (nb + vb);
    NewNameHead(P, s, mode, nb + vb);
    NameString(P, s1, f.name, vb);
    if LiteralLength(P, f.name) <= MAX_NV {
      var s3 := WithName(P, s1, f.name).(state := CheckValuelen);
      ValueAfterName(P, s1, f.name, f.value);
      ValueString(P, s3, f.value);
      CommitDelivers(P, s, s3, f.value, f, mode);
    }
  }

  /**
   * One field: the inflater hands out exactly the field that was put in, marked never-indexed exactly when the
   * deflater chose that mode, and both tables change alike; or it refuses it, exactly when a literal is too long.
   */
  lemma FieldRoundTrip(P: Params, s: Dec, max: nat, nv: Nv)
    requires Usable(P) && Synced(s, s.table, max)
    ensures var o := Run(P, s, FieldBytes(P, s.table, max, nv));
            if Acceptable(P, s.table, max, nv) then FieldDelivered(P, s, max, nv, o) else o == Outcome(None, [])
  {
    var mode := ModeOf(P, max, nv);
    SearchLeadsBack(P, s.table, nv.field, mode);
    var r := Search(P, s.table, nv.field, mode);
    if r.exact {
      IndexedField(P, s, r.index);
    } else if r.index >= 0 {
      IndexedNameField(P, s, r.index, nv.field.value, mode);
    } else {
      NewNameField(P, s, nv.field, mode);
    }
  }

  // ---------------------------------------------------------------- a list of fields

  predicate AllAcceptable(P: Params, t: fields, max: nat, nvs: seq<Nv>)
    requires |P.statics| == STATIC_LENGTH && |P.code.codes| == 257
    decreases |nvs|
  {
    nvs == [] || (Acceptable(P, t, max, nvs[0]) && AllAcceptable(P, FieldTable(P, t, max, nvs[0]), max, nvs[1..]))
  }

  /** What the application should see. */
  function Delivery(P: Params, max: nat, nvs: seq<Nv>): (r: seq<Emitted>)
    ensures |r| == |nvs| && forall i :: 0 <= i < |nvs| ==> r[i].field == nvs[i].field
  {
    seq(|nvs|, i requires 0 <= i < |nvs| => Emitted(nvs[i].field, ModeOf(P, max, nvs[i]).NeverIndexing?))
  }

  lemma FieldTableFits(P: Params, t: fields, max: nat, nv: Nv)
    requires |P.statics| == STATIC_LENGTH && SizeOf(t) <= max
    ensures SizeOf(FieldTable(P, t, max, nv)) <= max
  {
    FitFits([nv.field] + t, max);
  }

  lemma {:induction false} FieldsRoundTrip(P: Params, s: Dec, max: nat, nvs: seq<Nv>)
    requires Usable(P) && Synced(s, s.table, max)
    ensures var o := Run(P, s, FieldsBytes(P, s.table, max, nvs));
            if AllAcceptable(P, s.table, max, nvs) then
              && o.dec.Some? && o.out == Delivery(P, max, nvs)
              && var d := o.dec.value;
                 && Synced(d, FieldsTable(P, s.table, max, nvs), max)
                 && d.settingsMax == s.settingsMax && d.minMax == s.minMax
            else o.dec.None? && o.out <= Delivery(P, max, nvs)
    decreases |nvs|
  {
    hide Step, FieldBytes, FieldTable, Acceptable, ModeOf;
    if nvs != [] {
      var t1 := FieldTable(P, s.table, max, nvs[0]);
      var first, rest := FieldBytes(P, s.table, max, nvs[0]), FieldsBytes(P, t1, max, nvs[1..]);
      FieldRoundTrip(P, s, max, nvs[0]);
      FieldTableFits(P, s.table, max, nvs[0]);
      RunSplit(P, s, first, rest);
      assert Delivery(P, max, nvs) == [Delivery(P, max, nvs)[0]] + Delivery(P, max, nvs[1..]);
      if Acceptable(P, s.table, max, nvs[0]) {
        FieldsRoundTrip(P, Run(P, s, first).dec.value, max, nvs[1..]);
      }
    }
  }
}
