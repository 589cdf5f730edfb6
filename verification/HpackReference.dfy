/**
 * Header blocks as section 6 of RFC 7541 defines them: which octets spell a representation and what it does to the
 * table. The octet machine is proved to accept exactly these blocks and to do exactly this.
 */
module HpackReference {
  import opened Bytes
  import opened HpackInteger
  import opened HpackTable
  import opened HpackFormat
  import opened HpackReader
  import opened HpackChunks
  import HuffmanCode
  import HuffmanTable

  // ---------------------------------------------------------------- spelling

  /** Section 5.1: the octets spell `n` after a prefix of `p` bits, in 32 bits and no more than six octets. */
  ghost predicate Spells(s: seq<byte>, p: prefix, n: nat) {
    var k := if p == 4 then 16 else if p == 5 then 32 else if p == 6 then 64 else 128;
    && 1 <= |s| <= 6 && n <= 0xffff_ffff
    && if s[0] % k != k - 1 then |s| == 1 && n == s[0] % k
       else IsContinuation(s[1..]) && n == k - 1 + GroupValue(s[1..])
  }

  /** Section 5.2: a string literal of at most 65536 octets, Huffman-coded if its first bit is set. */
  datatype Str = Str(length: seq<byte>, body: seq<byte>)

  ghost predicate Denotes(P: Params, x: Str, v: seq<byte>)
    requires |P.code.codes| == 257
  {
    && Spells(x.length, 7, |x.body|) && |x.body| <= 65536
    && x.body == if x.length[0] >= 128 then HuffmanCode.Encode(P.code, v) else v
  }

  /** Section 6, with the numbers and strings that the octets stand for. */
  datatype Item =
    | Update(head: seq<byte>, n: nat)
    | IndexedField(head: seq<byte>, n: nat)
    | IndexedName(head: seq<byte>, n: nat, valueText: Str, value: seq<byte>)
    | NewName(first: byte, nameText: Str, name: seq<byte>, valueText: Str, value: seq<byte>)

  ghost predicate Spelled(P: Params, x: Item)
    requires |P.code.codes| == 257
  {
    match x
    case Update(h, n) => Spells(h, 5, n) && 32 <= h[0] < 64
    case IndexedField(h, n) => Spells(h, 7, n) && 128 <= h[0]
    case IndexedName(h, n, vt, v) =>
      && n > 0 && h != [] && (h[0] < 32 || 64 <= h[0] < 128)
      && Spells(h, if h[0] < 32 then 4 else 6, n) && Denotes(P, vt, v)
    case NewName(b, nt, name, vt, v) => b in {0, 16, 64} && Denotes(P, nt, name) && Denotes(P, vt, v)
  }

  function StrOctets(x: Str): seq<byte> {
    x.length + x.body
  }

  function ItemOctets(x: Item): seq<byte> {
    match x
    case Update(h, _) => h
    case IndexedField(h, _) => h
    case IndexedName(h, _, vt, _) => h + StrOctets(vt)
    case NewName(b, nt, _, vt, _) => [b] + (StrOctets(nt) + StrOctets(vt))
  }

  function BlockOctets(xs: seq<Item>): seq<byte> {
    if xs == [] then [] else ItemOctets(xs[0]) + BlockOctets(xs[1..])
  }

  // ---------------------------------------------------------------- meaning

  /**
   * What a decoder knows between representations: its table and size, the limit it announced, the smallest limit since
   * the last update, and whether an update may or must come now.
   */
  datatype View = View(table: fields, max: nat, limit: nat, lowest: nat, may: bool, must: bool)

  /** Section 2.3.3: one index for both tables, counted from 1. */
  function EntryAt(P: Params, t: fields, n: nat): Field
    requires |P.statics| == 61 && 1 <= n <= 61 + |t|
  {
    if n <= 61 then P.statics[n - 1].field else t[n - 62]
  }

  /** What one representation does; None if a decoder must refuse it. */
  function Effect(P: Params, w: View, x: Item): Option<(View, seq<Emitted>)>
    requires |P.statics| == 61
  {
    match x
    case Update(_, n) =>
      if !w.may || n > w.limit || n > w.lowest then None
      else Some((w.(table := Fit(w.table, n), max := n, lowest := 0xffff_ffff, must := false), []))
    case IndexedField(_, n) =>
      if w.must || n == 0 || n > 61 + |w.table| then None
      else Some((w.(may := false), [Emitted(EntryAt(P, w.table, n), false)]))
    case IndexedName(h, n, _, v) =>
      if w.must || n == 0 || n > 61 + |w.table| || h == [] then None
      else Some(Literal(w, h[0], Field(EntryAt(P, w.table, n).name, v)))
    case NewName(b, _, name, _, v) =>
      if w.must then None else Some(Literal(w, b, Field(name, v)))
  }

  /** Section 6.2: inserted if the first octet says 01, and never to be indexed if it says 0001. */
  function Literal(w: View, b: byte, f: Field): (View, seq<Emitted>) {
    (w.(may := false, table := if 64 <= b < 128 then Insert(w.table, f, w.max) else w.table),
     [Emitted(f, 16 <= b < 32)])
  }

  function BlockEffect(P: Params, w: View, xs: seq<Item>): Option<(View, seq<Emitted>)>
    requires |P.statics| == 61
    decreases |xs|
  {
    if xs == [] then Some((w, []))
    else
      match Effect(P, w, xs[0])
      case None => None
      case Some(r) =>
        match BlockEffect(P, r.0, xs[1..])
        case None => None
        case Some(q) => Some((q.0, r.1 + q.1))
  }

  // ---------------------------------------------------------------- numbers

  lemma {:induction false} SpelledIsRead(h: seq<byte>, p: prefix, n: nat, rest: seq<byte>)
    requires Spells(h, p, n)
    ensures IntRun(0, 0, h + rest, p) == (Done(n), |h|)
  {
    var k := Mask(p);
    IntRunSplit(0, 0, h, rest, p);
    if h[0] % (k + 1) == k {
      ContinuationAccepted(k, 0, h[1..], p);
      assert Pow2(7 * 0) == 1;
      assert GroupValue(h[1..]) * Pow2(7 * 0) == GroupValue(h[1..]);
    }
  }

  lemma {:induction false} DoneIsContinuation(n: nat, shift: nat, s: seq<byte>, p: prefix)
    requires n > 0 && IntRun(n, shift, s, p).0.Done?
    ensures var r := IntRun(n, shift, s, p).1; 0 < r <= |s| && IsContinuation(s[..r])
    decreases |s|
  {
    var st := IntByte(n, shift, s[0], p);
    if st.More? {
      DoneIsContinuation(st.n, st.shift, s[1..], p);
      var r := IntRun(n, shift, s, p).1;
      assert s[..r] == [s[0]] + s[1..][..r - 1];
    }
  }

  lemma ContinuationRead(k: nat, s: seq<byte>, p: prefix)
    requires 0 < k <= 0xffff_ffff && IntRun(k, 0, s, p).0.Done?
    ensures var r := IntRun(k, 0, s, p);
            && 0 < r.1 <= |s| && r.1 <= 5 && IsContinuation(s[..r.1])
            && r.0.value == k + GroupValue(s[..r.1]) <= 0xffff_ffff
  {
    hide IntByte, GroupValue;
    DoneIsContinuation(k, 0, s, p);
    var r := IntRun(k, 0, s, p);
    var c := s[..r.1];
    IntRunSplit(k, 0, c, s[r.1..], p);
    assert c + s[r.1..] == s;
    ContinuationAccepted(k, 0, c, p);
    assert Pow2(7 * 0) == 1;
    assert GroupValue(c) * Pow2(7 * 0) == GroupValue(c);
  }

  lemma ReadIsSpelled(s: seq<byte>, p: prefix)
    requires IntRun(0, 0, s, p).0.Done?
    ensures var r := IntRun(0, 0, s, p); 0 < r.1 <= |s| && Spells(s[..r.1], p, r.0.value)
  {
    var r := IntRun(0, 0, s, p);
    var k := Mask(p);
    if s[0] % (k + 1) == k {
      ContinuationRead(k, s[1..], p);
      assert s[..r.1][1..] == s[1..][..r.1 - 1];
    }
  }

  /** A whole number read from a state that expects one. */
  lemma NumberForward(P: Params, s: Dec, h: seq<byte>, n: nat, rest: seq<byte>)
    requires IsLengthState(s.state) && s.left == 0 && s.shift == 0 && Spells(h, PrefixOf(s), n) && n <= LimitOf(s)
    ensures Run(P, s, h + rest) == Continue(P, Finish(P, s.(left := n, shift := 0)), rest)
  {
    SpelledIsRead(h, PrefixOf(s), n, rest);
    NumberRun(P, s, h + rest);
    assert (h + rest)[|h|..] == rest;
  }

  /** The input is accepted and ends between representations. */
  ghost predicate Accepted(o: Outcome) {
    o.dec.Some? && AtBoundary(o.dec.value)
  }

  lemma NumberBackward(P: Params, s: Dec, input: seq<byte>) returns (h: seq<byte>, n: nat, rest: seq<byte>)
    requires IsLengthState(s.state) && s.left == 0 && s.shift == 0 && Accepted(Run(P, s, input))
    ensures h != [] && input == h + rest && Spells(h, PrefixOf(s), n) && n <= LimitOf(s)
    ensures Run(P, s, input) == Continue(P, Finish(P, s.(left := n, shift := 0)), rest)
  {
    NumberRun(P, s, input);
    var r := IntRun(0, 0, input, PrefixOf(s));
    ReadIsSpelled(input, PrefixOf(s));
    h, n, rest := input[..r.1], r.0.value, input[r.1..];
  }

  // ---------------------------------------------------------------- strings

  lemma Lengths(P: Params)
    requires ValidParams(P)
    ensures |P.statics| == 61 && |P.code.codes| == 257
  {
  }

  /** Read through the table, a coded string is accepted exactly if it is an encoding, and gives what was encoded. */
  lemma CodedString(P: Params, body: seq<byte>, v: seq<byte>)
    requires ValidParams(P)
    ensures HuffmanTable.Stuck(P.table)
    ensures var (f, o) := HuffmanTable.Read(P.table, HuffmanTable.ACCEPTED, body);
            HuffmanOk(f, 0) && o == v <==> body == HuffmanCode.Encode(P.code, v)
    ensures HuffmanCode.Encode(P.code, v) == [] <==> v == []
  {
    hide HuffmanTable.Read, HuffmanTable.Generate, HuffmanTable.Stuck, HuffmanCode.Encode, HuffmanCode.WellFormed;
    Lengths(P);
    HuffmanTable.FailureIsFinal(P.code);
    HuffmanTable.DecodesExactlyEncodings(P.code, body, v);
    HuffmanTable.EncodingReadsBack(P.code, P.table, v);
    NothingEncoded(P.code);
  }

  lemma NothingEncoded(h: HuffmanCode.Code)
    requires |h.codes| == 257
    ensures HuffmanCode.Encode(h, []) == []
  {
  }

  /** The next octet begins a value's length. */
  predicate AwaitsLength(s: Dec) {
    s.state.CheckValuelen? || ((s.state.NewnameReadName? || s.state.NewnameReadNamehuff?) && s.left == 0)
  }

  lemma LengthBegins(P: Params, s: Dec, input: seq<byte>)
    requires AwaitsLength(s) && input != []
    ensures Run(P, s, input) == Run(P, CheckLength(s, input[0], ReadValuelen), input)
  {
    hide ValuelenByte;
    assert Step(P, s, input[0]) == Step(P, CheckLength(s, input[0], ReadValuelen), input[0]);
  }

  function LiteralField(P: Params, s: Dec, v: seq<byte>): Field {
    Field(if s.op.Newname? then s.name else Get(P, s.table, s.index).name, v)
  }

  /** A literal with the value `v` has been completed. */
  ghost predicate Completed(P: Params, s: Dec, v: seq<byte>, d: Dec) {
    && d.state.Opcode? && d.max == s.max && d.settingsMax == s.settingsMax && d.minMax == s.minMax
    && d.table == if s.indexRequired then Insert(s.table, LiteralField(P, s, v), s.max) else s.table
  }

  lemma CommitCompletes(P: Params, s: Dec, s1: Dec, v: seq<byte>)
    requires s1.value == v && s1.op == s.op && s1.index == s.index && s1.name == s.name
    requires s1.table == s.table && s1.max == s.max && s1.settingsMax == s.settingsMax && s1.minMax == s.minMax
    requires s1.indexRequired == s.indexRequired && s1.noIndex == s.noIndex
    ensures Commit(P, s1) == Next(Commit(P, s1).dec, [Emitted(LiteralField(P, s, v), s.noIndex)])
    ensures Completed(P, s, v, Commit(P, s1).dec)
  {
  }

  /** The state in which the body of a value is complete. */
  function ValueComplete(P: Params, s: Dec, body: seq<byte>, v: seq<byte>): Dec {
    s.(value := v, left := 0,
       fstate := if s.huffman && body != [] then HuffmanTable.Read(P.table, HuffmanTable.ACCEPTED, body).0
                 else s.fstate)
  }

  lemma ValueBodyForward(P: Params, s: Dec, body: seq<byte>, v: seq<byte>, rest: seq<byte>)
    requires ValidParams(P) && body == if s.huffman then HuffmanCode.Encode(P.code, v) else v
    requires s.left == |body| && s == ValueStart(s)
    ensures Continue(P, ValueDoneIfEmpty(P, s), body + rest) ==
            Continue(P, Commit(P, ValueComplete(P, s, body, v)), rest)
  {
    hide Commit, HuffmanTable.Read, HuffmanCode.Encode, HuffmanTable.Stuck, ValidParams;
    CodedString(P, body, v);
    assert [] + v == v;
    PrependNothing(Run(P, s, body + rest));
    if body == [] {
      assert body + rest == rest;
      assert s == ValueComplete(P, s, body, v);
    } else if s.huffman {
      ValueHuffRun(P, s, body, rest);
    } else {
      ValueRun(P, s, body, rest);
    }
  }

  lemma ValueForward(P: Params, s: Dec, x: Str, v: seq<byte>, rest: seq<byte>) returns (d: Dec)
    requires ValidParams(P) && AwaitsLength(s) && Denotes(P, x, v)
    ensures Run(P, s, StrOctets(x) + rest) == Prepend([Emitted(LiteralField(P, s, v), s.noIndex)], Run(P, d, rest))
    ensures Completed(P, s, v, d)
  {
    hide Commit, Completed, LiteralField, HuffmanCode.Encode, ValidParams, Run, ValueDoneIfEmpty;
    var input := StrOctets(x) + rest;
    LengthBegins(P, s, input);
    var s1 := CheckLength(s, x.length[0], ReadValuelen);
    assert input == x.length + (x.body + rest);
    NumberForward(P, s1, x.length, |x.body|, x.body + rest);
    var s2 := ValueStart(s1.(left := |x.body|, shift := 0));
    ValueBodyForward(P, s2, x.body, v, rest);
    var s3 := ValueComplete(P, s2, x.body, v);
    CommitCompletes(P, s, s3, v);
    d := Commit(P, s3).dec;
  }

  lemma ValueBodyBackward(P: Params, s: Dec, tail: seq<byte>) returns (body: seq<byte>, v: seq<byte>, rest: seq<byte>)
    requires ValidParams(P) && s == ValueStart(s) && Accepted(Continue(P, ValueDoneIfEmpty(P, s), tail))
    ensures tail == body + rest && |body| == s.left
    ensures body == if s.huffman then HuffmanCode.Encode(P.code, v) else v
  {
    hide Commit, HuffmanTable.Read, HuffmanCode.Encode, HuffmanTable.Stuck, ValidParams;
    CodedString(P, [], []);
    PrependNothing(Run(P, s, tail));
    if s.left == 0 {
      body, v, rest := [], [], tail;
    } else if |tail| < s.left {
      CutValue(P, s, tail);
      assert false;
    } else {
      body, rest := tail[..s.left], tail[s.left..];
      assert tail == body + rest;
      v := body;
      if s.huffman {
        ValueHuffRun(P, s, body, rest);
        v := HuffmanTable.Read(P.table, HuffmanTable.ACCEPTED, body).1;
        CodedString(P, body, v);
      }
    }
  }

  lemma ValueBackward(P: Params, s: Dec, input: seq<byte>) returns (x: Str, v: seq<byte>, rest: seq<byte>)
    requires ValidParams(P) && AwaitsLength(s) && Accepted(Run(P, s, input))
    ensures input == StrOctets(x) + rest && Denotes(P, x, v)
  {
    hide HuffmanCode.Encode, ValidParams, Run, ValueDoneIfEmpty, Spells;
    RunNothing(P, s);
    LengthBegins(P, s, input);
    var s1 := CheckLength(s, input[0], ReadValuelen);
    var h, n, tail := NumberBackward(P, s1, input);
    var body;
    body, v, rest := ValueBodyBackward(P, ValueStart(s1.(left := n, shift := 0)), tail);
    x := Str(h, body);
    assert input == StrOctets(x) + rest;
  }

  lemma RunNothing(P: Params, s: Dec)
    ensures Run(P, s, []) == Outcome(Some(s), [])
  {
  }

  /** A value cut off by the end of the input leaves the machine in its middle. */
  lemma CutValue(P: Params, s: Dec, part: seq<byte>)
    requires HuffmanTable.Stuck(P.table)
    requires (s.state.ReadValue? || s.state.ReadValuehuff?) && |part| < s.left
    ensures !Accepted(Run(P, s, part))
  {
    hide Commit;
    assert part + [] == part;
    if part != [] {
      if s.state.ReadValue? {
        ValueRun(P, s, part, []);
      } else {
        ValueHuffRun(P, s, part, []);
      }
    }
  }

  /** A name with the value `v` has been read, and nothing else has changed. */
  ghost predicate Named(s: Dec, v: seq<byte>, d: Dec) {
    && AwaitsLength(d) && d.name == v && d.op == s.op && d.index == s.index
    && d.table == s.table && d.max == s.max && d.settingsMax == s.settingsMax && d.minMax == s.minMax
    && d.indexRequired == s.indexRequired && d.noIndex == s.noIndex
  }

  lemma NameBegins(P: Params, s: Dec, input: seq<byte>)
    requires s.state.NewnameCheckNamelen? && input != []
    ensures Run(P, s, input) == Run(P, CheckLength(s, input[0], NewnameReadNamelen), input)
  {
    hide NamelenByte;
    assert Step(P, s, input[0]) == Step(P, CheckLength(s, input[0], NewnameReadNamelen), input[0]);
  }

  lemma NameBodyForward(P: Params, s: Dec, body: seq<byte>, v: seq<byte>, rest: seq<byte>) returns (d: Dec)
    requires ValidParams(P) && body == if s.huffman then HuffmanCode.Encode(P.code, v) else v
    requires s.left == |body| && s == NameStart(s)
    ensures Run(P, s, body + rest) == Run(P, d, rest) && Named(s, v, d)
  {
    hide HuffmanTable.Read, HuffmanCode.Encode, HuffmanTable.Stuck, ValidParams;
    CodedString(P, body, v);
    assert [] + v == v;
    if body == [] {
      assert body + rest == rest;
      d := s;
    } else if s.huffman {
      NameHuffRun(P, s, body, rest);
      d := NameHuffTaken(P, s, body).dec;
      PrependNothing(Run(P, d, rest));
    } else {
      NameRun(P, s, body, rest);
      d := NameTaken(s, body);
    }
  }

  lemma NameForward(P: Params, s: Dec, x: Str, v: seq<byte>, rest: seq<byte>) returns (d: Dec)
    requires ValidParams(P) && s.state.NewnameCheckNamelen? && Denotes(P, x, v)
    ensures Run(P, s, StrOctets(x) + rest) == Run(P, d, rest) && Named(s, v, d)
  {
    hide HuffmanCode.Encode, ValidParams, Run;
    var input := StrOctets(x) + rest;
    NameBegins(P, s, input);
    var s1 := CheckLength(s, x.length[0], NewnameReadNamelen);
    assert input == x.length + (x.body + rest);
    NumberForward(P, s1, x.length, |x.body|, x.body + rest);
    var s2 := NameStart(s1.(left := |x.body|, shift := 0));
    PrependNothing(Run(P, s2, x.body + rest));
    d := NameBodyForward(P, s2, x.body, v, rest);
  }

  lemma NameBodyBackward(P: Params, s: Dec, tail: seq<byte>) returns (body: seq<byte>, v: seq<byte>, rest: seq<byte>)
    requires ValidParams(P) && s == NameStart(s) && Accepted(Run(P, s, tail))
    ensures tail == body + rest && |body| == s.left
    ensures body == if s.huffman then HuffmanCode.Encode(P.code, v) else v
  {
    hide HuffmanTable.Read, HuffmanCode.Encode, HuffmanTable.Stuck, ValidParams;
    CodedString(P, [], []);
    if s.left == 0 {
      body, v, rest := [], [], tail;
    } else if |tail| < s.left {
      CutName(P, s, tail);
      assert false;
    } else {
      body, rest := tail[..s.left], tail[s.left..];
      assert tail == body + rest;
      v := body;
      if s.huffman {
        NameHuffRun(P, s, body, rest);
        v := HuffmanTable.Read(P.table, HuffmanTable.ACCEPTED, body).1;
        CodedString(P, body, v);
      }
    }
  }

  lemma NameBackward(P: Params, s: Dec, input: seq<byte>) returns (x: Str, v: seq<byte>, rest: seq<byte>)
    requires ValidParams(P) && s.state.NewnameCheckNamelen? && Accepted(Run(P, s, input))
    ensures input == StrOctets(x) + rest && Denotes(P, x, v)
  {
    hide HuffmanCode.Encode, ValidParams, Run, Spells;
    RunNothing(P, s);
    NameBegins(P, s, input);
    var s1 := CheckLength(s, input[0], NewnameReadNamelen);
    var h, n, tail := NumberBackward(P, s1, input);
    var s2 := NameStart(s1.(left := n, shift := 0));
    PrependNothing(Run(P, s2, tail));
    var body;
    body, v, rest := NameBodyBackward(P, s2, tail);
    x := Str(h, body);
    assert input == StrOctets(x) + rest;
  }

  lemma CutName(P: Params, s: Dec, part: seq<byte>)
    requires HuffmanTable.Stuck(P.table)
    requires (s.state.NewnameReadName? || s.state.NewnameReadNamehuff?) && |part| < s.left
    ensures !Accepted(Run(P, s, part))
  {
    assert part + [] == part;
    if part != [] {
      if s.state.NewnameReadName? {
        NameRun(P, s, part, []);
      } else {
        NameHuffRun(P, s, part, []);
      }
    }
  }

  // ---------------------------------------------------------------- one representation

  /** The machine stands between representations. */
  predicate Between(s: Dec) {
    s.state.ExpectTableSize? || AtBoundary(s)
  }

  function ViewOf(s: Dec): View {
    View(s.table, s.max, s.settingsMax, s.minMax, !s.state.Opcode?, s.state.ExpectTableSize?)
  }

  /** The first octet selects a state and, but for a new name, is then read as part of a number. */
  lemma Begins(P: Params, s: Dec, input: seq<byte>)
    requires Between(s) && input != []
    ensures var c := Dispatch(s, input[0]);
            Run(P, s, input) == if c.Reject? || (s.state.ExpectTableSize? && input[0] / 32 != 1) then Outcome(None, [])
                                else if c.Number? then Run(P, c.dec, input)
                                else Run(P, c.dec, input[1..])
  {
    hide TableSizeByte, IndexByte;
    var c := Dispatch(s, input[0]);
    if c.NewName? {
      PrependNothing(Run(P, c.dec, input[1..]));
    } else if c.Number? && (s.state.ExpectTableSize? ==> input[0] / 32 == 1) {
      assert Step(P, s, input[0]) == Step(P, c.dec, input[0]);
    }
  }

  lemma UpdateForward(P: Params, s: Dec, h: seq<byte>, n: nat, rest: seq<byte>) returns (d: Dec)
    requires |P.statics| == 61 && Between(s) && Spells(h, 5, n) && 32 <= h[0] < 64
    requires Effect(P, ViewOf(s), Update(h, n)).Some?
    ensures Between(d) && Run(P, s, h + rest) == Run(P, d, rest)
    ensures Effect(P, ViewOf(s), Update(h, n)) == Some((ViewOf(d), []))
  {
    var s1 := s.(op := Indexed, state := ReadTableSize, left := 0, shift := 0);
    Begins(P, s, h + rest);
    NumberForward(P, s1, h, n, rest);
    d := SizeRead(s1.(left := n));
    PrependNothing(Run(P, d, rest));
  }

  lemma IndexedForward(P: Params, s: Dec, h: seq<byte>, n: nat, rest: seq<byte>) returns (d: Dec, e: Emitted)
    requires |P.statics| == 61 && Between(s) && Spells(h, 7, n) && 128 <= h[0]
    requires Effect(P, ViewOf(s), IndexedField(h, n)).Some?
    ensures Between(d) && Run(P, s, h + rest) == Prepend([e], Run(P, d, rest))
    ensures Effect(P, ViewOf(s), IndexedField(h, n)) == Some((ViewOf(d), [e]))
  {
    var s1 := s.(op := Indexed, state := ReadIndex, left := 0, shift := 0);
    Begins(P, s, h + rest);
    NumberForward(P, s1, h, n, rest);
    d, e := s1.(index := n - 1, left := n, state := Opcode), Emitted(Get(P, s.table, n - 1), false);
  }

  /** What the kind of a literal's first octet sets up. */
  function Begun(s: Dec, b: byte, op: Op, st: State): Dec {
    s.(indexRequired := b / 64 % 2 == 1, noIndex := b / 16 == 1, left := 0, shift := 0, op := op, state := st)
  }

  lemma LiteralDone(P: Params, s: Dec, b: byte, s1: Dec, v: seq<byte>, f: Field, d: Dec)
    requires Between(s) && (b < 32 || 64 <= b < 128) && Completed(P, s1, v, d) && LiteralField(P, s1, v) == f
    requires s1.table == s.table && s1.max == s.max && s1.settingsMax == s.settingsMax && s1.minMax == s.minMax
    requires s1.indexRequired == (b / 64 % 2 == 1) && s1.noIndex == (b / 16 == 1)
    ensures Literal(ViewOf(s).(must := false), b, f) == (ViewOf(d), [Emitted(LiteralField(P, s1, v), s1.noIndex)])
  {
  }

  lemma IndexedNameBegins(s: Dec, h: seq<byte>, n: nat)
    requires h != [] && (h[0] < 32 || 64 <= h[0] < 128) && Spells(h, if h[0] < 32 then 4 else 6, n) && n > 0
    ensures Dispatch(s, h[0]) == Number(Begun(s, h[0], Indname, ReadIndex))
    ensures PrefixOf(Begun(s, h[0], Indname, ReadIndex)) == if h[0] < 32 then 4 else 6
  {
  }

  lemma NameIndexForward(P: Params, s: Dec, h: seq<byte>, n: nat, rest: seq<byte>) returns (s2: Dec)
    requires |P.statics| == 61 && Between(s) && !s.state.ExpectTableSize?
    requires h != [] && (h[0] < 32 || 64 <= h[0] < 128) && Spells(h, if h[0] < 32 then 4 else 6, n)
    requires 0 < n <= 61 + |s.table|
    ensures Run(P, s, h + rest) == Run(P, s2, rest)
    ensures s2 == Begun(s, h[0], Indname, CheckValuelen).(left := n, index := n - 1)
  {
    hide Run, Dispatch, Spells;
    var s1 := Begun(s, h[0], Indname, ReadIndex);
    IndexedNameBegins(s, h, n);
    Begins(P, s, h + rest);
    NumberForward(P, s1, h, n, rest);
    s2 := s1.(index := n - 1, left := n, state := CheckValuelen);
    PrependNothing(Run(P, s2, rest));
  }

  lemma IndexedNameForward(P: Params, s: Dec, x: Item, rest: seq<byte>) returns (d: Dec, e: Emitted)
    requires ValidParams(P) && Between(s) && x.IndexedName? && Spelled(P, x) && Effect(P, ViewOf(s), x).Some?
    ensures Between(d) && Run(P, s, ItemOctets(x) + rest) == Prepend([e], Run(P, d, rest))
    ensures Effect(P, ViewOf(s), x) == Some((ViewOf(d), [e]))
  {
    hide Run, ValidParams, Denotes, Insert;
    Lengths(P);
    var tail := StrOctets(x.valueText) + rest;
    assert ItemOctets(x) + rest == x.head + tail;
    var s2 := NameIndexForward(P, s, x.head, x.n, tail);
    d := ValueForward(P, s2, x.valueText, x.value, rest);
    e := Emitted(LiteralField(P, s2, x.value), s2.noIndex);
    LiteralDone(P, s, x.head[0], s2, x.value, Field(EntryAt(P, s.table, x.n).name, x.value), d);
  }

  lemma NewNameForward(P: Params, s: Dec, x: Item, rest: seq<byte>) returns (d: Dec, e: Emitted)
    requires ValidParams(P) && Between(s) && x.NewName? && Spelled(P, x) && Effect(P, ViewOf(s), x).Some?
    ensures Between(d) && Run(P, s, ItemOctets(x) + rest) == Prepend([e], Run(P, d, rest))
    ensures Effect(P, ViewOf(s), x) == Some((ViewOf(d), [e]))
  {
    hide Run, ValidParams, Denotes, Insert;
    Lengths(P);
    var tail := StrOctets(x.valueText) + rest;
    var input := ItemOctets(x) + rest;
    assert input == [x.first] + (StrOctets(x.nameText) + tail);
    Begins(P, s, input);
    assert input[1..] == StrOctets(x.nameText) + tail;
    var s1 := Begun(s, x.first, Newname, NewnameCheckNamelen);
    assert Dispatch(s, x.first) == Choice.NewName(s1);
    var s2 := NameForward(P, s1, x.nameText, x.name, tail);
    d := ValueForward(P, s2, x.valueText, x.value, rest);
    e := Emitted(LiteralField(P, s2, x.value), s2.noIndex);
    LiteralDone(P, s, x.first, s2, x.value, Field(x.name, x.value), d);
  }

  /** A representation well spelled and allowed is read as it is meant. */
  lemma ItemForward(P: Params, s: Dec, x: Item, rest: seq<byte>) returns (d: Dec, out: seq<Emitted>)
    requires ValidParams(P) && Between(s) && Spelled(P, x) && Effect(P, ViewOf(s), x).Some?
    ensures Between(d) && Run(P, s, ItemOctets(x) + rest) == Prepend(out, Run(P, d, rest))
    ensures Effect(P, ViewOf(s), x) == Some((ViewOf(d), out))
  {
    hide Run, Denotes, ValidParams;
    Lengths(P);
    var e;
    match x
    case Update(h, n) =>
      d := UpdateForward(P, s, h, n, rest);
      out := [];
      PrependNothing(Run(P, d, rest));
    case IndexedField(h, n) =>
      d, e := IndexedForward(P, s, h, n, rest);
      out := [e];
    case IndexedName(_, _, _, _) =>
      d, e := IndexedNameForward(P, s, x, rest);
      out := [e];
    case NewName(_, _, _, _, _) =>
      d, e := NewNameForward(P, s, x, rest);
      out := [e];
  }

  /** Blocks of such representations are accepted and mean what their representations mean. */
  lemma {:induction false} BlockForward(P: Params, s: Dec, xs: seq<Item>) returns (d: Dec)
    requires ValidParams(P) && Between(s) && forall x :: x in xs ==> Spelled(P, x)
    requires BlockEffect(P, ViewOf(s), xs).Some?
    ensures var (w, out) := BlockEffect(P, ViewOf(s), xs).value;
            Run(P, s, BlockOctets(xs)) == Outcome(Some(d), out) && Between(d) && ViewOf(d) == w
    decreases |xs|
  {
    if xs == [] {
      d := s;
    } else {
      var s1, out := ItemForward(P, s, xs[0], BlockOctets(xs[1..]));
      d := BlockForward(P, s1, xs[1..]);
    }
  }

  lemma NumberBegun(P: Params, s: Dec, input: seq<byte>, h: seq<byte>, n: nat, tail: seq<byte>)
    requires |P.statics| == 61 && Between(s) && input != [] && h != [] && Dispatch(s, input[0]).Number?
    requires s.state.ExpectTableSize? ==> input[0] / 32 == 1
    requires var s1 := Dispatch(s, input[0]).dec;
             Spells(h, PrefixOf(s1), n) && n <= LimitOf(s1) && input == h + tail
             && Accepted(Continue(P, Finish(P, s1.(left := n, shift := 0)), tail))
    ensures h[0] == input[0]
    ensures h[0] / 32 == 1 ==> Spells(h, 5, n) && Effect(P, ViewOf(s), Item.Update(h, n)).Some?
    ensures h[0] >= 128 ==> Spells(h, 7, n) && Effect(P, ViewOf(s), Item.IndexedField(h, n)).Some?
    ensures h[0] < 128 && h[0] / 32 != 1 ==>
              && Spells(h, if h[0] < 32 then 4 else 6, n) && n <= 61 + |s.table| && !s.state.ExpectTableSize?
              && Dispatch(s, input[0]).dec == Begun(s, h[0], Indname, ReadIndex)
  {
    hide Run, Spells, Get, SizeRead, ValueStart, NameStart, Commit;
  }

  /** The first representation of an accepted input. */
  lemma ItemBackward(P: Params, s: Dec, input: seq<byte>) returns (x: Item, rest: seq<byte>)
    requires ValidParams(P) && Between(s) && input != [] && Accepted(Run(P, s, input))
    ensures input == ItemOctets(x) + rest && Spelled(P, x) && Effect(P, ViewOf(s), x).Some?
  {
    hide ValidParams, Denotes, Run, Finish, Continue, Spells, Dispatch;
    Lengths(P);
    Begins(P, s, input);
    var c := Dispatch(s, input[0]);
    if c.Number? {
      KindsOfFirst(s, input[0]);
      var h, n, tail := NumberBackward(P, c.dec, input);
      NumberBegun(P, s, input, h, n, tail);
      if h[0] / 32 == 1 {
        x, rest := Item.Update(h, n), tail;
      } else if h[0] >= 128 {
        x, rest := Item.IndexedField(h, n), tail;
      } else {
        x, rest := NameIndexBackward(P, c.dec, h, n, tail);
      }
    } else {
      KindsOfFirst(s, input[0]);
      x, rest := NewNameBackward(P, c.dec, input[0], input[1..]);
      assert input == [input[0]] + input[1..];
    }
  }

  lemma KindsOfFirst(s: Dec, b: byte)
    ensures var c := Dispatch(s, b);
            && (c.Number? ==> IsLengthState(c.dec.state) && c.dec.left == 0 && c.dec.shift == 0)
            && (c.NewName? ==> b in {0, 16, 64} && b / 32 != 1 && c.dec.state.NewnameCheckNamelen?)
  {
  }

  lemma NewNameBackward(P: Params, s: Dec, b: byte, input: seq<byte>) returns (x: Item, rest: seq<byte>)
    requires ValidParams(P) && s.state.NewnameCheckNamelen? && Accepted(Run(P, s, input)) && b in {0, 16, 64}
    ensures x.NewName? && [b] + input == ItemOctets(x) + rest && Spelled(P, x)
  {
    hide ValidParams, Denotes, Run;
    Lengths(P);
    var nt, name, tail := NameBackward(P, s, input);
    var s2 := NameForward(P, s, nt, name, tail);
    var vt, v;
    vt, v, rest := ValueBackward(P, s2, tail);
    x := Item.NewName(b, nt, name, vt, v);
    assert [b] + (StrOctets(nt) + (StrOctets(vt) + rest)) == ItemOctets(x) + rest;
  }

  lemma NameIndexBackward(P: Params, s: Dec, h: seq<byte>, n: nat, tail: seq<byte>) returns (x: Item, rest: seq<byte>)
    requires ValidParams(P) && s.state.ReadIndex? && s.op.Indname? && h != [] && (h[0] < 32 || 64 <= h[0] < 128)
    requires Accepted(Continue(P, Finish(P, s.(left := n, shift := 0)), tail)) && n <= 61 + |s.table|
    requires Spells(h, if h[0] < 32 then 4 else 6, n)
    ensures x.IndexedName? && x.head == h && x.n == n && n > 0 && Spelled(P, x) && h + tail == ItemOctets(x) + rest
  {
    hide ValidParams, Denotes;
    Lengths(P);
    var s2 := s.(left := n, shift := 0, index := n - 1, state := CheckValuelen);
    PrependNothing(Run(P, s2, tail));
    var vt, v;
    vt, v, rest := ValueBackward(P, s2, tail);
    x := Item.IndexedName(h, n, vt, v);
    assert h + (StrOctets(vt) + rest) == ItemOctets(x) + rest;
  }

  /** Every accepted input is such a block. */
  lemma {:induction false} BlockBackward(P: Params, s: Dec, input: seq<byte>) returns (xs: seq<Item>)
    requires ValidParams(P) && Between(s) && Accepted(Run(P, s, input))
    ensures (forall x :: x in xs ==> Spelled(P, x)) && BlockOctets(xs) == input
    ensures BlockEffect(P, ViewOf(s), xs).Some? && !BlockEffect(P, ViewOf(s), xs).value.0.must
    ensures Run(P, s, input).out == BlockEffect(P, ViewOf(s), xs).value.1
    ensures ViewOf(Run(P, s, input).dec.value) == BlockEffect(P, ViewOf(s), xs).value.0
    decreases |input|
  {
    if input == [] {
      xs := [];
    } else {
      var x, rest := ItemBackward(P, s, input);
      var s1, out := ItemForward(P, s, x, rest);
      assert |ItemOctets(x)| > 0;
      var ys := BlockBackward(P, s1, rest);
      xs := [x] + ys;
      assert xs[1..] == ys;
    }
  }

  /**
   * The inflater's machine accepts exactly the blocks of section 6, hands out the fields they mean and is left with the
   * table, sizes and obligations they lead to.
   */
  lemma InflatesExactly(P: Params, s: Dec, input: seq<byte>)
    requires ValidParams(P) && Between(s)
    ensures Accepted(Run(P, s, input)) <==> exists xs :: IsBlock(P, s, xs, input)
    ensures forall xs :: IsBlock(P, s, xs, input) ==>
              var (w, out) := BlockEffect(P, ViewOf(s), xs).value;
              Run(P, s, input).out == out && ViewOf(Run(P, s, input).dec.value) == w
  {
    forall xs | IsBlock(P, s, xs, input)
      ensures Accepted(Run(P, s, input))
      ensures var (w, out) := BlockEffect(P, ViewOf(s), xs).value;
              Run(P, s, input).out == out && ViewOf(Run(P, s, input).dec.value) == w
    {
      var d := BlockForward(P, s, xs);
    }
    if Accepted(Run(P, s, input)) {
      var xs := BlockBackward(P, s, input);
      assert IsBlock(P, s, xs, input);
    }
  }

  ghost predicate IsBlock(P: Params, s: Dec, xs: seq<Item>, input: seq<byte>)
    requires |P.statics| == 61 && |P.code.codes| == 257
  {
    && (forall x :: x in xs ==> Spelled(P, x)) && BlockOctets(xs) == input
    && BlockEffect(P, ViewOf(s), xs).Some? && !BlockEffect(P, ViewOf(s), xs).value.0.must
  }
}
