/** The JSON tokenizer as a machine on plain values: scanning, tokens, and what a run guarantees. */
module Jsmn {
  import opened Bytes

  const ERROR_NOMEM := -1
  const ERROR_INVAL := -2
  const ERROR_PART := -3

  datatype Kind = Undefined | Object | Array | String | Primitive

  /** `end` is -1 while a container is open. */
  datatype Token = Token(kind: Kind, start: int, end: int, size: nat)

  type text = seq<byte>
  type tokens = seq<Token>

  const QUOTE: byte := 34
  const BACKSLASH: byte := 92
  const COLON: byte := 58
  const COMMA: byte := 44

  predicate AtEnd(js: text, p: nat) {
    p >= |js| || js[p] == 0
  }

  predicate IsSpace(c: byte) {
    c == 9 || c == 10 || c == 13 || c == 32
  }

  /** An opening bracket, `{` or `[`. */
  predicate Opens(c: byte) {
    c == 123 || c == 91
  }

  predicate Closes(c: byte) {
    c == 125 || c == 93
  }

  function KindOf(c: byte): Kind {
    if c == 123 || c == 125 then Object else Array
  }

  predicate Delimits(c: byte) {
    c == COLON || IsSpace(c) || c == COMMA || Closes(c)
  }

  // ---------------------------------------------------------------- scanning one token

  /** End of a primitive, unless an octet is met that may not be part of one. */
  function ScanPrimitive(js: text, p: nat): (r: Option<nat>)
    ensures r.Some? && p <= |js| ==> p <= r.value <= |js|
    ensures r.Some? && !AtEnd(js, p) && !Delimits(js[p]) ==> r.value > p
    decreases |js| - p
  {
    if AtEnd(js, p) || Delimits(js[p]) then Some(p)
    else if js[p] < 32 || js[p] >= 127 then None
    else ScanPrimitive(js, p + 1)
  }

  predicate IsHex(c: byte) {
    48 <= c <= 57 || 65 <= c <= 70 || 97 <= c <= 102
  }

  function ScanHex(js: text, p: nat, n: nat): (r: Option<nat>)
    ensures r.Some? && p <= |js| ==> p <= r.value <= |js|
    ensures r.Some? ==> r.value >= p
    decreases n
  {
    if n == 0 || AtEnd(js, p) then Some(p)
    else if !IsHex(js[p]) then None
    else ScanHex(js, p + 1, n - 1)
  }

  predicate SimpleEscape(c: byte) {
    c == QUOTE || c == 47 || c == BACKSLASH || c == 98 || c == 102 || c == 114 || c == 110 || c == 116
  }

  datatype Scan = Closed(quote: nat) | Invalid | Partial

  /** The closing quote of a string whose contents start at `p`. */
  function ScanString(js: text, p: nat): (r: Scan)
    ensures r.Closed? ==> p <= r.quote < |js| && js[r.quote] == QUOTE
    decreases |js| - p
  {
    if AtEnd(js, p) then Partial
    else if js[p] == QUOTE then Closed(p)
    else if js[p] == BACKSLASH && p + 1 < |js| then
      if SimpleEscape(js[p + 1]) then ScanString(js, p + 2)
      else if js[p + 1] == 117 then
        match ScanHex(js, p + 2, 4)
        case None => Invalid
        case Some(q) => ScanString(js, q)
      else Invalid
    else ScanString(js, p + 1)
  }

  // ---------------------------------------------------------------- the machine

  datatype State = State(pos: nat, toks: tokens, super: int)

  function Initial(): State {
    State(0, [], -1)
  }

  /** Last unclosed token before `n`, or -1. */
  function LastOpen(toks: tokens, n: nat): (i: int)
    requires n <= |toks|
    ensures -1 <= i < n
    ensures i >= 0 ==> IsOpen(toks[i])
    ensures forall j :: i < j < n ==> !IsOpen(toks[j])
  {
    if n == 0 then -1 else if IsOpen(toks[n - 1]) then n - 1 else LastOpen(toks, n - 1)
  }

  predicate IsOpen(t: Token) {
    t.start != -1 && t.end == -1
  }

  predicate IsContainer(k: Kind) {
    k.Object? || k.Array?
  }

  /** Last unclosed container before `n`, or -1. */
  function LastOpenContainer(toks: tokens, n: nat): (i: int)
    requires n <= |toks|
    ensures -1 <= i < n
  {
    if n == 0 then -1
    else if IsContainer(toks[n - 1].kind) && IsOpen(toks[n - 1]) then n - 1
    else LastOpenContainer(toks, n - 1)
  }

  /** One more child for the superior token, if there is one. */
  function Bump(toks: tokens, super: int): (r: tokens)
    ensures |r| == |toks|
  {
    if 0 <= super < |toks| then toks[super := toks[super].(size := toks[super].size + 1)] else toks
  }

  datatype Turn = Go(st: State) | Stop(code: int)

  function OpenContainer(js: text, s: State, limit: nat): Turn
    requires s.pos < |js|
  {
    if |s.toks| >= limit then Stop(ERROR_NOMEM)
    else Go(State(s.pos + 1, Bump(s.toks, s.super) + [Token(KindOf(js[s.pos]), s.pos, -1, 0)], |s.toks|))
  }

  function CloseContainer(js: text, s: State): Turn
    requires s.pos < |js|
  {
    var i := LastOpen(s.toks, |s.toks|);
    if i < 0 || s.toks[i].kind != KindOf(js[s.pos]) then Stop(ERROR_INVAL)
    else
      var toks := s.toks[i := s.toks[i].(end := s.pos + 1)];
      Go(State(s.pos + 1, toks, LastOpen(toks, i)))
  }

  /** A whole token that is nobody's container, found at `s.pos`, the next thing to read being at `next`. */
  function AddLeaf(s: State, t: Token, next: nat, limit: nat): Turn {
    if |s.toks| >= limit then Stop(ERROR_NOMEM) else Go(State(next, Bump(s.toks + [t], s.super), s.super))
  }

  function ReadString(js: text, s: State, limit: nat): Turn {
    match ScanString(js, s.pos + 1)
    case Invalid => Stop(ERROR_INVAL)
    case Partial => Stop(ERROR_PART)
    case Closed(q) => AddLeaf(s, Token(String, s.pos + 1, q, 0), q + 1, limit)
  }

  function ReadPrimitive(js: text, s: State, limit: nat): Turn {
    match ScanPrimitive(js, s.pos)
    case None => Stop(ERROR_INVAL)
    case Some(p) => AddLeaf(s, Token(Primitive, s.pos, p, 0), p, limit)
  }

  /** After a comma children belong to the innermost open container again. */
  function AfterComma(s: State): State {
    var i := LastOpenContainer(s.toks, |s.toks|);
    if 0 <= s.super < |s.toks| && !IsContainer(s.toks[s.super].kind) && i >= 0 then s.(pos := s.pos + 1, super := i)
    else s.(pos := s.pos + 1)
  }

  function Step(js: text, s: State, limit: nat): (r: Turn)
    requires !AtEnd(js, s.pos)
    ensures r.Go? ==> s.pos < r.st.pos <= |js|
  {
    var c := js[s.pos];
    if Opens(c) then OpenContainer(js, s, limit)
    else if Closes(c) then CloseContainer(js, s)
    else if c == QUOTE then ReadString(js, s, limit)
    else if IsSpace(c) then Go(s.(pos := s.pos + 1))
    else if c == COLON then Go(s.(pos := s.pos + 1, super := |s.toks| - 1))
    else if c == COMMA then Go(AfterComma(s))
    else ReadPrimitive(js, s, limit)
  }

  /** The value a parse returns, and the state it leaves. */
  datatype Outcome = Outcome(rv: int, st: State)

  function Parse(js: text, s: State, limit: nat): Outcome
    decreases |js| - s.pos
  {
    if AtEnd(js, s.pos) then
      Outcome(if LastOpen(s.toks, |s.toks|) >= 0 then ERROR_PART else |s.toks|, s)
    else
      match Step(js, s, limit)
      case Stop(code) => Outcome(code, s)
      case Go(s1) => Parse(js, s1, limit)
  }

  /** A run that only counts, with no token array. */
  function Count(js: text, p: nat, count: nat): int
    decreases |js| - p
  {
    if AtEnd(js, p) then count
    else
      var c := js[p];
      if Opens(c) then Count(js, p + 1, count + 1)
      else if c == QUOTE then
        match ScanString(js, p + 1)
        case Invalid => ERROR_INVAL
        case Partial => ERROR_PART
        case Closed(q) => Count(js, q + 1, count + 1)
      else if Delimits(c) then Count(js, p + 1, count)
      else
        match ScanPrimitive(js, p)
        case None => ERROR_INVAL
        case Some(q) => Count(js, q, count + 1)
  }

  // ---------------------------------------------------------------- running out of tokens

  lemma StepAndLimit(js: text, s: State, k: nat, n: nat)
    requires !AtEnd(js, s.pos) && k <= n
    ensures Step(js, s, k) != Stop(ERROR_NOMEM) ==> Step(js, s, n) == Step(js, s, k)
  {
  }

  /**
   * A run that ends for want of tokens can be continued from where it stopped, with more of them, to the same end as
   * one run with all of them; a run that ends otherwise would have ended the same with more.
   */
  lemma {:induction false} Resumption(js: text, s: State, k: nat, n: nat)
    requires k <= n
    ensures var o := Parse(js, s, k);
            if o.rv == ERROR_NOMEM then Parse(js, o.st, n) == Parse(js, s, n) && |o.st.toks| >= k
            else o == Parse(js, s, n)
    decreases |js| - s.pos
  {
    if !AtEnd(js, s.pos) {
      StepAndLimit(js, s, k, n);
      var r := Step(js, s, k);
      if r.Go? {
        Resumption(js, r.st, k, n);
      }
    }
  }

  /** Growing the token array any number of times, or having had the largest one from the start. */
  function ParseGrowing(js: text, s: State, limits: seq<nat>): Outcome
    requires limits != []
    decreases |limits|
  {
    var o := Parse(js, s, limits[0]);
    if o.rv != ERROR_NOMEM || |limits| == 1 then o else ParseGrowing(js, o.st, limits[1..])
  }

  lemma {:induction false} GrowingIsOneRun(js: text, s: State, limits: seq<nat>)
    requires limits != [] && forall i, j :: 0 <= i < j < |limits| ==> limits[i] <= limits[j]
    ensures ParseGrowing(js, s, limits) == Parse(js, s, limits[|limits| - 1])
    decreases |limits|
  {
    if |limits| > 1 {
      var o := Parse(js, s, limits[0]);
      Resumption(js, s, limits[0], limits[|limits| - 1]);
      if o.rv == ERROR_NOMEM {
        GrowingIsOneRun(js, o.st, limits[1..]);
      }
    }
  }

  // ---------------------------------------------------------------- running out of text

  /** Octets that follow would have belonged to the primitive that the run took to be complete. */
  ghost predicate CutsPrimitive(js: text, more: text, s: State, o: Outcome) {
    var n := |o.st.toks|;
    && n > |s.toks| && o.st.toks[n - 1].kind.Primitive? && o.st.toks[n - 1].end == |js|
    && GoesOn(more)
  }

  predicate GoesOn(more: text) {
    !AtEnd(more, 0) && !Delimits(more[0])
  }

  lemma {:induction false} ScanHexMore(js: text, more: text, p: nat, n: nat)
    ensures ScanHex(js, p, n).None? ==> ScanHex(js + more, p, n).None?
    ensures ScanHex(js, p, n).Some? && !AtEnd(js, ScanHex(js, p, n).value) ==>
              ScanHex(js + more, p, n) == ScanHex(js, p, n)
    decreases n
  {
    if n > 0 && p < |js| && js[p] != 0 {
      ScanHexMore(js, more, p + 1, n - 1);
    }
  }

  lemma {:induction false} ScanStringMore(js: text, more: text, p: nat)
    ensures !ScanString(js, p).Partial? ==> ScanString(js + more, p) == ScanString(js, p)
    decreases |js| - p
  {
    if !AtEnd(js, p) && js[p] != QUOTE {
      if js[p] == BACKSLASH && p + 1 < |js| {
        if SimpleEscape(js[p + 1]) {
          ScanStringMore(js, more, p + 2);
        } else if js[p + 1] == 117 {
          ScanHexMore(js, more, p + 2, 4);
          var q := ScanHex(js, p + 2, 4);
          if q.Some? {
            ScanStringMore(js, more, q.value);
          }
        }
      } else if js[p] != BACKSLASH {
        ScanStringMore(js, more, p + 1);
      }
    }
  }

  /** A primitive that reaches the end of the text goes on with what follows. */
  lemma {:induction false} ScanPrimitiveMore(js: text, more: text, p: nat)
    requires p <= |js|
    ensures var r := ScanPrimitive(js, p);
            ScanPrimitive(js + more, p) == if r == Some(|js|) then ScanPrimitive(js + more, |js|) else r
    ensures ScanPrimitive(js + more, |js|) == Some(|js|) <==> !GoesOn(more)
    decreases |js| - p
  {
    if p < |js| && js[p] != 0 && !Delimits(js[p]) && 32 <= js[p] < 127 {
      ScanPrimitiveMore(js, more, p + 1);
    }
  }

  /** With more text a step is the same, unless it found a string incomplete or cuts a primitive. */
  lemma StepMore(js: text, more: text, s: State, limit: nat)
    requires !AtEnd(js, s.pos)
    ensures var r := Step(js, s, limit);
            && (js + more)[s.pos] == js[s.pos] && !AtEnd(js + more, s.pos)
            && (r != Stop(ERROR_PART) && !CutHere(js, more, s) ==> Step(js + more, s, limit) == r)
            && (r == Stop(ERROR_INVAL) ==> !CutHere(js, more, s))
  {
    if js[s.pos] == QUOTE {
      ScanStringMore(js, more, s.pos + 1);
    } else {
      ScanPrimitiveMore(js, more, s.pos);
    }
  }

  ghost predicate CutHere(js: text, more: text, s: State)
    requires s.pos < |js|
  {
    var c := js[s.pos];
    !Opens(c) && c != QUOTE && !Delimits(c) && ScanPrimitive(js, s.pos) == Some(|js|) && GoesOn(more)
  }

  lemma {:induction false} ClosedTokensStay(js: text, s: State, limit: nat, k: nat)
    requires k < |s.toks|
    ensures var toks := Parse(js, s, limit).st.toks;
            && k < |toks| && toks[k].kind == s.toks[k].kind
            && (s.toks[k].end != -1 ==> toks[k].end == s.toks[k].end)
    decreases |js| - s.pos
  {
    if !AtEnd(js, s.pos) {
      hide LastOpenContainer, ScanString, ScanPrimitive;
      var r := Step(js, s, limit);
      if r.Go? {
        assert r.st.toks[k].kind == s.toks[k].kind && (s.toks[k].end != -1 ==> r.st.toks[k].end == s.toks[k].end);
        ClosedTokensStay(js, r.st, limit, k);
      }
    }
  }

  /** The primitive taken to be complete stays in the tokens, while one run finds a longer one or none. */
  lemma CutShows(js: text, more: text, s: State, limit: nat)
    requires !AtEnd(js, s.pos) && CutHere(js, more, s) && Step(js, s, limit).Go?
    ensures var o := Parse(js, s, limit);
            && o.st == Step(js, s, limit).st && o.rv != ERROR_INVAL && o.rv != ERROR_NOMEM
            && CutsPrimitive(js, more, s, o) && Parse(js + more, o.st, limit) != Parse(js + more, s, limit)
  {
    var k, s1 := |s.toks|, Step(js, s, limit).st;
    assert s1.toks[k].end == |js| && s1.toks[k].kind.Primitive?;
    ClosedTokensStay(js + more, s1, limit, k);
    ScanPrimitiveMore(js, more, s.pos);
    var r := Step(js + more, s, limit);
    if r.Go? {
      assert r.st.toks[k].end > |js|;
      ClosedTokensStay(js + more, r.st, limit, k);
    }
  }

  /** A step that does not cut a primitive itself leaves the question to the rest of the run. */
  lemma CutComesLater(js: text, more: text, s: State, limit: nat)
    requires !AtEnd(js, s.pos) && !CutHere(js, more, s) && Step(js, s, limit).Go?
    ensures var o := Parse(js, s, limit);
            CutsPrimitive(js, more, s, o) <==> CutsPrimitive(js, more, Step(js, s, limit).st, o)
  {
    var s1 := Step(js, s, limit).st;
    TokensOnlyGrow(js, s1, limit);
    if |s1.toks| > |s.toks| {
      ClosedTokensStay(js, s1, limit, |s.toks|);
    }
  }

  /**
   * More text may follow a run that came to the end of its text or found a string incomplete: parsing on is like one
   * run over all of it, exactly unless the cut went through a primitive. After an error more text changes nothing,
   * except that what had no room may turn out to be no token at all.
   */
  lemma {:induction false} MoreText(js: text, more: text, s: State, limit: nat)
    requires s.pos <= |js|
    ensures var o := Parse(js, s, limit);
            var whole := Parse(js + more, s, limit);
            if o.rv == ERROR_INVAL then whole == o
            else if o.rv == ERROR_NOMEM then whole.st == o.st && whole.rv in {ERROR_NOMEM, ERROR_INVAL}
            else Parse(js + more, o.st, limit) == whole <==> !CutsPrimitive(js, more, s, o)
    decreases |js| - s.pos
  {
    if !AtEnd(js, s.pos) {
      StepMore(js, more, s, limit);
      var r := Step(js, s, limit);
      if CutHere(js, more, s) {
        if r.Go? {
          CutShows(js, more, s, limit);
        }
      } else if r.Go? {
        MoreText(js, more, r.st, limit);
        CutComesLater(js, more, s, limit);
      }
    }
  }

  // ---------------------------------------------------------------- counting without tokens

  /** Counting is independent of the brackets matching; where a run succeeds, both give the same number. */
  lemma {:induction false} CountAgrees(js: text, s: State, limit: nat)
    ensures var o := Parse(js, s, limit);
            o.rv >= 0 ==> Count(js, s.pos, |s.toks|) == o.rv == |o.st.toks|
    decreases |js| - s.pos
  {
    if !AtEnd(js, s.pos) {
      var r := Step(js, s, limit);
      if r.Go? {
        CountAgrees(js, r.st, limit);
      }
    }
  }

  /** What is wrong with a string or a primitive is found without a token array just as well. */
  lemma {:induction false} CountRefuses(js: text, s: State, limit: nat)
    ensures var o := Parse(js, s, limit);
            o.rv in {ERROR_INVAL, ERROR_PART} && !AtEnd(js, o.st.pos) && !Closes(js[o.st.pos]) ==>
              Count(js, s.pos, |s.toks|) == o.rv
    decreases |js| - s.pos
  {
    hide LastOpen, LastOpenContainer, ScanString, ScanPrimitive, Bump;
    if !AtEnd(js, s.pos) {
      var r := Step(js, s, limit);
      if r.Go? {
        CountRefuses(js, r.st, limit);
      }
    }
  }

  /** A count made first is exactly the number of tokens that a run needs, if it can succeed at all. */
  lemma CountSuffices(js: text, limit: nat, n: nat)
    requires Parse(js, Initial(), limit).rv >= 0
    ensures Count(js, 0, 0) == Parse(js, Initial(), limit).rv
    ensures n >= Count(js, 0, 0) ==> Parse(js, Initial(), n) == Parse(js, Initial(), limit)
    ensures n < Count(js, 0, 0) ==> Parse(js, Initial(), n).rv == ERROR_NOMEM
  {
    CountAgrees(js, Initial(), limit);
    if n <= limit {
      Resumption(js, Initial(), n, limit);
      if Parse(js, Initial(), n).rv == ERROR_NOMEM {
        NeedsMore(js, Initial(), n, limit);
      }
    } else {
      Resumption(js, Initial(), limit, n);
      TokensWithinLimit(js, Initial(), limit);
    }
    TokensWithinLimit(js, Initial(), n);
  }

  lemma {:induction false} NeedsMore(js: text, s: State, k: nat, n: nat)
    requires Parse(js, s, k).rv == ERROR_NOMEM && Parse(js, s, n).rv >= 0 && k <= n
    ensures Parse(js, s, n).rv > k
    decreases |js| - s.pos
  {
    StepAndLimit(js, s, k, n);
    var r := Step(js, s, k);
    if r.Go? {
      NeedsMore(js, r.st, k, n);
    } else {
      var next := Step(js, s, n).st;
      assert |next.toks| == |s.toks| + 1;
      TokensOnlyGrow(js, next, n);
      CountAgrees(js, s, n);
    }
  }

  lemma {:induction false} TokensWithinLimit(js: text, s: State, limit: nat)
    requires |s.toks| <= limit
    ensures |Parse(js, s, limit).st.toks| <= limit
    ensures Parse(js, s, limit).rv == ERROR_NOMEM ==> |Parse(js, s, limit).st.toks| == limit
    decreases |js| - s.pos
  {
    if !AtEnd(js, s.pos) {
      var r := Step(js, s, limit);
      if r.Go? {
        TokensWithinLimit(js, r.st, limit);
      }
    }
  }

  lemma {:induction false} TokensOnlyGrow(js: text, s: State, limit: nat)
    ensures |Parse(js, s, limit).st.toks| >= |s.toks|
    decreases |js| - s.pos
  {
    if !AtEnd(js, s.pos) {
      var r := Step(js, s, limit);
      if r.Go? {
        TokensOnlyGrow(js, r.st, limit);
      }
    }
  }

  // ---------------------------------------------------------------- nesting

  /** A finished token covers what it should. */
  ghost predicate Covers(js: text, t: Token, pos: nat) {
    && 0 <= t.start <= t.end <= pos <= |js|
    && match t.kind
       case Undefined => false
       case Primitive => t.start < t.end
       case String => 0 < t.start && js[t.start - 1] == QUOTE && t.end < pos && js[t.end] == QUOTE
       case Object => t.start + 1 < t.end && js[t.start] == 123 && js[t.end - 1] == 125
       case Array => t.start + 1 < t.end && js[t.start] == 91 && js[t.end - 1] == 93
  }

  ghost predicate Started(js: text, t: Token, pos: nat) {
    IsContainer(t.kind) && 0 <= t.start < pos <= |js| && Opens(js[t.start]) && KindOf(js[t.start]) == t.kind
  }

  /** Disjoint from an earlier token that is finished, or inside it. */
  ghost predicate Apart(a: Token, b: Token) {
    a.start < b.start && (!IsOpen(a) ==> b.start >= a.end || (!IsOpen(b) && b.end <= a.end))
  }

  ghost predicate Sound(js: text, s: State) {
    && s.pos <= |js| && -1 <= s.super < |s.toks|
    && (forall i :: 0 <= i < |s.toks| ==>
          if IsOpen(s.toks[i]) then Started(js, s.toks[i], s.pos) else Covers(js, s.toks[i], s.pos))
    && (forall i, j :: 0 <= i < j < |s.toks| ==> Apart(s.toks[i], s.toks[j]))
  }

  lemma BumpKeepsSound(js: text, s: State)
    requires Sound(js, s)
    ensures Sound(js, s.(toks := Bump(s.toks, s.super)))
  {
  }

  /** A new last token, starting no earlier than what has been read. */
  lemma AppendKeepsSound(js: text, s: State, t: Token, pos: nat, super: int)
    requires Sound(js, s) && s.pos <= pos <= |js| && -1 <= super <= |s.toks|
    requires t.start >= s.pos && if IsOpen(t) then Started(js, t, pos) else Covers(js, t, pos)
    ensures Sound(js, State(pos, s.toks + [t], super))
  {
    var toks := s.toks + [t];
    forall i, j | 0 <= i < j < |toks|
      ensures Apart(toks[i], toks[j])
    {
      if j < |s.toks| {
        assert Apart(s.toks[i], s.toks[j]);
      }
    }
  }

  lemma CloseKeepsSound(js: text, s: State)
    requires Sound(js, s) && s.pos < |js| && Closes(js[s.pos])
    ensures var r := CloseContainer(js, s); r.Go? ==> Sound(js, r.st)
  {
    var i := LastOpen(s.toks, |s.toks|);
    var r := CloseContainer(js, s);
    if r.Go? {
      var toks := r.st.toks;
      forall a, b | 0 <= a < b < |toks|
        ensures Apart(toks[a], toks[b])
      {
        assert Apart(s.toks[a], s.toks[b]);
      }
    }
  }

  lemma LeafKeepsSound(js: text, s: State, t: Token, next: nat, limit: nat)
    requires Sound(js, s) && s.pos <= next <= |js| && t.start >= s.pos && !IsOpen(t) && Covers(js, t, next)
    ensures var r := AddLeaf(s, t, next, limit); r.Go? ==> Sound(js, r.st)
  {
    hide Sound, Covers;
    AppendKeepsSound(js, s, t, next, s.super) by { SuperInRange(js, s); }
    BumpKeepsSound(js, State(next, s.toks + [t], s.super));
  }

  lemma SuperInRange(js: text, s: State)
    requires Sound(js, s)
    ensures -1 <= s.super < |s.toks| && s.pos <= |js|
  {
  }

  lemma DelimiterKeepsSound(js: text, s: State, super: int)
    requires Sound(js, s) && s.pos < |js| && -1 <= super < |s.toks|
    ensures Sound(js, s.(pos := s.pos + 1, super := super))
  {
    assert forall i :: 0 <= i < |s.toks| && !IsOpen(s.toks[i]) ==> Covers(js, s.toks[i], s.pos + 1);
  }

  lemma StepKeepsSound(js: text, s: State, limit: nat)
    requires Sound(js, s) && !AtEnd(js, s.pos)
    ensures var r := Step(js, s, limit); r.Go? ==> Sound(js, r.st)
  {
    hide Sound;
    var c := js[s.pos];
    SuperInRange(js, s);
    if Opens(c) {
      BumpKeepsSound(js, s);
      AppendKeepsSound(js, s.(toks := Bump(s.toks, s.super)), Token(KindOf(c), s.pos, -1, 0), s.pos + 1, |s.toks|);
    } else if Closes(c) {
      CloseKeepsSound(js, s);
    } else if c == QUOTE {
      var r := ScanString(js, s.pos + 1);
      if r.Closed? {
        LeafKeepsSound(js, s, Token(String, s.pos + 1, r.quote, 0), r.quote + 1, limit);
      }
    } else if Delimits(c) {
      DelimiterKeepsSound(js, s, Step(js, s, limit).st.super);
    } else {
      var r := ScanPrimitive(js, s.pos);
      if r.Some? {
        LeafKeepsSound(js, s, Token(Primitive, s.pos, r.value, 0), r.value, limit);
      }
    }
  }

  lemma {:induction false} RunKeepsSound(js: text, s: State, limit: nat)
    requires Sound(js, s)
    ensures Sound(js, Parse(js, s, limit).st)
    decreases |js| - s.pos
  {
    hide Sound, Step;
    if !AtEnd(js, s.pos) {
      StepKeepsSound(js, s, limit);
      var r := Step(js, s, limit);
      if r.Go? {
        RunKeepsSound(js, r.st, limit);
      }
    }
  }

  /** What a successful parse promises about its tokens. */
  ghost predicate WellNested(js: text, toks: tokens) {
    && (forall i :: 0 <= i < |toks| ==> Covers(js, toks[i], |js|))
    && forall i, j :: 0 <= i < j < |toks| ==>
         && toks[i].start < toks[j].start
         && (toks[j].start >= toks[i].end || toks[j].end <= toks[i].end)
  }

  lemma TokensAreWellNested(js: text, limit: nat)
    ensures var o := Parse(js, Initial(), limit);
            o.rv >= 0 ==> WellNested(js, o.st.toks) && o.rv == |o.st.toks| <= limit
  {
    var o := Parse(js, Initial(), limit);
    RunKeepsSound(js, Initial(), limit);
    if o.rv >= 0 {
      CountAgrees(js, Initial(), limit);
      TokensWithinLimit(js, Initial(), limit);
      SuccessMeansClosed(js, Initial(), limit);
      assert forall i, j :: 0 <= i < j < |o.st.toks| ==> Apart(o.st.toks[i], o.st.toks[j]);
    }
  }

  lemma {:induction false} SuccessMeansClosed(js: text, s: State, limit: nat)
    requires Parse(js, s, limit).rv >= 0
    ensures forall i :: 0 <= i < |Parse(js, s, limit).st.toks| ==> !IsOpen(Parse(js, s, limit).st.toks[i])
    decreases |js| - s.pos
  {
    if !AtEnd(js, s.pos) {
      SuccessMeansClosed(js, Step(js, s, limit).st, limit);
    }
  }

  // ---------------------------------------------------------------- the stack that is not there

  /** Indices of the unclosed tokens, outermost first. */
  function Stack(toks: tokens): (r: seq<nat>)
    ensures forall k :: 0 <= k < |r| ==> r[k] < |toks| && IsOpen(toks[r[k]])
  {
    if toks == [] then []
    else
      var n := |toks| - 1;
      if IsOpen(toks[n]) then Stack(toks[..n]) + [n] else Stack(toks[..n])
  }

  function Top(s: seq<nat>): int {
    if s == [] then -1 else s[|s| - 1]
  }

  lemma {:induction false} ScanFindsTop(toks: tokens, n: nat)
    requires n <= |toks|
    ensures LastOpen(toks, n) == Top(Stack(toks[..n]))
  {
    if n > 0 {
      ScanFindsTop(toks, n - 1);
      assert toks[..n][..n - 1] == toks[..n - 1];
    }
  }

  lemma {:induction false} StackDependsOnOpen(a: tokens, b: tokens)
    requires |a| == |b| && forall i :: 0 <= i < |a| ==> IsOpen(a[i]) == IsOpen(b[i])
    ensures Stack(a) == Stack(b)
    decreases |a|
  {
    if a != [] {
      StackDependsOnOpen(a[..|a| - 1], b[..|b| - 1]);
    }
  }

  lemma {:induction false} CloseTop(toks: tokens, i: nat, t: Token)
    requires i < |toks| && i == LastOpen(toks, |toks|) && !IsOpen(t)
    ensures Stack(toks) == Stack(toks[i := t]) + [i]
    decreases |toks|
  {
    var n := |toks| - 1;
    var u := toks[i := t];
    if i == n {
      assert u[..n] == toks[..n];
    } else {
      assert toks[..n][i := t] == u[..n];
      PrefixScan(toks, n, n);
      CloseTop(toks[..n], i, t);
    }
  }

  lemma {:induction false} PrefixScan(toks: tokens, m: nat, n: nat)
    requires n <= m <= |toks|
    ensures LastOpen(toks[..m], n) == LastOpen(toks, n)
  {
    if n > 0 {
      PrefixScan(toks, m, n - 1);
    }
  }

  /**
   * Scanning backwards for an unclosed token is keeping a stack: an opening bracket pushes its token, a closing bracket
   * is accepted exactly when the top is of its kind and pops it, and nothing else touches the stack. After a closing
   * bracket the superior token is the new top.
   */
  lemma ScanIsStack(js: text, s: State, limit: nat)
    requires !AtEnd(js, s.pos)
    ensures var c, r, stack := js[s.pos], Step(js, s, limit), Stack(s.toks);
            if Opens(c) then r.Go? ==> Stack(r.st.toks) == stack + [|s.toks|] && r.st.super == Top(Stack(r.st.toks))
            else if Closes(c) then
              && (r.Go? <==> stack != [] && s.toks[Top(stack)].kind == KindOf(c))
              && (r.Go? ==> Stack(r.st.toks) == stack[..|stack| - 1] && r.st.super == Top(Stack(r.st.toks)))
            else r.Go? ==> Stack(r.st.toks) == stack
  {
    var c, r := js[s.pos], Step(js, s, limit);
    if r.Go? && !Closes(c) {
      var toks := r.st.toks;
      if Opens(c) || c == QUOTE || !Delimits(c) {
        StackDependsOnOpen(toks[..|toks| - 1], s.toks);
      }
    }
    if Closes(c) {
      ClosingPops(js, s);
    }
  }

  lemma ClosingPops(js: text, s: State)
    requires s.pos < |js|
    ensures var c, r, stack := js[s.pos], CloseContainer(js, s), Stack(s.toks);
            && (r.Go? <==> stack != [] && s.toks[Top(stack)].kind == KindOf(c))
            && (r.Go? ==> Stack(r.st.toks) == stack[..|stack| - 1] && r.st.super == Top(Stack(r.st.toks)))
  {
    assert s.toks[..|s.toks|] == s.toks;
    ScanFindsTop(s.toks, |s.toks|);
    var r := CloseContainer(js, s);
    if r.Go? {
      var toks, i := r.st.toks, LastOpen(s.toks, |s.toks|);
      CloseTop(s.toks, i, toks[i]);
      assert toks[..|toks|] == toks;
      ScanFindsTop(toks, |toks|);
      NothingAbove(toks, i, |toks|);
    }
  }

  lemma {:induction false} NothingAbove(toks: tokens, i: nat, n: nat)
    requires i <= n <= |toks| && forall j :: i <= j < n ==> !IsOpen(toks[j])
    ensures LastOpen(toks, n) == LastOpen(toks, i)
    decreases n
  {
    if n > i {
      NothingAbove(toks, i, n - 1);
    }
  }

  /** Only containers are ever unclosed, so that the comma's search is the same search. */
  lemma {:induction false} OpenMeansContainer(js: text, s: State, n: nat)
    requires Sound(js, s) && n <= |s.toks|
    ensures LastOpenContainer(s.toks, n) == LastOpen(s.toks, n)
  {
    if n > 0 {
      OpenMeansContainer(js, s, n - 1);
    }
  }
}
