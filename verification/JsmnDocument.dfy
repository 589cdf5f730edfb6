/** JSON texts and the tokens they should give, independently of how the tokenizer finds them. */
module JsmnDocument {
  import opened Bytes
  import opened Jsmn

  /** A value with the white space around it. */
  datatype Value = Value(before: text, core: Core, after: text)

  datatype Core =
    | Prim(word: text)
    | Str(body: text)
    | Arr(pad: text, items: Items)
    | Obj(pad: text, members: Members)

  datatype Items = NoItems | Item(head: Value, rest: Items)

  datatype Members = NoMembers | Member(before: text, key: text, after: text, value: Value, rest: Members)

  // ---------------------------------------------------------------- which texts are meant

  /** Tabs, line feeds, carriage returns and blanks. */
  predicate Spaces(s: text) {
    forall i :: 0 <= i < |s| ==> s[i] == 9 || s[i] == 10 || s[i] == 13 || s[i] == 32
  }

  /**
   * A number, a literal name, or anything else without structure: printable octets, none of them a blank or one of
   * `,` `:` `]` `}`, and the first none of `"` `[` `{`.
   */
  predicate Word(s: text) {
    && s != [] && s[0] != 34 && s[0] != 91 && s[0] != 123
    && forall i :: 0 <= i < |s| ==> 32 < s[i] < 127 && s[i] != 44 && s[i] != 58 && s[i] != 93 && s[i] != 125
  }

  /** `0` to `9`, `A` to `F`, `a` to `f`. */
  predicate HexDigit(c: byte) {
    48 <= c <= 57 || 65 <= c <= 70 || 97 <= c <= 102
  }

  /** What may follow a backslash alone: one of `"` `/` `\` `b` `f` `n` `r` `t`. */
  predicate Escaped(c: byte) {
    c == 34 || c == 47 || c == 92 || c == 98 || c == 102 || c == 110 || c == 114 || c == 116
  }

  /** The inside of a string: escapes are complete, and no quote stands alone. */
  predicate Body(s: text) {
    s == [] ||
    if s[0] == 92 then
      if |s| >= 2 && Escaped(s[1]) then Body(s[2..])
      else
        && |s| >= 6 && s[1] == 117 && HexDigit(s[2]) && HexDigit(s[3]) && HexDigit(s[4]) && HexDigit(s[5])
        && Body(s[6..])
    else s[0] != 34 && s[0] != 0 && Body(s[1..])
  }

  predicate ValidValue(v: Value) {
    Spaces(v.before) && Spaces(v.after) && ValidCore(v.core)
  }

  predicate ValidCore(c: Core) {
    match c
    case Prim(w) => Word(w)
    case Str(b) => Body(b)
    case Arr(pad, items) => Spaces(pad) && ValidItems(items)
    case Obj(pad, members) => Spaces(pad) && ValidMembers(members)
  }

  predicate ValidItems(items: Items) {
    match items
    case NoItems => true
    case Item(v, rest) => ValidValue(v) && ValidItems(rest)
  }

  predicate ValidMembers(ms: Members) {
    match ms
    case NoMembers => true
    case Member(before, k, after, v, rest) =>
      Spaces(before) && Body(k) && Spaces(after) && ValidValue(v) && ValidMembers(rest)
  }

  // ---------------------------------------------------------------- their octets

  function Print(v: Value): text {
    v.before + (PrintCore(v.core) + v.after)
  }

  function Quoted(s: text): (r: text)
    ensures |r| == |s| + 2
  {
    [34] + (s + [34])
  }

  function PrintCore(c: Core): (r: text)
    ensures |r| > 0 || c.Prim?
  {
    match c
    case Prim(w) => w
    case Str(b) => Quoted(b)
    case Arr(pad, items) => [91] + (pad + (PrintItems(items) + [93]))
    case Obj(pad, members) => [123] + (pad + (PrintMembers(members) + [125]))
  }

  function PrintItems(items: Items): text {
    match items
    case NoItems => []
    case Item(v, rest) => Print(v) + (if rest.NoItems? then [] else [44] + PrintItems(rest))
  }

  function PrintMembers(ms: Members): text {
    match ms
    case NoMembers => []
    case Member(before, k, after, v, rest) =>
      before + (Quoted(k) + (after + ([58] + (Print(v) +
        if rest.NoMembers? then [] else [44] + PrintMembers(rest)))))
  }

  // ---------------------------------------------------------------- their tokens

  function ItemCount(items: Items): nat {
    if items.NoItems? then 0 else 1 + ItemCount(items.rest)
  }

  function MemberCount(ms: Members): nat {
    if ms.NoMembers? then 0 else 1 + MemberCount(ms.rest)
  }

  /** The tokens of a value whose text starts at `at`: containers before what they contain, keys owning their values. */
  function TokensOf(v: Value, at: nat): tokens {
    CoreTokens(v.core, at + |v.before|)
  }

  function CoreTokens(c: Core, at: nat): (r: tokens)
    ensures |r| > 0
  {
    match c
    case Prim(w) => [Token(Primitive, at, at + |w|, 0)]
    case Str(b) => [Token(String, at + 1, at + 1 + |b|, 0)]
    case Arr(pad, items) =>
      [Token(Array, at, at + |PrintCore(c)|, ItemCount(items))] + ItemTokens(items, at + 1 + |pad|)
    case Obj(pad, ms) => [Token(Object, at, at + |PrintCore(c)|, MemberCount(ms))] + MemberTokens(ms, at + 1 + |pad|)
  }

  function ItemTokens(items: Items, at: nat): tokens {
    match items
    case NoItems => []
    case Item(v, rest) => TokensOf(v, at) + ItemTokens(rest, at + |Print(v)| + 1)
  }

  function MemberTokens(ms: Members, at: nat): tokens {
    match ms
    case NoMembers => []
    case Member(before, k, after, v, rest) =>
      var key := at + |before| + 1;
      var value := key + |k| + 1 + |after| + 1;
      [Token(String, key, key + |k|, 1)] + (TokensOf(v, value) + MemberTokens(rest, value + |Print(v)| + 1))
  }

  // ---------------------------------------------------------------- reading single pieces

  predicate At(js: text, p: nat, w: text) {
    p + |w| <= |js| && js[p..p + |w|] == w
  }

  lemma AtSplit(js: text, p: nat, a: text, b: text)
    requires At(js, p, a + b)
    ensures At(js, p, a) && At(js, p + |a|, b)
  {
    var w := a + b;
    assert js[p..p + |a|] == w[..|a|] == a;
    assert js[p + |a|..p + |a| + |b|] == w[|a|..] == b;
  }

  lemma AtFirst(js: text, p: nat, c: byte, rest: text)
    requires At(js, p, [c] + rest)
    ensures p < |js| && js[p] == c && At(js, p + 1, rest)
  {
    AtSplit(js, p, [c], rest);
    assert js[p..p + 1][0] == c;
  }

  lemma {:induction false} ScanBody(js: text, p: nat, b: text)
    requires Body(b) && At(js, p, b + [QUOTE])
    ensures ScanString(js, p) == Closed(p + |b|)
    decreases |b|
  {
    if b == [] {
      assert [] + [QUOTE] == [QUOTE] + [];
      AtFirst(js, p, QUOTE, []);
    } else {
      var n := PieceLength(b);
      ScanPiece(js, p, b);
      ScanBody(js, p + n, b[n..]);
    }
  }

  /** The length of the first octet or escape of a string. */
  function PieceLength(b: text): (n: nat)
    requires b != [] && Body(b)
    ensures 0 < n <= |b| && Body(b[n..])
  {
    if b[0] != BACKSLASH then 1 else if |b| >= 2 && SimpleEscape(b[1]) then 2 else 6
  }

  lemma ScanPiece(js: text, p: nat, b: text)
    requires b != [] && Body(b) && At(js, p, b + [QUOTE])
    ensures var n := PieceLength(b); At(js, p + n, b[n..] + [QUOTE]) && ScanString(js, p) == ScanString(js, p + n)
  {
    var n := PieceLength(b);
    assert b + [QUOTE] == b[..n] + (b[n..] + [QUOTE]);
    Octets(js, p, b[..n], b[n..] + [QUOTE]);
    hide At;
    if n == 6 {
      FourDigits(js, p);
    }
  }

  lemma Octets(js: text, p: nat, a: text, rest: text)
    requires At(js, p, a + rest)
    ensures p + |a| <= |js| && At(js, p + |a|, rest) && forall i :: 0 <= i < |a| ==> js[p + i] == a[i]
  {
    AtSplit(js, p, a, rest);
    forall i | 0 <= i < |a|
      ensures js[p + i] == a[i]
    {
      assert js[p..p + |a|][i] == a[i];
    }
  }

  lemma FourDigits(js: text, p: nat)
    requires p + 6 <= |js| && IsHex(js[p + 2]) && IsHex(js[p + 3]) && IsHex(js[p + 4]) && IsHex(js[p + 5])
    ensures ScanHex(js, p + 2, 4) == Some(p + 6)
  {
    assert ScanHex(js, p + 5, 1) == Some(p + 6);
    assert ScanHex(js, p + 4, 2) == Some(p + 6);
  }

  lemma {:induction false} ScanWord(js: text, p: nat, w: text)
    requires At(js, p, w) && (AtEnd(js, p + |w|) || Delimits(js[p + |w|]))
    requires forall i :: 0 <= i < |w| ==> 32 < w[i] < 127 && !Delimits(w[i])
    ensures ScanPrimitive(js, p) == Some(p + |w|)
    decreases |w|
  {
    if w != [] {
      assert w == [w[0]] + w[1..];
      AtFirst(js, p, w[0], w[1..]);
      ScanWord(js, p + 1, w[1..]);
    }
  }

  lemma {:induction false} SpacesRun(js: text, s: State, w: text, limit: nat)
    requires Spaces(w) && At(js, s.pos, w)
    ensures Parse(js, s, limit) == Parse(js, s.(pos := s.pos + |w|), limit)
    decreases |w|
  {
    if w != [] {
      assert w == [w[0]] + w[1..];
      AtFirst(js, s.pos, w[0], w[1..]);
      SpacesRun(js, s.(pos := s.pos + 1), w[1..], limit);
    }
  }

  // ---------------------------------------------------------------- unclosed tokens

  ghost predicate AllClosed(toks: tokens) {
    forall i :: 0 <= i < |toks| ==> !IsOpen(toks[i])
  }

  ghost predicate OnlyContainersOpen(toks: tokens) {
    forall i :: 0 <= i < |toks| && IsOpen(toks[i]) ==> IsContainer(toks[i].kind)
  }

  lemma {:induction false} ValueClosed(v: Value, at: nat)
    ensures AllClosed(TokensOf(v, at))
  {
    match v.core
    case Prim(_) =>
    case Str(_) =>
    case Arr(pad, items) => ItemsClosed(items, at + |v.before| + 1 + |pad|);
    case Obj(pad, ms) => MembersClosed(ms, at + |v.before| + 1 + |pad|);
  }

  lemma {:induction false} ItemsClosed(items: Items, at: nat)
    ensures AllClosed(ItemTokens(items, at))
  {
    if items.Item? {
      ValueClosed(items.head, at);
      ItemsClosed(items.rest, at + |Print(items.head)| + 1);
    }
  }

  lemma {:induction false} MembersClosed(ms: Members, at: nat)
    ensures AllClosed(MemberTokens(ms, at))
  {
    if ms.Member? {
      var value := at + |ms.before| + 1 + |ms.key| + 1 + |ms.after| + 1;
      ValueClosed(ms.value, value);
      MembersClosed(ms.rest, value + |Print(ms.value)| + 1);
    }
  }

  /** Finished tokens at the end and other sizes do not change what is innermost. */
  lemma {:induction false} InnermostSame(a: tokens, b: tokens, n: nat)
    requires n <= |a| && n <= |b| && forall i :: 0 <= i < n ==> IsOpen(a[i]) == IsOpen(b[i]) && a[i].kind == b[i].kind
    ensures LastOpen(a, n) == LastOpen(b, n)
  {
    if n > 0 {
      InnermostSame(a, b, n - 1);
    }
  }

  lemma InnermostOf(a: tokens, more: tokens, b: tokens)
    requires AllClosed(more) && |b| == |a|
    requires forall i :: 0 <= i < |a| ==> IsOpen(a[i]) == IsOpen(b[i]) && a[i].kind == b[i].kind
    ensures LastOpen(b + more, |b + more|) == LastOpen(a, |a|)
  {
    NothingAbove(b + more, |b|, |b + more|);
    InnermostSame(a, b + more, |a|);
  }

  lemma {:induction false} InnermostContainer(toks: tokens, n: nat)
    requires OnlyContainersOpen(toks) && n <= |toks|
    ensures LastOpenContainer(toks, n) == LastOpen(toks, n)
  {
    if n > 0 {
      InnermostContainer(toks, n - 1);
    }
  }

  // ---------------------------------------------------------------- reading values

  /** The state after a value: its superior token has one more child, and its tokens are at the end. */
  function AfterValue(s: State, v: Value): State {
    State(s.pos + |Print(v)|, Bump(s.toks, s.super) + TokensOf(v, s.pos),
          if v.core.Arr? || v.core.Obj? then LastOpen(s.toks, |s.toks|) else s.super)
  }

  ghost predicate Ready(s: State) {
    -1 <= s.super < |s.toks| && OnlyContainersOpen(s.toks)
  }

  /** Reading is inside the container `c`, the innermost one. */
  ghost predicate Inside(s: State, c: nat) {
    Ready(s) && s.super == c && LastOpen(s.toks, |s.toks|) == c && IsContainer(s.toks[c].kind)
  }

  function Grown(toks: tokens, c: nat, n: nat): (r: tokens)
    requires c < |toks|
    ensures |r| == |toks|
  {
    toks[c := toks[c].(size := toks[c].size + n)]
  }

  predicate Bounded(js: text, p: nat) {
    AtEnd(js, p) || Delimits(js[p])
  }

  lemma {:induction false} ValueRun(js: text, s: State, v: Value, limit: nat)
    requires ValidValue(v) && At(js, s.pos, Print(v)) && Bounded(js, s.pos + |Print(v)|)
    requires Ready(s) && |s.toks| + |TokensOf(v, s.pos)| <= limit
    ensures Parse(js, s, limit) == Parse(js, AfterValue(s, v), limit)
    decreases v, 1
  {
    hide Step, Parse, PrintCore, CoreTokens, LastOpen, Bump, Spaces, ValidCore, At, Bounded, OnlyContainersOpen;
    var core := PrintCore(v.core);
    AtSplit(js, s.pos, v.before, core + v.after);
    var s1 := s.(pos := s.pos + |v.before|);
    SpacesRun(js, s, v.before, limit);
    AtSplit(js, s1.pos, core, v.after);
    CoreBounded(js, s1.pos + |core|, v.after);
    CoreRun(js, s1, v.core, limit);
    var s2 := AfterCore(s1, v.core);
    SpacesRun(js, s2, v.after, limit);
  }

  lemma CoreBounded(js: text, p: nat, after: text)
    requires At(js, p, after) && Spaces(after) && Bounded(js, p + |after|)
    ensures Bounded(js, p)
  {
    if after != [] {
      assert js[p] == js[p..p + |after|][0] == after[0];
    }
  }

  function AfterCore(s: State, c: Core): State {
    State(s.pos + |PrintCore(c)|, Bump(s.toks, s.super) + CoreTokens(c, s.pos),
          if c.Arr? || c.Obj? then LastOpen(s.toks, |s.toks|) else s.super)
  }

  lemma {:induction false} CoreRun(js: text, s: State, c: Core, limit: nat)
    requires ValidCore(c) && At(js, s.pos, PrintCore(c)) && Bounded(js, s.pos + |PrintCore(c)|)
    requires Ready(s) && |s.toks| + |CoreTokens(c, s.pos)| <= limit
    ensures Parse(js, s, limit) == Parse(js, AfterCore(s, c), limit)
    decreases c, 1
  {
    match c
    case Prim(w) => WordRun(js, s, w, limit);
    case Str(b) => StringRun(js, s, b, limit);
    case Arr(pad, items) => ArrayRun(js, s, pad, items, limit);
    case Obj(pad, ms) => ObjectRun(js, s, pad, ms, limit);
  }

  lemma {:induction false} ArrayRun(js: text, s: State, pad: text, items: Items, limit: nat)
    requires Spaces(pad) && ValidItems(items) && At(js, s.pos, [91] + (pad + (PrintItems(items) + [93])))
    requires Ready(s) && |s.toks| + 1 + |ItemTokens(items, s.pos + 1 + |pad|)| <= limit
    ensures Parse(js, s, limit) == Parse(js, AfterCore(s, Arr(pad, items)), limit)
    decreases items, 2
  {
    hide Step, Parse, LastOpen, ValidItems, PrintItems, ItemTokens, Spaces, Ready, Bounded, At;
    var s1 := OpenedAt(js, s, 91, pad, PrintItems(items), 93, limit);
    ContentsOfArray(js, s1, items, |s.toks|, limit);
    ItemsClosed(items, s1.pos);
    CloseRun(js, s, 91, pad, PrintItems(items), ItemTokens(items, s1.pos), ItemCount(items), 93, |s.toks|, limit);
  }

  lemma {:induction false} ContentsOfArray(js: text, s: State, items: Items, c: nat, limit: nat)
    requires ValidItems(items) && At(js, s.pos, PrintItems(items)) && Bounded(js, s.pos + |PrintItems(items)|)
    requires Inside(s, c) && |s.toks| + |ItemTokens(items, s.pos)| <= limit
    ensures Parse(js, s, limit) ==
            Parse(js, State(s.pos + |PrintItems(items)|,
                            Grown(s.toks, c, ItemCount(items)) + ItemTokens(items, s.pos), c), limit)
    decreases items, 1
  {
    if items.NoItems? {
      assert Grown(s.toks, c, 0) + [] == s.toks;
    } else {
      hide *;
      ItemsRun(js, s, items, c, limit);
    }
  }

  lemma {:induction false} ObjectRun(js: text, s: State, pad: text, ms: Members, limit: nat)
    requires Spaces(pad) && ValidMembers(ms) && At(js, s.pos, [123] + (pad + (PrintMembers(ms) + [125])))
    requires Ready(s) && |s.toks| + 1 + |MemberTokens(ms, s.pos + 1 + |pad|)| <= limit
    ensures Parse(js, s, limit) == Parse(js, AfterCore(s, Obj(pad, ms)), limit)
    decreases ms, 2
  {
    hide Step, Parse, LastOpen, ValidMembers, PrintMembers, MemberTokens, Spaces, Ready, Bounded, At;
    var s1 := OpenedAt(js, s, 123, pad, PrintMembers(ms), 125, limit);
    var super := ContentsOfObject(js, s1, ms, |s.toks|, limit);
    MembersClosed(ms, s1.pos);
    CloseRun(js, s, 123, pad, PrintMembers(ms), MemberTokens(ms, s1.pos), MemberCount(ms), 125, super, limit);
  }

  lemma {:induction false} ContentsOfObject(js: text, s: State, ms: Members, c: nat, limit: nat) returns (super: int)
    requires ValidMembers(ms) && At(js, s.pos, PrintMembers(ms)) && Bounded(js, s.pos + |PrintMembers(ms)|)
    requires Inside(s, c) && |s.toks| + |MemberTokens(ms, s.pos)| <= limit
    ensures Parse(js, s, limit) ==
            Parse(js, State(s.pos + |PrintMembers(ms)|,
                            Grown(s.toks, c, MemberCount(ms)) + MemberTokens(ms, s.pos), super), limit)
    decreases ms, 1
  {
    if ms.NoMembers? {
      assert Grown(s.toks, c, 0) + [] == s.toks;
      super := s.super;
    } else {
      hide *;
      super := MembersRun(js, s, ms, c, limit);
    }
  }

  lemma WordRun(js: text, s: State, w: text, limit: nat)
    requires Word(w) && At(js, s.pos, w) && Bounded(js, s.pos + |w|) && -1 <= s.super < |s.toks| < limit
    ensures Parse(js, s, limit) == Parse(js, AfterCore(s, Prim(w)), limit)
  {
    hide ScanPrimitive;
    assert js[s.pos] == js[s.pos..s.pos + |w|][0] == w[0];
    ScanWord(js, s.pos, w);
    LeafBumps(s, Token(Primitive, s.pos, s.pos + |w|, 0));
    assert Step(js, s, limit) == ReadPrimitive(js, s, limit) == Go(AfterCore(s, Prim(w)));
  }

  lemma StringRun(js: text, s: State, b: text, limit: nat)
    requires Body(b) && At(js, s.pos, Quoted(b)) && -1 <= s.super < |s.toks| < limit
    ensures Parse(js, s, limit) == Parse(js, AfterCore(s, Str(b)), limit)
  {
    hide ScanString;
    AtFirst(js, s.pos, QUOTE, b + [QUOTE]);
    ScanBody(js, s.pos + 1, b);
    LeafBumps(s, Token(String, s.pos + 1, s.pos + 1 + |b|, 0));
  }

  lemma LeafBumps(s: State, t: Token)
    requires -1 <= s.super < |s.toks|
    ensures Bump(s.toks + [t], s.super) == Bump(s.toks, s.super) + [t]
  {
  }

  /** The state inside a container just opened by `open`. */
  function Opened(s: State, open: byte, pad: text): State {
    State(s.pos + 1 + |pad|, Bump(s.toks, s.super) + [Token(KindOf(open), s.pos, -1, 0)], |s.toks|)
  }

  lemma OpenedText(js: text, p: nat, open: byte, pad: text, inner: text, close: byte)
    requires At(js, p, [open] + (pad + (inner + [close]))) && Closes(close)
    ensures p < |js| && js[p] == open && At(js, p + 1, pad)
    ensures var q := p + 1 + |pad|;
            At(js, q, inner) && q + |inner| < |js| && js[q + |inner|] == close && Bounded(js, q + |inner|)
  {
    AtFirst(js, p, open, pad + (inner + [close]));
    AtSplit(js, p + 1, pad, inner + [close]);
    AtSplit(js, p + 1 + |pad|, inner, [close]);
    assert [close] + [] == [close];
    AtFirst(js, p + 1 + |pad| + |inner|, close, []);
  }

  lemma OpenedRun(js: text, s: State, open: byte, pad: text, limit: nat)
    requires Opens(open) && Spaces(pad) && s.pos < |js| && js[s.pos] == open && At(js, s.pos + 1, pad)
    requires |s.toks| < limit
    ensures Parse(js, s, limit) == Parse(js, Opened(s, open, pad), limit)
  {
    var s1 := Opened(s, open, pad).(pos := s.pos + 1);
    assert Step(js, s, limit) == Go(s1);
    SpacesRun(js, s1, pad, limit);
  }

  lemma OpenedAt(js: text, s: State, open: byte, pad: text, inner: text, close: byte, limit: nat) returns (s1: State)
    requires Opens(open) && Closes(close) && Spaces(pad) && At(js, s.pos, [open] + (pad + (inner + [close])))
    requires Ready(s) && |s.toks| < limit
    ensures s1 == Opened(s, open, pad) && Inside(s1, |s.toks|)
    ensures Parse(js, s, limit) == Parse(js, s1, limit)
    ensures At(js, s1.pos, inner) && s1.pos + |inner| < |js| && js[s1.pos + |inner|] == close
    ensures Bounded(js, s1.pos + |inner|)
    ensures LastOpen(s1.toks, |s.toks|) == LastOpen(s.toks, |s.toks|)
  {
    s1 := Opened(s, open, pad);
    OpenedText(js, s.pos, open, pad, inner, close);
    OpenedRun(js, s, open, pad, limit);
    hide At;
    InnermostSame(s.toks, s1.toks, |s.toks|);
  }

  /** The closing bracket of a container opened in state `s`, whose tokens are all there. */
  lemma CloseRun(js: text, s: State, open: byte, pad: text, inner: text, more: tokens, n: nat, close: byte,
                 super: int, limit: nat)
    requires Opens(open) && Closes(close) && KindOf(open) == KindOf(close) && Ready(s) && AllClosed(more)
    requires var p := Opened(s, open, pad).pos + |inner|; p < |js| && js[p] == close
    ensures var s1 := Opened(s, open, pad);
            var p := s1.pos + |inner|;
            Parse(js, State(p, Grown(s1.toks, |s.toks|, n) + more, super), limit) ==
            Parse(js, State(p + 1, Bump(s.toks, s.super) + ([Token(KindOf(open), s.pos, p + 1, n)] + more),
                            LastOpen(s.toks, |s.toks|)), limit)
  {
    var s1 := Opened(s, open, pad);
    var p := s1.pos + |inner|;
    ClosedState(js, s, open, pad, p, more, n, super);
    hide CloseContainer, LastOpen, Ready, AllClosed, Opened, Bump;
    assert Step(js, State(p, Grown(s1.toks, |s.toks|, n) + more, super), limit) ==
           CloseContainer(js, State(p, Grown(s1.toks, |s.toks|, n) + more, super));
  }

  lemma ClosedState(js: text, s: State, open: byte, pad: text, p: nat, more: tokens, n: nat, super: int)
    requires Opens(open) && p < |js| && Closes(js[p]) && KindOf(open) == KindOf(js[p]) && Ready(s) && AllClosed(more)
    ensures var s1 := Opened(s, open, pad);
            CloseContainer(js, State(p, Grown(s1.toks, |s.toks|, n) + more, super)) ==
            Go(State(p + 1, Bump(s.toks, s.super) + ([Token(KindOf(open), s.pos, p + 1, n)] + more),
                     LastOpen(s.toks, |s.toks|)))
  {
    var s1 := Opened(s, open, pad);
    var toks := Grown(s1.toks, |s.toks|, n) + more;
    InnermostOf(s1.toks, more, Grown(s1.toks, |s.toks|, n));
    assert IsOpen(s1.toks[|s.toks|]) && LastOpen(s1.toks, |s1.toks|) == |s.toks|;
    var after := toks[|s.toks| := toks[|s.toks|].(end := p + 1)];
    InnermostSame(s.toks, after, |s.toks|);
    assert after == Bump(s.toks, s.super) + ([Token(KindOf(open), s.pos, p + 1, n)] + more);
  }

  lemma {:induction false} ItemsRun(js: text, s: State, items: Items, c: nat, limit: nat)
    requires ValidItems(items) && items.Item?
    requires At(js, s.pos, PrintItems(items)) && Bounded(js, s.pos + |PrintItems(items)|)
    requires Inside(s, c) && |s.toks| + |ItemTokens(items, s.pos)| <= limit
    ensures Parse(js, s, limit) ==
            Parse(js, State(s.pos + |PrintItems(items)|,
                            Grown(s.toks, c, ItemCount(items)) + ItemTokens(items, s.pos), c), limit)
    decreases items, 0
  {
    hide Step, Parse, LastOpen, At, TokensOf, Print, ValidValue, Delimits, OnlyContainersOpen;
    var v, rest := items.head, items.rest;
    AtSplit(js, s.pos, Print(v), if rest.NoItems? then [] else [COMMA] + PrintItems(rest));
    var s1 := AfterValue(s, v);
    ValueInside(s, v, c);
    if rest.NoItems? {
      ValueRun(js, s, v, limit);
      GrownTwice(s.toks, c, TokensOf(v, s.pos), 0, []);
      assert s1.toks == Grown(s.toks, c, 1) + ItemTokens(items, s.pos);
    } else {
      AtFirst(js, s1.pos, COMMA, PrintItems(rest));
      assert Bounded(js, s1.pos) by { CommaBounds(js, s1.pos); }
      ValueRun(js, s, v, limit);
      CommaRun(js, s1, c, limit);
      var s2 := s1.(pos := s1.pos + 1, super := c);
      ItemsRun(js, s2, rest, c, limit);
      GrownTwice(s.toks, c, TokensOf(v, s.pos), ItemCount(rest), ItemTokens(rest, s2.pos));
    }
  }

  lemma CommaBounds(js: text, p: nat)
    requires p < |js| && js[p] == COMMA
    ensures Bounded(js, p)
  {
  }

  lemma GrownTwice(toks: tokens, c: nat, a: tokens, n: nat, b: tokens)
    requires c < |toks|
    ensures Bump(toks, c) == Grown(toks, c, 1)
    ensures Grown(Grown(toks, c, 1) + a, c, n) + b == Grown(toks, c, 1 + n) + (a + b)
  {
  }

  /** A value inside a container leaves it the innermost one. */
  lemma ValueInside(s: State, v: Value, c: nat)
    requires Ready(s) && LastOpen(s.toks, |s.toks|) == c && IsContainer(s.toks[c].kind)
    ensures var s1 := AfterValue(s, v);
            && Ready(s1) && LastOpen(s1.toks, |s1.toks|) == c && IsContainer(s1.toks[c].kind)
            && (s1.super == c || s1.super == s.super)
            && (s.super >= 0 ==> s1.toks[s.super].kind == s.toks[s.super].kind)
  {
    hide TokensOf, Print;
    ValueClosed(v, s.pos);
    InnermostOf(s.toks, TokensOf(v, s.pos), Bump(s.toks, s.super));
  }

  /** After a comma the innermost container is superior again. */
  lemma CommaRun(js: text, s: State, c: nat, limit: nat)
    requires s.pos < |js| && js[s.pos] == COMMA && Ready(s) && LastOpen(s.toks, |s.toks|) == c
    requires s.super == c || (s.super >= 0 && !IsContainer(s.toks[s.super].kind))
    ensures Parse(js, s, limit) == Parse(js, s.(pos := s.pos + 1, super := c), limit)
  {
    InnermostContainer(s.toks, |s.toks|);
  }

  lemma {:induction false} MembersRun(js: text, s: State, ms: Members, c: nat, limit: nat) returns (super: int)
    requires ValidMembers(ms) && ms.Member?
    requires At(js, s.pos, PrintMembers(ms)) && Bounded(js, s.pos + |PrintMembers(ms)|)
    requires Inside(s, c) && |s.toks| + |MemberTokens(ms, s.pos)| <= limit
    ensures Parse(js, s, limit) ==
            Parse(js, State(s.pos + |PrintMembers(ms)|,
                            Grown(s.toks, c, MemberCount(ms)) + MemberTokens(ms, s.pos), super), limit)
    decreases ms, 0
  {
    hide Step, Parse, LastOpen, At, TokensOf, Print, ValidValue, Delimits, OnlyContainersOpen, Body, Spaces, Bump;
    var rest := ms.rest;
    MemberRun(js, s, ms, c, limit);
    MemberInside(s, ms, c);
    var s2 := MemberState(s, ms, c);
    hide MemberState;
    MembersSplit(ms, s.pos);
    if rest.NoMembers? {
      super := s2.super;
      NoMoreTokens(OneMember(ms, s.pos));
    } else {
      CommaRun(js, s2, c, limit);
      var s3 := s2.(pos := s2.pos + 1, super := c);
      super := MembersRun(js, s3, rest, c, limit);
      GrownTwice(s.toks, c, OneMember(ms, s.pos), MemberCount(rest), MemberTokens(rest, s3.pos));
    }
  }

  lemma NoMoreTokens(a: tokens)
    ensures a + [] == a
  {
  }

  function OneMember(ms: Members, at: nat): tokens
    requires ms.Member?
  {
    var key := at + |ms.before| + 1;
    [Token(String, key, key + |ms.key|, 1)] + TokensOf(ms.value, key + |ms.key| + 1 + |ms.after| + 1)
  }

  lemma MembersSplit(ms: Members, at: nat)
    requires ms.Member?
    ensures MemberTokens(ms, at) ==
            OneMember(ms, at) +
            MemberTokens(ms.rest, at + |ms.before| + 1 + |ms.key| + 1 + |ms.after| + 1 + |Print(ms.value)| + 1)
  {
  }

  /** A value followed by a comma and more. */
  lemma {:induction false} ValueThenComma(js: text, s: State, v: Value, more: text, limit: nat)
    requires ValidValue(v) && At(js, s.pos, Print(v) + ([COMMA] + more))
    requires Ready(s) && |s.toks| + |TokensOf(v, s.pos)| <= limit
    ensures Parse(js, s, limit) == Parse(js, AfterValue(s, v), limit)
    ensures var p := s.pos + |Print(v)|; p < |js| && js[p] == COMMA && At(js, p + 1, more)
    decreases v, 2
  {
    hide Step, Parse, At, TokensOf, Print, ValidValue, AfterValue, Ready;
    AtSplit(js, s.pos, Print(v), [COMMA] + more);
    AtFirst(js, s.pos + |Print(v)|, COMMA, more);
    ValueRun(js, s, v, limit);
  }

  function Tail(ms: Members): text
    requires ms.Member?
  {
    if ms.rest.NoMembers? then [] else [COMMA] + PrintMembers(ms.rest)
  }

  lemma MemberText(ms: Members, at: nat)
    requires ms.Member? && ValidMembers(ms)
    ensures PrintMembers(ms) == ms.before + (Quoted(ms.key) + (ms.after + ([COLON] + (Print(ms.value) + Tail(ms)))))
    ensures |PrintMembers(ms)| == |ms.before| + |ms.key| + |ms.after| + |Print(ms.value)| + |Tail(ms)| + 3
    ensures Spaces(ms.before) && Body(ms.key) && Spaces(ms.after) && ValidValue(ms.value)
    ensures |OneMember(ms, at)| == 1 + |TokensOf(ms.value, at + |ms.before| + 1 + |ms.key| + 1 + |ms.after| + 1)|
  {
  }

  /** The state after a key and its value. */
  function MemberState(s: State, ms: Members, c: nat): State
    requires ms.Member? && c < |s.toks|
  {
    AfterValue(KeyState(s, ms, c), ms.value)
  }

  lemma MemberInside(s: State, ms: Members, c: nat)
    requires ms.Member? && Inside(s, c)
    ensures var s2 := MemberState(s, ms, c);
            && s2.pos == s.pos + |ms.before| + 1 + |ms.key| + 1 + |ms.after| + 1 + |Print(ms.value)|
            && s2.toks == Grown(s.toks, c, 1) + OneMember(ms, s.pos)
            && Ready(s2) && LastOpen(s2.toks, |s2.toks|) == c && IsContainer(s2.toks[c].kind)
            && (s2.super == c || (s2.super >= 0 && !IsContainer(s2.toks[s2.super].kind)))
  {
    hide LastOpen, TokensOf, Print, OnlyContainersOpen;
    var s1 := KeyState(s, ms, c);
    KeyInside(s, ms, c);
    ValueInside(s1, ms.value, c);
    var at := s.pos + |ms.before| + 1;
    KeyGrows(s.toks, c, Token(String, at, at + |ms.key|, 1), TokensOf(ms.value, s1.pos));
  }

  /** One key with its value; if more follow, up to the comma. */
  lemma {:induction false} MemberRun(js: text, s: State, ms: Members, c: nat, limit: nat)
    requires ValidMembers(ms) && ms.Member?
    requires At(js, s.pos, PrintMembers(ms)) && Bounded(js, s.pos + |PrintMembers(ms)|)
    requires Inside(s, c) && |s.toks| + |OneMember(ms, s.pos)| <= limit
    ensures Parse(js, s, limit) == Parse(js, MemberState(s, ms, c), limit)
    ensures var p := MemberState(s, ms, c).pos;
            ms.rest.Member? ==> p < |js| && js[p] == COMMA && At(js, p + 1, PrintMembers(ms.rest))
    decreases ms.value, 4
  {
    hide *;
    MemberFits(js, s, ms, c, limit);
    KeyRun(js, s, ms, c, Tail(ms), limit);
    MemberValueRun(js, KeyState(s, ms, c), ms, limit);
    MemberEnd(s, ms, c);
  }

  /** What the two halves of a member take for granted. */
  lemma MemberFits(js: text, s: State, ms: Members, c: nat, limit: nat)
    requires ValidMembers(ms) && ms.Member?
    requires At(js, s.pos, PrintMembers(ms)) && Bounded(js, s.pos + |PrintMembers(ms)|)
    requires Inside(s, c) && |s.toks| + |OneMember(ms, s.pos)| <= limit
    ensures Spaces(ms.before) && Body(ms.key) && Spaces(ms.after) && ValidValue(ms.value)
    ensures At(js, s.pos, ms.before + (Quoted(ms.key) + (ms.after + ([COLON] + (Print(ms.value) + Tail(ms))))))
    ensures c < |s.toks| < limit
    ensures var s1 := KeyState(s, ms, c);
            && Ready(s1) && |s1.toks| + |TokensOf(ms.value, s1.pos)| <= limit
            && (Tail(ms) == [] ==> Bounded(js, s1.pos + |Print(ms.value)|))
  {
    hide At, Bounded, Spaces, Body, ValidValue, Ready, Print, Quoted, TokensOf, LastOpen;
    MemberText(ms, s.pos);
    KeyInside(s, ms, c);
    var s1 := KeyState(s, ms, c);
    assert s1.pos + |Print(ms.value)| + |Tail(ms)| == s.pos + |PrintMembers(ms)|;
    assert |s1.toks| == |s.toks| + 1;
  }

  lemma MemberEnd(s: State, ms: Members, c: nat)
    requires ms.Member? && c < |s.toks|
    ensures var s1 := KeyState(s, ms, c);
            MemberState(s, ms, c) == AfterValue(s1, ms.value) && MemberState(s, ms, c).pos == s1.pos + |Print(ms.value)|
  {
  }

  lemma {:induction false} MemberValueRun(js: text, s: State, ms: Members, limit: nat)
    requires ms.Member? && ValidValue(ms.value) && At(js, s.pos, Print(ms.value) + Tail(ms))
    requires Tail(ms) == [] ==> Bounded(js, s.pos + |Print(ms.value)|)
    requires Ready(s) && |s.toks| + |TokensOf(ms.value, s.pos)| <= limit
    ensures Parse(js, s, limit) == Parse(js, AfterValue(s, ms.value), limit)
    ensures var p := s.pos + |Print(ms.value)|;
            ms.rest.Member? ==> p < |js| && js[p] == COMMA && At(js, p + 1, PrintMembers(ms.rest))
    decreases ms.value, 3
  {
    hide Step, Parse, At, TokensOf, Print, ValidValue, AfterValue, Ready, Bounded, PrintMembers;
    if ms.rest.Member? {
      ValueThenComma(js, s, ms.value, PrintMembers(ms.rest), limit);
    } else {
      assert Print(ms.value) + Tail(ms) == Print(ms.value);
      ValueRun(js, s, ms.value, limit);
    }
  }

  /** A value after a key counts as the key's child. */
  lemma KeyGrows(toks: tokens, c: nat, key: Token, value: tokens)
    requires c < |toks| && key.size == 1
    ensures Bump(Grown(toks, c, 1) + [key.(size := 0)], |toks|) + value == Grown(toks, c, 1) + ([key] + value)
  {
  }

  /** The state after a key and its colon: the key is the superior token of what follows. */
  function KeyState(s: State, ms: Members, c: nat): State
    requires ms.Member? && c < |s.toks|
  {
    var key := s.pos + |ms.before| + 1;
    State(key + |ms.key| + 1 + |ms.after| + 1, Grown(s.toks, c, 1) + [Token(String, key, key + |ms.key|, 0)], |s.toks|)
  }

  lemma KeyRun(js: text, s: State, ms: Members, c: nat, tail: text, limit: nat)
    requires ms.Member? && Spaces(ms.before) && Body(ms.key) && Spaces(ms.after)
    requires At(js, s.pos, ms.before + (Quoted(ms.key) + (ms.after + ([COLON] + (Print(ms.value) + tail)))))
    requires Inside(s, c) && |s.toks| < limit
    ensures At(js, KeyState(s, ms, c).pos, Print(ms.value) + tail)
    ensures Parse(js, s, limit) == Parse(js, KeyState(s, ms, c), limit)
  {
    hide Step, Parse, LastOpen, At, Print, Body, Spaces, OnlyContainersOpen, Quoted;
    AtSplit(js, s.pos, ms.before, Quoted(ms.key) + (ms.after + ([COLON] + (Print(ms.value) + tail))));
    SpacesRun(js, s, ms.before, limit);
    var a := s.(pos := s.pos + |ms.before|);
    AtSplit(js, a.pos, Quoted(ms.key), ms.after + ([COLON] + (Print(ms.value) + tail)));
    StringRun(js, a, ms.key, limit);
    var key := Token(String, a.pos + 1, a.pos + 1 + |ms.key|, 0);
    var b := State(a.pos + |ms.key| + 2, Grown(s.toks, c, 1) + [key], c);
    GrownTwice(s.toks, c, [], 0, []);
    assert AfterCore(a, Str(ms.key)) == b;
    AtSplit(js, b.pos, ms.after, [COLON] + (Print(ms.value) + tail));
    SpacesRun(js, b, ms.after, limit);
    var d := b.(pos := b.pos + |ms.after|);
    AtFirst(js, d.pos, COLON, Print(ms.value) + tail);
    assert KeyState(s, ms, c) == d.(pos := d.pos + 1, super := |d.toks| - 1);
    ColonRun(js, d, limit);
  }

  lemma KeyInside(s: State, ms: Members, c: nat)
    requires Inside(s, c) && ms.Member?
    ensures var s1 := KeyState(s, ms, c);
            Ready(s1) && LastOpen(s1.toks, |s1.toks|) == c && IsContainer(s1.toks[c].kind)
  {
    InnermostOf(s.toks, KeyState(s, ms, c).toks[|s.toks|..], Grown(s.toks, c, 1));
  }

  lemma ColonRun(js: text, s: State, limit: nat)
    requires s.pos < |js| && js[s.pos] == COLON
    ensures Parse(js, s, limit) == Parse(js, s.(pos := s.pos + 1, super := |s.toks| - 1), limit)
  {
  }

  // ---------------------------------------------------------------- what is refused

  /** A string ends exactly at the first quote behind a well-formed body. */
  lemma StringExactly(js: text, p: nat, q: nat)
    requires p <= |js|
    ensures ScanString(js, p) == Closed(q) <==> p <= q < |js| && js[q] == 34 && Body(js[p..q])
  {
    if p <= q < |js| && js[q] == 34 && Body(js[p..q]) {
      assert js[p..q + 1] == js[p..q] + [QUOTE];
      ScanBody(js, p, js[p..q]);
    }
    if ScanString(js, p) == Closed(q) {
      ClosedBody(js, p, q);
    }
  }

  lemma {:induction false} ClosedBody(js: text, p: nat, q: nat)
    requires p <= |js| && ScanString(js, p) == Closed(q)
    ensures p <= q < |js| && js[q] == 34 && Body(js[p..q])
    decreases |js| - p
  {
    if p < q {
      var n := PieceOf(js, p, q);
      ClosedBody(js, p + n, q);
      BodyPiece(js, p, q, n);
    }
  }

  /** The first octet, or the escape that begins there. */
  lemma PieceOf(js: text, p: nat, q: nat) returns (n: nat)
    requires p < q && ScanString(js, p) == Closed(q)
    ensures p + n <= |js| && ScanString(js, p + n) == Closed(q) && p + n <= q && IsPiece(js[p..p + n])
  {
    n := if js[p] != 92 then 1 else if js[p + 1] == 117 then 6 else 2;
    if n == 6 {
      FourHex(js, p + 2, 4);
    }
    var s := js[p..p + n];
    assert s[0] == js[p];
  }

  predicate IsPiece(s: text) {
    || (|s| == 1 && s[0] != 92 && s[0] != 34 && s[0] != 0)
    || (|s| == 2 && s[0] == 92 && Escaped(s[1]))
    || (|s| == 6 && s[0] == 92 && s[1] == 117
        && HexDigit(s[2]) && HexDigit(s[3]) && HexDigit(s[4]) && HexDigit(s[5]))
  }

  lemma BodyPiece(js: text, p: nat, q: nat, n: nat)
    requires p + n <= q <= |js| && IsPiece(js[p..p + n]) && Body(js[p + n..q])
    ensures Body(js[p..q])
  {
    var s, t := js[p..p + n], js[p..q];
    assert t[n..] == js[p + n..q];
    assert forall i :: 0 <= i < n ==> s[i] == t[i];
  }

  /** Fewer than the hexadecimal digits asked for are passed over only at the end of the text. */
  lemma {:induction false} FourHex(js: text, p: nat, n: nat)
    ensures var r := ScanHex(js, p, n);
            r.Some? && !AtEnd(js, r.value) ==>
              r.value == p + n && forall i :: p <= i < p + n ==> i < |js| && HexDigit(js[i])
    decreases n
  {
    if n > 0 && !AtEnd(js, p) && IsHex(js[p]) {
      FourHex(js, p + 1, n - 1);
    }
  }

  /** A string is taken to be incomplete only if more text could complete it. */
  lemma {:induction false} CanBeClosed(js: text, p: nat) returns (more: text)
    requires p <= |js| && 0 !in js[p..] && ScanString(js, p).Partial?
    ensures ScanString(js + more, p).Closed?
    decreases |js| - p
  {
    if p == |js| {
      more := [34];
    } else if js[p] != 92 {
      assert js[p..][1..] == js[p + 1..];
      more := CanBeClosed(js, p + 1);
    } else if p + 1 == |js| {
      more := [34, 34];
    } else if js[p + 1] != 117 {
      assert js[p..][2..] == js[p + 2..];
      more := CanBeClosed(js, p + 2);
    } else {
      more := HexCanBeClosed(js, p);
    }
  }

  lemma {:induction false} HexCanBeClosed(js: text, p: nat) returns (more: text)
    requires p + 1 < |js| && js[p] == 92 && js[p + 1] == 117 && 0 !in js[p..] && ScanString(js, p).Partial?
    ensures ScanString(js + more, p).Closed?
    decreases |js| - p, 0
  {
    if p + 6 <= |js| {
      FourHexRead(js, p + 2, 4);
      assert js[p..][6..] == js[p + 6..];
      more := CanBeClosed(js, p + 6);
      HexKept(js, more, p + 2, 4);
    } else {
      more := seq(p + 6 - |js|, _ => 48) + [34];
      HexFilled(js, more, p + 2, 4);
      assert (js + more)[p + 6] == 34;
    }
  }

  /** With enough text the digits are all there. */
  lemma {:induction false} FourHexRead(js: text, p: nat, n: nat)
    requires p + n <= |js| && 0 !in js[p..] && ScanHex(js, p, n).Some?
    ensures ScanHex(js, p, n) == Some(p + n)
    decreases n
  {
    if n > 0 {
      assert js[p..][0] == js[p] && js[p..][1..] == js[p + 1..];
      FourHexRead(js, p + 1, n - 1);
    }
  }

  lemma {:induction false} HexKept(js: text, more: text, p: nat, n: nat)
    requires p + n <= |js| && ScanHex(js, p, n) == Some(p + n)
    ensures ScanHex(js + more, p, n) == Some(p + n)
    decreases n
  {
    if n > 0 {
      assert !AtEnd(js, p);
      HexKept(js, more, p + 1, n - 1);
    }
  }

  lemma {:induction false} HexFilled(js: text, more: text, p: nat, n: nat)
    requires p <= |js| < p + n && 0 !in js[p..] && ScanHex(js, p, n).Some?
    requires |more| >= p + n - |js| && forall i :: 0 <= i < p + n - |js| ==> more[i] == 48
    ensures ScanHex(js + more, p, n) == Some(p + n)
    decreases n
  {
    if p < |js| {
      assert js[p..][0] == js[p] && js[p..][1..] == js[p + 1..];
      HexFilled(js, more, p + 1, n - 1);
    } else {
      ZerosAreHex(js + more, p, n);
    }
  }

  lemma {:induction false} ZerosAreHex(js: text, p: nat, n: nat)
    requires p + n <= |js| && forall i :: p <= i < p + n ==> js[i] == 48
    ensures ScanHex(js, p, n) == Some(p + n)
    decreases n
  {
    if n > 0 {
      ZerosAreHex(js, p + 1, n - 1);
    }
  }

  /** A string is refused exactly if no text behind it could close it, and it is not closed already. */
  lemma StringRefused(js: text, p: nat)
    requires p <= |js| && 0 !in js[p..]
    ensures ScanString(js, p).Invalid? <==> forall more :: !ScanString(js + more, p).Closed?
  {
    if ScanString(js, p).Invalid? {
      forall more ensures !ScanString(js + more, p).Closed? {
        ScanStringMore(js, more, p);
      }
    } else if ScanString(js, p).Partial? {
      var more := CanBeClosed(js, p);
    } else {
      assert js + [] == js;
    }
  }

  /** An octet that may stand in a primitive. */
  predicate Plain(c: byte) {
    32 < c < 127 && c != 44 && c != 58 && c != 93 && c != 125
  }

  /**
   * A primitive ends before the first octet that may not stand in it, if that is white space, one of `,` `:` `]` `}` or
   * the end of the text; otherwise it is refused.
   */
  lemma {:induction false} PrimitiveExactly(js: text, p: nat, q: nat)
    requires p <= q <= |js| && (forall i :: p <= i < q ==> Plain(js[i])) && (q < |js| ==> !Plain(js[q]))
    ensures ScanPrimitive(js, p) == if q == |js| || js[q] in {0, 9, 10, 13, 32, 44, 58, 93, 125} then Some(q) else None
    decreases q - p
  {
    if p < q {
      PrimitiveExactly(js, p + 1, q);
    }
  }

  /**
   * Tokenizing any JSON text, whatever its white space, gives exactly the tokens of the document it spells: their
   * kinds, extents, order and numbers of children.
   */
  lemma DocumentTokens(v: Value, limit: nat)
    requires ValidValue(v) && |TokensOf(v, 0)| <= limit
    ensures var o := Parse(Print(v), Initial(), limit);
            o.rv == |TokensOf(v, 0)| && o.st.toks == TokensOf(v, 0) && o.st.pos == |Print(v)|
  {
    var js := Print(v);
    assert js[0..|js|] == js;
    ValueRun(js, Initial(), v, limit);
    ValueClosed(v, 0);
    NothingAbove(TokensOf(v, 0), 0, |TokensOf(v, 0)|);
    assert Bump([], -1) + TokensOf(v, 0) == TokensOf(v, 0);
  }
}
