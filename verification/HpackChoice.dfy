/** What the deflater chooses for a field, said without its own search and decision functions. */
module HpackChoice {
  import opened Bytes
  import opened HpackInteger
  import opened HpackTable
  import opened HpackFormat
  import opened HpackReader
  import opened HpackReference
  import HpackLockStep
  import HuffmanCode

  // ---------------------------------------------------------------- the search

  /** Place `k` is where the static table has the name first. */
  ghost predicate FirstNamed(P: Params, name: seq<byte>, k: nat)
    requires |P.statics| == 61
  {
    k < 61 && P.statics[k].field.name == name && forall j :: 0 <= j < k ==> P.statics[j].field.name != name
  }

  /** The static entries from `k`, the first of the name, to `i` all have the field's name. */
  ghost predicate NameRun(P: Params, name: seq<byte>, k: nat, i: nat)
    requires |P.statics| == 61
  {
    FirstNamed(P, name, k) && k <= i < 61 && forall j :: k <= j <= i ==> P.statics[j].field.name == name
  }

  /** Place `i` is the first in the run of the field's name that has its value. */
  ghost predicate FirstEqual(P: Params, f: Field, k: nat, i: nat)
    requires |P.statics| == 61
  {
    NameRun(P, f.name, k, i) && P.statics[i].field.value == f.value
    && forall j :: k <= j < i ==> P.statics[j].field.value != f.value
  }

  lemma {:induction false} FirstNameIsFirst(s: seq<StaticEntry>, name: seq<byte>, i: nat)
    requires i <= |s|
    ensures var r := FirstName(s, name, i);
            forall j :: i <= j < (if r == -1 then |s| else r) ==> s[j].field.name != name
    decreases |s| - i
  {
    if i < |s| && s[i].field.name != name {
      FirstNameIsFirst(s, name, i + 1);
    }
  }

  /** A token below 61 is the name's first place in the static table; any other means that it has none. */
  lemma TokenLaw(P: Params, name: seq<byte>)
    requires |P.statics| == 61
    ensures forall k: nat :: FirstNamed(P, name, k) <==> LookupToken(P, name) == k < 61
    ensures (forall j :: 0 <= j < 61 ==> P.statics[j].field.name != name) <==> !(0 <= LookupToken(P, name) < 61)
  {
    FirstNameIsFirst(P.statics, name, 0);
  }

  /** An exact match is the newest equal dynamic entry or, without one, the first equal static entry of the name. */
  ghost predicate ExactRight(P: Params, t: fields, f: Field, index: int)
    requires |P.statics| == 61
  {
    if index >= 61 then
      index < 61 + |t| && t[index - 61] == f && forall j :: 0 <= j < index - 61 ==> t[j] != f
    else
      index >= 0 && f !in t && exists k: nat :: FirstEqual(P, f, k, index)
  }

  /** A match of the name is its first static entry or, without one, the newest dynamic entry of that name. */
  ghost predicate NameRight(P: Params, t: fields, name: seq<byte>, index: int)
    requires |P.statics| == 61
  {
    if 0 <= index < 61 then FirstNamed(P, name, index)
    else
      && (forall j :: 0 <= j < 61 ==> P.statics[j].field.name != name)
      && -1 <= index < 61 + |t| && (index >= 0 ==> t[index - 61].name == name)
      && forall j :: 0 <= j < (if index == -1 then |t| else index - 61) ==> t[j].name != name
  }

  /**
   * The search of both tables: whole fields are found whenever there are any, unless the field is never to be indexed;
   * then names; and nothing only if there is no such name.
   */
  lemma SearchLaw(P: Params, t: fields, f: Field, mode: Mode)
    requires |P.statics| == 61
    ensures var r := Search(P, t, f, mode);
            && (r.exact ==> !mode.NeverIndexing? && ExactRight(P, t, f, r.index))
            && (!r.exact ==> NameRight(P, t, f.name, r.index))
            && (!mode.NeverIndexing? && f in t ==> r.exact)
            && (!mode.NeverIndexing? ==> forall k, i :: FirstEqual(P, f, k, i) ==> r.exact)
  {
    TokenLaw(P, f.name);
    FindExactIsNewest(t, f);
    FindNameIsNewest(t, f.name);
    hide FindExact, FindName, LookupToken, StaticScan;
    var token := LookupToken(P, f.name);
    if 0 <= token < 61 {
      ScanLaw(P, token, f);
    }
  }

  lemma ScanLaw(P: Params, token: nat, f: Field)
    requires |P.statics| == 61 && token < 61 && LookupToken(P, f.name) == token && FirstNamed(P, f.name, token)
    ensures var r := StaticScan(P, token, token, f.value);
            && (r >= 0 ==> FirstEqual(P, f, token, r))
            && (forall k, i :: FirstEqual(P, f, k, i) ==> r >= 0)
  {
    StaticScanIsFirst(P, token, token, f.value);
    var r := StaticScan(P, token, token, f.value);
    forall j | 0 <= j < 61
      ensures LookupToken(P, P.statics[j].field.name) == token <==> P.statics[j].field.name == f.name
    {
      if LookupToken(P, P.statics[j].field.name) == token {
        TokenNamesOneName(P, P.statics[j].field.name, f.name);
      }
    }
    hide StaticScan, LookupToken;
    forall k: nat, i: nat | FirstEqual(P, f, k, i)
      ensures r >= 0
    {
      assert k == token;
      assert InRun(P, token, i, token);
    }
  }

  /** There is an entry that is the whole field, in the dynamic table or in the run of its name in the static one. */
  ghost predicate HasExact(P: Params, t: fields, f: Field)
    requires |P.statics| == 61
  {
    f in t || exists k: nat, i: nat :: FirstEqual(P, f, k, i)
  }

  // ---------------------------------------------------------------- the decision

  /** By the caller's wish, or an authorization (place 22), or a short cookie (place 31). */
  ghost predicate Sensitive(P: Params, nv: Nv)
    requires |P.statics| == 61
  {
    nv.noIndex || FirstNamed(P, nv.field.name, 22) || (FirstNamed(P, nv.field.name, 31) && |nv.field.value| < 20)
  }

  /** A name whose values seldom recur, or a field larger than three quarters of the table. */
  ghost predicate NotWorthIt(P: Params, f: Field, max: nat)
    requires |P.statics| == 61
  {
    || (exists k: nat :: k in {3, 20, 27, 33, 39, 40, 45, 54} && FirstNamed(P, f.name, k))
    || 4 * (32 + |f.name| + |f.value|) > 3 * max
  }

  lemma ModeIs(P: Params, max: nat, nv: Nv)
    requires |P.statics| == 61
    ensures ModeOf(P, max, nv) == if Sensitive(P, nv) then NeverIndexing
                                  else if NotWorthIt(P, nv.field, max) then WithoutIndexing else WithIndexing
  {
    hide LookupToken, FirstNamed;
    TokenLaw(P, nv.field.name);
    var token := LookupToken(P, nv.field.name);
    assert 0 <= token < 61 ==> FirstNamed(P, nv.field.name, token);
  }

  /** A sensitive field is never found whole, is not inserted, and carries the mark; no other field carries it. */
  lemma SensitiveLaw(P: Params, t: fields, max: nat, nv: Nv)
    requires |P.statics| == 61
    ensures Sensitive(P, nv) ==> FieldTable(P, t, max, nv) == t
    ensures HpackLockStep.Delivery(P, max, [nv]) == [Emitted(nv.field, Sensitive(P, nv))]
  {
    hide Sensitive, NotWorthIt, Search, Insert;
    ModeIs(P, max, nv);
  }

  /** The table changes exactly if the field is new to both tables, not sensitive and worth it; then it comes first. */
  lemma TableLaw(P: Params, t: fields, max: nat, nv: Nv)
    requires |P.statics| == 61
    ensures var r := FieldTable(P, t, max, nv);
            && (r != t <==> !Sensitive(P, nv) && !HasExact(P, t, nv.field) && !NotWorthIt(P, nv.field, max))
            && (r != t ==> r == Insert(t, nv.field, max) && r != [] && r[0] == nv.field && r[1..] == t[..|r| - 1])
  {
    hide Sensitive, Search, Insert, FirstNamed, FirstEqual;
    ModeIs(P, max, nv);
    var mode := ModeOf(P, max, nv);
    SearchLaw(P, t, nv.field, mode);
    LongestInsert(t, nv.field, max, 0);
    var r := Insert(t, nv.field, max);
    if !Sensitive(P, nv) && !HasExact(P, t, nv.field) && !NotWorthIt(P, nv.field, max) {
      assert r[0] == nv.field && nv.field !in t;
      assert t != [] ==> t[0] in t;
    }
  }

  // ---------------------------------------------------------------- the octets

  /** What the encoder writes spells the number, keeps the flags, and is as short as any spelling of it. */
  lemma NumberLaw(flags: byte, n: nat, p: prefix, s: seq<byte>)
    requires n <= 0xffff_ffff && flags % (Mask(p) + 1) == 0
    ensures var h := EncodeInt(flags, n, p);
            && Spells(h, p, n) && h[0] - h[0] % (Mask(p) + 1) == flags
            && (Spells(s, p, n) ==> |h| <= |s|)
  {
    hide Continuation, GroupValue, Pow128;
    FlagsOnTop(flags, if n < Mask(p) then n else Mask(p), p);
    if n >= Mask(p) {
      ContinuationMeaning(n - Mask(p));
      if Spells(s, p, n) {
        Shortest(n - Mask(p), s[1..]);
      }
    }
  }

  lemma Shortest(m: nat, c: seq<byte>)
    requires c != [] && GroupValue(c) == m
    ensures |Continuation(m)| <= |c|
  {
    hide Continuation, GroupValue, Pow128;
    ContinuationLength(m, |c|);
    GroupsBelow(c);
  }

  lemma {:induction false} GroupsBelow(s: seq<byte>)
    ensures GroupValue(s) < Pow128(|s|)
  {
    if s != [] {
      GroupsBelow(s[1..]);
    }
  }

  /** A string is written in the shorter of its two forms, and the first bit says in which. */
  lemma StringLaw(P: Params, v: seq<byte>) returns (x: Str)
    requires ValidParams(P)
    ensures var e := HuffmanCode.Encode(P.code, v);
            && StringBytes(P, v) == StrOctets(x)
            && |x.body| == (if |e| < |v| then |e| else |v|)
            && (|x.body| <= 65536 ==> Denotes(P, x, v) && (x.length[0] >= 128 <==> |e| < |v|))
  {
    Lengths(P);
    hide HuffmanCode.Encode, ValidParams;
    var e := HuffmanCode.Encode(P.code, v);
    var huff := |e| < |v|;
    var body := if huff then e else v;
    x := Str(EncodeInt(if huff then 128 else 0, |body|, 7), body);
    if |body| <= 65536 {
      NumberLaw(if huff then 128 else 0, |body|, 7, []);
    }
  }

  /** First octet of a literal by its kind. */
  predicate KindOctet(b: byte, sensitive: bool, indexed: bool) {
    if sensitive then 16 <= b < 32 else if indexed then 64 <= b < 128 else b < 16
  }

  /** A field that is found whole is written as its index alone. */
  lemma WholeFieldLaw(P: Params, t: fields, max: nat, nv: Nv) returns (i: nat)
    requires ValidParams(P) && 62 + |t| <= 0xffff_ffff
    requires !Sensitive(P, nv) && HasExact(P, t, nv.field)
    ensures ExactRight(P, t, nv.field, i)
    ensures var s := FieldBytes(P, t, max, nv); Spells(s, 7, i + 1) && s[0] >= 128
  {
    hide ValidParams, Sensitive, Search, NotWorthIt, Spells, HasExact, ExactRight, FieldBytes, ModeOf, EncodeInt;
    Lengths(P);
    ModeIs(P, max, nv);
    SearchLaw(P, t, nv.field, ModeOf(P, max, nv));
    ExactIsFound(P, t, nv.field, ModeOf(P, max, nv));
    var r := Represented(P, t, max, nv);
    i := r.index;
    NumberLaw(128, i + 1, 7, []);
  }

  lemma ExactIsFound(P: Params, t: fields, f: Field, mode: Mode)
    requires |P.statics| == 61 && HasExact(P, t, f) && !mode.NeverIndexing?
    ensures Search(P, t, f, mode).exact
  {
    SearchLaw(P, t, f, mode);
  }

  lemma RightIsSome(P: Params, t: fields, f: Field, index: int)
    requires |P.statics| == 61 && ExactRight(P, t, f, index)
    ensures HasExact(P, t, f)
  {
  }

  /** Any other field is written as a literal, with the index of its name if there is one. */
  lemma LiteralLaw(P: Params, t: fields, max: nat, nv: Nv) returns (i: int, head: seq<byte>)
    requires ValidParams(P) && 62 + |t| <= 0xffff_ffff
    requires Sensitive(P, nv) || !HasExact(P, t, nv.field)
    ensures NameRight(P, t, nv.field.name, i) && i >= -1
    ensures var sensitive, indexed := Sensitive(P, nv), !NotWorthIt(P, nv.field, max);
            && head != [] && KindOctet(head[0], sensitive, indexed)
            && (i >= 0 ==> Spells(head, if !sensitive && indexed then 6 else 4, i + 1)
                           && FieldBytes(P, t, max, nv) == head + StringBytes(P, nv.field.value))
            && (i == -1 ==> |head| == 1 && head[0] in {0, 16, 64}
                            && FieldBytes(P, t, max, nv)
                               == head + StringBytes(P, nv.field.name) + StringBytes(P, nv.field.value))
  {
    hide ValidParams, Sensitive, Search, NotWorthIt, StringBytes, NameRight, ExactRight, Spells, HasExact,
         FieldBytes, Represent, ModeOf;
    Lengths(P);
    ModeIs(P, max, nv);
    var mode := ModeOf(P, max, nv);
    SearchLaw(P, t, nv.field, mode);
    var r := Represented(P, t, max, nv);
    i := r.index;
    if r.exact {
      RightIsSome(P, t, nv.field, i);
    }
    head := LiteralForm(P, r, nv.field, mode);
  }

  lemma Represented(P: Params, t: fields, max: nat, nv: Nv) returns (r: Found)
    requires |P.statics| == 61 && |P.code.codes| == 257
    ensures r == Search(P, t, nv.field, ModeOf(P, max, nv)) && -1 <= r.index < 61 + |t| && (r.exact ==> r.index >= 0)
    ensures FieldBytes(P, t, max, nv) == Represent(P, r, nv.field, ModeOf(P, max, nv))
  {
    hide Search, Represent, ModeOf;
    var mode := ModeOf(P, max, nv);
    SearchLeadsBack(P, t, nv.field, mode);
    r := Search(P, t, nv.field, mode);
  }

  lemma LiteralForm(P: Params, r: Found, f: Field, mode: Mode) returns (head: seq<byte>)
    requires |P.code.codes| == 257 && !r.exact && -1 <= r.index < 0xffff_ffff
    ensures head != [] && KindOctet(head[0], mode.NeverIndexing?, mode.WithIndexing?)
    ensures r.index >= 0 ==> Spells(head, if mode.WithIndexing? then 6 else 4, r.index + 1)
                             && Represent(P, r, f, mode) == head + StringBytes(P, f.value)
    ensures r.index == -1 ==> |head| == 1 && head[0] in {0, 16, 64}
                              && Represent(P, r, f, mode) == head + StringBytes(P, f.name) + StringBytes(P, f.value)
  {
    hide StringBytes, Spells, KindOctet, EncodeInt;
    if r.index == -1 {
      NewNameLaw(mode);
      head := [FirstByte(mode)];
    } else {
      NameIndexLaw(mode, r.index + 1);
      head := EncodeInt(FirstByte(mode), r.index + 1, LiteralPrefix(mode));
    }
  }

  lemma NewNameLaw(mode: Mode)
    ensures KindOctet(FirstByte(mode), mode.NeverIndexing?, mode.WithIndexing?) && FirstByte(mode) in {0, 16, 64}
  {
  }

  lemma NameIndexLaw(mode: Mode, n: nat)
    requires n <= 0xffff_ffff
    ensures FirstByte(mode) % (Mask(LiteralPrefix(mode)) + 1) == 0
    ensures var h := EncodeInt(FirstByte(mode), n, LiteralPrefix(mode));
            && Spells(h, if mode.WithIndexing? then 6 else 4, n)
            && KindOctet(h[0], mode.NeverIndexing?, mode.WithIndexing?)
  {
    hide EncodeInt, Spells;
    NumberLaw(FirstByte(mode), n, LiteralPrefix(mode), []);
  }

  // ---------------------------------------------------------------- size updates

  /** The limits a deflater was told, one after the other. */
  function Told(e: Enc, ns: seq<nat>): Enc
    decreases |ns|
  {
    if ns == [] then e else Told(ChangeSize(e, ns[0]), ns[1..])
  }

  function Least(ns: seq<nat>, m: nat): nat {
    if ns == [] then m else Min(ns[0], Least(ns[1..], m))
  }

  lemma {:induction false} ToldIs(e: Enc, ns: seq<nat>)
    requires ns != []
    ensures var d := Told(e, ns);
            && d.notify && d.limit == e.limit && d.max == Min(ns[|ns| - 1], e.limit)
            && d.minMax == Min(e.minMax, Least(ns, e.limit)) && d.table == Fit(e.table, Least(ns, e.limit))
    decreases |ns|
  {
    hide Fit;
    var d := ChangeSize(e, ns[0]);
    if |ns| > 1 {
      ToldIs(d, ns[1..]);
      FitTwice(e.table, Min(ns[0], e.limit), Least(ns[1..], e.limit));
      assert ns[1..][|ns| - 2] == ns[|ns| - 1];
    }
    LeastBelow(ns, e.limit);
    LeastBelow(ns[1..], e.limit);
  }

  lemma {:induction false} LeastBelow(ns: seq<nat>, m: nat)
    ensures Least(ns, m) <= m && forall i :: 0 <= i < |ns| ==> Least(ns, m) <= ns[i]
  {
    if ns != [] {
      LeastBelow(ns[1..], m);
      assert forall i :: 1 <= i < |ns| ==> ns[i] == ns[1..][i - 1];
    }
  }

  /**
   * However often the limit changes between two blocks: what was evicted is what does not fit the least of all limits,
   * and the next block begins with that least one, if it is below the last, and with the last, as sections 4.2 and 6.3
   * of RFC 7541 ask. The block after that begins with neither.
   */
  lemma ChangesAnnounced(P: Params, e: Enc, ns: seq<nat>, nvs: seq<Nv>) returns (least: seq<byte>, last: seq<byte>)
    requires |P.statics| == 61 && |P.code.codes| == 257
    requires e.minMax == 0xffff_ffff && ns != [] && Min(ns[|ns| - 1], e.limit) <= 0xffff_ffff
    ensures var d, low, high := Told(e, ns), Least(ns, e.limit), Min(ns[|ns| - 1], e.limit);
            && d.max == high && d.table == Fit(e.table, low)
            && Spells(last, 5, high) && 32 <= last[0] < 64
            && (low < high ==> Spells(least, 5, low) && 32 <= least[0] < 64 && HeadBytes(d) == least + last)
            && (low == high ==> HeadBytes(d) == last)
            && low <= high
            && HeadBytes(AfterBlock(P, d, nvs)) == [] && AfterBlock(P, d, nvs).minMax == 0xffff_ffff
  {
    hide Fit, EncodeInt, FieldsTable, Spells;
    ToldIs(e, ns);
    LeastBelow(ns, e.limit);
    var low, high := Least(ns, e.limit), Min(ns[|ns| - 1], e.limit);
    least, last := SizeUpdate(low), SizeUpdate(high);
    NumberLaw(0x20, low, 5, []);
    NumberLaw(0x20, high, 5, []);
  }

  /** A fresh deflater whose own limit is below the default announces it in its first block. */
  lemma FreshAnnounces(limit: nat)
    ensures var e := InitialEnc(limit);
            && e.table == [] && e.max == Min(limit, 4096) && e.limit == limit && e.minMax == 0xffff_ffff
            && (limit >= 4096 ==> HeadBytes(e) == [])
            && (limit < 4096 ==> Spells(HeadBytes(e), 5, limit) && 32 <= HeadBytes(e)[0] < 64)
  {
    if limit < 4096 {
      NumberLaw(0x20, limit, 5, []);
      assert HeadBytes(InitialEnc(limit)) == EncodeInt(0x20, limit, 5);
    }
  }
}
