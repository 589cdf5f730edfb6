/** What the deflater writes for one header field, one block, and how its table changes, on plain values. */
module HpackFormat {
  import opened Bytes
  import opened HpackInteger
  import opened HpackTable
  import opened HuffmanCode
  import HuffmanTable

  const STATIC_LENGTH := 61
  const MAX_NV := 65536

  // Tokens the deflater singles out.
  const TOKEN_PATH := 3
  const TOKEN_AGE := 20
  const TOKEN_AUTHORIZATION := 22
  const TOKEN_CONTENT_LENGTH := 27
  const TOKEN_COOKIE := 31
  const TOKEN_ETAG := 33
  const TOKEN_IF_MODIFIED_SINCE := 39
  const TOKEN_IF_NONE_MATCH := 40
  const TOKEN_LOCATION := 45
  const TOKEN_SET_COOKIE := 54
  const TOKEN_WWW_AUTHENTICATE := 60

  datatype StaticEntry = StaticEntry(field: Field, hash: nat)

  /** The constant tables compiled into both ends. */
  datatype Params = Params(statics: seq<StaticEntry>, extraNames: seq<seq<byte>>, code: Code, table: HuffmanTable.table)

  ghost predicate ValidParams(P: Params) {
    && |P.statics| == STATIC_LENGTH
    && (forall i :: 0 <= i < STATIC_LENGTH ==> P.statics[i].hash <= UINT32_MAX)
    && WellFormed(P.code)
    && P.table == HuffmanTable.Generate(P.code.tree)
  }

  /** A header field to send; `noIndex` is the caller's request never to index it. */
  datatype Nv = Nv(field: Field, noIndex: bool)

  datatype Mode = WithIndexing | WithoutIndexing | NeverIndexing

  // ---------------------------------------------------------------- tokens

  function FirstName(s: seq<StaticEntry>, name: seq<byte>, i: nat): (r: int)
    requires i <= |s|
    ensures r == -1 || (i <= r < |s| && s[r].field.name == name)
    ensures r == -1 ==> forall j :: i <= j < |s| ==> s[j].field.name != name
    decreases |s| - i
  {
    if i == |s| then -1 else if s[i].field.name == name then i else FirstName(s, name, i + 1)
  }

  function FirstExtra(s: seq<seq<byte>>, name: seq<byte>, i: nat): (r: int)
    requires i <= |s|
    ensures r == -1 || (i <= r < |s| && s[r] == name)
    decreases |s| - i
  {
    if i == |s| then -1 else if s[i] == name then i else FirstExtra(s, name, i + 1)
  }

  /** Number of a well-known name: its first static index, or a number past the static table. */
  function LookupToken(P: Params, name: seq<byte>): (r: int)
    ensures -1 <= r
    ensures 0 <= r < |P.statics| ==> P.statics[r].field.name == name
  {
    var r := FirstName(P.statics, name, 0);
    if r >= 0 then r
    else
      var x := FirstExtra(P.extraNames, name, 0);
      if x >= 0 then |P.statics| + x else -1
  }

  /** A token names one name. */
  lemma TokenNamesOneName(P: Params, a: seq<byte>, b: seq<byte>)
    requires LookupToken(P, a) == LookupToken(P, b) != -1
    ensures a == b
  {
  }

  // ---------------------------------------------------------------- searching

  /** Newest entry equal to `f`, or -1. */
  function FindExact(t: fields, f: Field): (r: int)
    ensures r == -1 || (0 <= r < |t| && t[r] == f)
  {
    if t == [] then -1
    else if t[0] == f then 0
    else
      var r := FindExact(t[1..], f);
      if r == -1 then -1 else r + 1
  }

  /** Newest entry named `name`, or -1. */
  function FindName(t: fields, name: seq<byte>): (r: int)
    ensures r == -1 || (0 <= r < |t| && t[r].name == name)
  {
    if t == [] then -1
    else if t[0].name == name then 0
    else
      var r := FindName(t[1..], name);
      if r == -1 then -1 else r + 1
  }

  /** Nothing newer matches, and with -1 nothing matches at all. */
  lemma {:induction false} FindExactIsNewest(t: fields, f: Field)
    ensures var r := FindExact(t, f);
            forall j :: 0 <= j < (if r == -1 then |t| else r) ==> t[j] != f
  {
    if t != [] && t[0] != f {
      FindExactIsNewest(t[1..], f);
      assert forall j :: 1 <= j < |t| ==> t[j] == t[1..][j - 1];
    }
  }

  lemma {:induction false} FindNameIsNewest(t: fields, name: seq<byte>)
    ensures var r := FindName(t, name);
            forall j :: 0 <= j < (if r == -1 then |t| else r) ==> t[j].name != name
  {
    if t != [] && t[0].name != name {
      FindNameIsNewest(t[1..], name);
      assert forall j :: 1 <= j < |t| ==> t[j] == t[1..][j - 1];
    }
  }

  /** Index of a representation and whether the value matches too; -1 means a new name. */
  datatype Found = Found(index: int, exact: bool)

  /** The run of static entries for `token`, searched for `value`. */
  function StaticScan(P: Params, i: nat, token: int, value: seq<byte>): (r: int)
    requires |P.statics| == STATIC_LENGTH
    ensures r == -1 || (i <= r <= TOKEN_WWW_AUTHENTICATE && P.statics[r].field.value == value
                        && LookupToken(P, P.statics[r].field.name) == token)
    decreases STATIC_LENGTH - i
  {
    if i > TOKEN_WWW_AUTHENTICATE || LookupToken(P, P.statics[i].field.name) != token then -1
    else if P.statics[i].field.value == value then i
    else StaticScan(P, i + 1, token, value)
  }

  /** From `i` to `j` the static table has only entries of the name that the token stands for. */
  ghost predicate InRun(P: Params, i: nat, j: nat, token: int)
    requires |P.statics| == STATIC_LENGTH && j <= TOKEN_WWW_AUTHENTICATE
  {
    forall k :: i <= k <= j ==> LookupToken(P, P.statics[k].field.name) == token
  }

  /** What the scan of a name's run finds is its first entry with the value, and nothing only if there is none. */
  lemma {:induction false} StaticScanIsFirst(P: Params, i: nat, token: int, value: seq<byte>)
    requires |P.statics| == STATIC_LENGTH
    ensures var r := StaticScan(P, i, token, value);
            && (r >= 0 ==> InRun(P, i, r, token))
            && forall j :: i <= j <= TOKEN_WWW_AUTHENTICATE && InRun(P, i, j, token) && (r == -1 || j < r) ==>
                 P.statics[j].field.value != value
    decreases STATIC_LENGTH - i
  {
    hide LookupToken;
    if i <= TOKEN_WWW_AUTHENTICATE && LookupToken(P, P.statics[i].field.name) == token
       && P.statics[i].field.value != value {
      StaticScanIsFirst(P, i + 1, token, value);
      forall j | i < j <= TOKEN_WWW_AUTHENTICATE && InRun(P, i, j, token)
        ensures InRun(P, i + 1, j, token)
      {
      }
    }
  }

  function SearchStatic(P: Params, f: Field, token: int, nameOnly: bool): Found
    requires |P.statics| == STATIC_LENGTH && 0 <= token <= TOKEN_WWW_AUTHENTICATE
  {
    if nameOnly then Found(token, false)
    else
      var i := StaticScan(P, token, token, f.value);
      if i >= 0 then Found(i, true) else Found(token, false)
  }

  function Search(P: Params, t: fields, f: Field, mode: Mode): (r: Found)
    requires |P.statics| == STATIC_LENGTH
  {
    var token := LookupToken(P, f.name);
    var nameOnly := mode.NeverIndexing?;
    var e := if nameOnly then -1 else FindExact(t, f);
    if e >= 0 then Found(STATIC_LENGTH + e, true)
    else if 0 <= token <= TOKEN_WWW_AUTHENTICATE then SearchStatic(P, f, token, nameOnly)
    else
      var n := FindName(t, f.name);
      if n >= 0 then Found(STATIC_LENGTH + n, false) else Found(-1, false)
  }

  /** The field at a zero-based index: static entries first, then the dynamic table. */
  function Get(P: Params, t: fields, index: nat): Field {
    if index < |P.statics| then P.statics[index].field
    else if index - |P.statics| < |t| then t[index - |P.statics|]
    else Field([], [])
  }

  /** An index found for a field leads back to it, or at least to its name. */
  lemma SearchLeadsBack(P: Params, t: fields, f: Field, mode: Mode)
    requires |P.statics| == STATIC_LENGTH
    ensures var r := Search(P, t, f, mode);
            && -1 <= r.index < STATIC_LENGTH + |t|
            && (r.exact ==> r.index >= 0 && Get(P, t, r.index) == f)
            && (r.index >= 0 ==> Get(P, t, r.index).name == f.name)
            && (mode.NeverIndexing? ==> !r.exact)
  {
    var r := Search(P, t, f, mode);
    var token := LookupToken(P, f.name);
    if 0 <= r.index < STATIC_LENGTH && r.exact {
      TokenNamesOneName(P, P.statics[r.index].field.name, f.name);
    }
  }

  // ---------------------------------------------------------------- one field

  function DecideIndexing(token: int, f: Field, max: nat): Mode {
    if token == TOKEN_PATH || token == TOKEN_AGE || token == TOKEN_CONTENT_LENGTH || token == TOKEN_ETAG
       || token == TOKEN_IF_MODIFIED_SINCE || token == TOKEN_IF_NONE_MATCH || token == TOKEN_LOCATION
       || token == TOKEN_SET_COOKIE || Room(f) > max * 3 / 4
    then WithoutIndexing
    else WithIndexing
  }

  function ModeOf(P: Params, max: nat, nv: Nv): Mode {
    var token := LookupToken(P, nv.field.name);
    if token == TOKEN_AUTHORIZATION || (token == TOKEN_COOKIE && |nv.field.value| < 20) || nv.noIndex
    then NeverIndexing
    else DecideIndexing(token, nv.field, max)
  }

  /** Octets a string literal occupies after its length: the shorter of its two forms. */
  function LiteralLength(P: Params, s: seq<byte>): nat
    requires |P.code.codes| == 257
  {
    var e := |Encode(P.code, s)|;
    if e < |s| then e else |s|
  }

  function StringBytes(P: Params, s: seq<byte>): seq<byte>
    requires |P.code.codes| == 257
  {
    var e := Encode(P.code, s);
    if |e| < |s| then EncodeInt(128, |e|, 7) + e else EncodeInt(0, |s|, 7) + s
  }

  function FirstByte(mode: Mode): byte {
    match mode
    case WithIndexing => 0x40
    case WithoutIndexing => 0
    case NeverIndexing => 0x10
  }

  function LiteralPrefix(mode: Mode): prefix {
    if mode.WithIndexing? then 6 else 4
  }

  /** The representation of a field, given what the search found. */
  function Represent(P: Params, r: Found, f: Field, mode: Mode): (s: seq<byte>)
    requires |P.code.codes| == 257 && r.index >= -1 && (r.exact ==> r.index >= 0)
    ensures |s| > 0
  {
    if r.exact then EncodeInt(128, r.index + 1, 7)
    else if r.index == -1 then [FirstByte(mode)] + StringBytes(P, f.name) + StringBytes(P, f.value)
    else EncodeInt(FirstByte(mode), r.index + 1, LiteralPrefix(mode)) + StringBytes(P, f.value)
  }

  function FieldBytes(P: Params, t: fields, max: nat, nv: Nv): (s: seq<byte>)
    requires |P.statics| == STATIC_LENGTH && |P.code.codes| == 257
    ensures |s| > 0
  {
    var mode := ModeOf(P, max, nv);
    SearchLeadsBack(P, t, nv.field, mode);
    Represent(P, Search(P, t, nv.field, mode), nv.field, mode)
  }

  function FieldTable(P: Params, t: fields, max: nat, nv: Nv): fields
    requires |P.statics| == STATIC_LENGTH
  {
    var mode := ModeOf(P, max, nv);
    if !Search(P, t, nv.field, mode).exact && mode.WithIndexing? then Insert(t, nv.field, max) else t
  }

  // ---------------------------------------------------------------- one block

  /** The deflater's state between blocks. */
  datatype Enc = Enc(table: fields, max: nat, limit: nat, minMax: nat, notify: bool)

  const DEFAULT_TABLE_SIZE := 4096

  function InitialEnc(limit: nat): Enc {
    if limit < DEFAULT_TABLE_SIZE then Enc([], limit, limit, UINT32_MAX, true)
    else Enc([], DEFAULT_TABLE_SIZE, limit, UINT32_MAX, false)
  }

  function ChangeSize(e: Enc, settings: nat): Enc {
    var next := Min(settings, e.limit);
    e.(table := Fit(e.table, next), max := next, minMax := Min(e.minMax, next), notify := true)
  }

  function SizeUpdate(n: nat): seq<byte> {
    EncodeInt(0x20, n, 5)
  }

  /** Size updates written at the head of a block: the smallest size if it is below the final one, then that. */
  function HeadBytes(e: Enc): seq<byte> {
    if !e.notify then []
    else (if e.max > e.minMax then SizeUpdate(e.minMax) else []) + SizeUpdate(e.max)
  }

  function FieldsBytes(P: Params, t: fields, max: nat, nvs: seq<Nv>): seq<byte>
    requires |P.statics| == STATIC_LENGTH && |P.code.codes| == 257
    decreases |nvs|
  {
    if nvs == [] then []
    else FieldBytes(P, t, max, nvs[0]) + FieldsBytes(P, FieldTable(P, t, max, nvs[0]), max, nvs[1..])
  }

  function FieldsTable(P: Params, t: fields, max: nat, nvs: seq<Nv>): fields
    requires |P.statics| == STATIC_LENGTH
    decreases |nvs|
  {
    if nvs == [] then t else FieldsTable(P, FieldTable(P, t, max, nvs[0]), max, nvs[1..])
  }

  function BlockBytes(P: Params, e: Enc, nvs: seq<Nv>): seq<byte>
    requires |P.statics| == STATIC_LENGTH && |P.code.codes| == 257
  {
    HeadBytes(e) + FieldsBytes(P, e.table, e.max, nvs)
  }

  function AfterBlock(P: Params, e: Enc, nvs: seq<Nv>): Enc
    requires |P.statics| == STATIC_LENGTH
  {
    Enc(FieldsTable(P, e.table, e.max, nvs), e.max, e.limit, if e.notify then UINT32_MAX else e.minMax, false)
  }

  // ---------------------------------------------------------------- growing a list at its end

  lemma {:induction false} FieldsSnoc(P: Params, t: fields, max: nat, nvs: seq<Nv>, nv: Nv)
    requires |P.statics| == STATIC_LENGTH && |P.code.codes| == 257
    ensures var t1 := FieldsTable(P, t, max, nvs);
            && FieldsBytes(P, t, max, nvs + [nv]) == FieldsBytes(P, t, max, nvs) + FieldBytes(P, t1, max, nv)
            && FieldsTable(P, t, max, nvs + [nv]) == FieldTable(P, t1, max, nv)
    decreases |nvs|
  {
    if nvs == [] {
      assert nvs + [nv] == [nv] && [nv][1..] == [];
    } else {
      assert (nvs + [nv])[0] == nvs[0] && (nvs + [nv])[1..] == nvs[1..] + [nv];
      FieldsSnoc(P, FieldTable(P, t, max, nvs[0]), max, nvs[1..], nv);
    }
  }

  lemma {:induction false} FieldsAppend(P: Params, t: fields, max: nat, a: seq<Nv>, b: seq<Nv>)
    requires |P.statics| == STATIC_LENGTH && |P.code.codes| == 257
    ensures var t1 := FieldsTable(P, t, max, a);
            FieldsBytes(P, t, max, a + b) == FieldsBytes(P, t, max, a) + FieldsBytes(P, t1, max, b)
    decreases |a|
  {
    hide FieldBytes, FieldTable;
    if a == [] {
      assert a + b == b;
    } else {
      assert (a + b)[0] == a[0] && (a + b)[1..] == a[1..] + b;
      FieldsAppend(P, FieldTable(P, t, max, a[0]), max, a[1..], b);
    }
  }
}
