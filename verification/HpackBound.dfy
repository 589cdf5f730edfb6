/**
 * The size the library tells its callers to reserve for a header block. It is not always enough: a field whose name
 * and value both need six octets for their length takes one octet more than is counted for it.
 */
module HpackBound {
  import opened Bytes
  import opened HpackInteger
  import opened HpackTable
  import opened HpackFormat
  import HuffmanCode

  /** Octets reserved for the representations of some fields. */
  function Reserved(nvs: seq<Nv>): nat {
    if nvs == [] then 0 else 12 + |nvs[0].field.name| + |nvs[0].field.value| + Reserved(nvs[1..])
  }

  lemma {:induction false} ReservedSum(nvs: seq<Nv>, nv: Nv)
    ensures Reserved(nvs + [nv]) == Reserved(nvs) + 12 + |nv.field.name| + |nv.field.value|
  {
    if nvs == [] {
      assert nvs + [nv] == [nv];
    } else {
      assert (nvs + [nv])[1..] == nvs[1..] + [nv];
      ReservedSum(nvs[1..], nv);
    }
  }

  method DeflateBound(nva: seq<Nv>) returns (n: nat)
    ensures n == 12 + Reserved(nva)
  {
    n := 12;
    n := n + 6 * 2 * |nva|;
    for i := 0 to |nva|
      invariant n == 12 + 12 * (|nva| - i) + Reserved(nva[..i])
    {
      assert nva[..i + 1] == nva[..i] + [nva[i]];
      ReservedSum(nva[..i], nva[i]);
      n := n + |nva[i].field.name| + |nva[i].field.value|;
    }
    assert nva[..|nva|] == nva;
  }

  // ---------------------------------------------------------------- one field

  /** From this length on a string's length takes six octets. */
  const LONG := 127 + 0x1000_0000

  /** Neither string is shortened, and both have lengths of six octets. */
  predicate Overlong(P: Params, f: Field)
    requires |P.code.codes| == 257
  {
    && |f.name| >= LONG && LiteralLength(P, f.name) == |f.name|
    && |f.value| >= LONG && LiteralLength(P, f.value) == |f.value|
  }

  ghost predicate Sized(nv: Nv) {
    |nv.field.name| <= UINT32_MAX && |nv.field.value| <= UINT32_MAX
  }

  lemma StringLength(P: Params, s: seq<byte>)
    requires |P.code.codes| == 257 && |s| <= UINT32_MAX
    ensures LiteralLength(P, s) < LONG ==> |StringBytes(P, s)| <= 5 + LiteralLength(P, s)
    ensures LiteralLength(P, s) >= LONG ==> |StringBytes(P, s)| == 6 + LiteralLength(P, s)
    ensures LiteralLength(P, s) <= |s|
  {
    hide EncodeInt, HuffmanCode.Encode;
    EncodedLength(128, LiteralLength(P, s), 7);
    EncodedLength(0, LiteralLength(P, s), 7);
  }

  /** The room counted for a field suffices unless it is sent with a new name and is overlong; then one is missing. */
  lemma FieldFits(P: Params, t: fields, max: nat, nv: Nv)
    requires |P.statics| == STATIC_LENGTH && |P.code.codes| == 257
    requires Sized(nv) && SizeOf(t) <= UINT32_MAX
    ensures var newName := Search(P, t, nv.field, ModeOf(P, max, nv)).index == -1;
            var room := 12 + |nv.field.name| + |nv.field.value|;
            && |FieldBytes(P, t, max, nv)| <= room + 1
            && (|FieldBytes(P, t, max, nv)| == room + 1 <==> newName && Overlong(P, nv.field))
  {
    hide Search, ModeOf, StringBytes, EncodeInt, LiteralLength;
    var f, mode := nv.field, ModeOf(P, max, nv);
    SearchLeadsBack(P, t, f, mode);
    var index := Search(P, t, f, mode).index;
    StringLength(P, f.name);
    StringLength(P, f.value);
    EntryCount(t);
    EncodedLength(128, index + 1, 7);
    EncodedLength(FirstByte(mode), index + 1, LiteralPrefix(mode));
  }

  // ---------------------------------------------------------------- blocks

  function Overlongs(P: Params, nvs: seq<Nv>): nat
    requires |P.code.codes| == 257
  {
    if nvs == [] then 0 else (if Overlong(P, nvs[0].field) then 1 else 0) + Overlongs(P, nvs[1..])
  }

  lemma {:induction false} FieldsFit(P: Params, t: fields, max: nat, nvs: seq<Nv>)
    requires |P.statics| == STATIC_LENGTH && |P.code.codes| == 257
    requires (forall nv :: nv in nvs ==> Sized(nv)) && SizeOf(t) <= max <= UINT32_MAX
    ensures |FieldsBytes(P, t, max, nvs)| <= Reserved(nvs) + Overlongs(P, nvs)
    decreases |nvs|
  {
    hide FieldBytes, Overlong, Search, ModeOf;
    if nvs != [] {
      assert nvs[0] in nvs && forall nv :: nv in nvs[1..] ==> nv in nvs;
      FieldFits(P, t, max, nvs[0]);
      FitFits([nvs[0].field] + t, max);
      FieldsFit(P, FieldTable(P, t, max, nvs[0]), max, nvs[1..]);
    }
  }

  ghost predicate Sensible(e: Enc) {
    SizeOf(e.table) <= e.max <= UINT32_MAX && e.minMax <= UINT32_MAX
  }

  lemma HeadFits(e: Enc)
    requires Sensible(e)
    ensures |HeadBytes(e)| <= 12
  {
    hide EncodeInt;
    EncodedLength(0x20, e.max, 5);
    EncodedLength(0x20, e.minMax, 5);
  }

  /** A block never takes more than is reserved and one octet for every overlong field. */
  lemma BlockFits(P: Params, e: Enc, nvs: seq<Nv>)
    requires |P.statics| == STATIC_LENGTH && |P.code.codes| == 257
    requires (forall nv :: nv in nvs ==> Sized(nv)) && Sensible(e)
    ensures |BlockBytes(P, e, nvs)| <= 12 + Reserved(nvs) + Overlongs(P, nvs)
  {
    hide FieldsBytes, Reserved, Overlongs, HeadBytes;
    HeadFits(e);
    FieldsFit(P, e.table, e.max, nvs);
  }

  // ---------------------------------------------------------------- exactly when it is not enough

  /** The size was changed twice since the last block, both times to something that takes six octets to announce. */
  function Resized(limit: nat): Enc
    requires limit > 0
  {
    ChangeSize(ChangeSize(InitialEnc(limit), limit - 1), limit)
  }

  const LIMIT := 32 + 0x1000_0000

  /**
   * What is reserved for a single field is enough for a deflater in whatever state exactly when its name has a static
   * entry or it is not overlong.
   */
  lemma SingleFieldExact(P: Params, nv: Nv)
    requires |P.statics| == STATIC_LENGTH && |P.code.codes| == 257 && Sized(nv)
    ensures (forall e :: Sensible(e) ==> |BlockBytes(P, e, [nv])| <= 12 + Reserved([nv]))
            <==> 0 <= LookupToken(P, nv.field.name) <= TOKEN_WWW_AUTHENTICATE || !Overlong(P, nv.field)
  {
    var known := 0 <= LookupToken(P, nv.field.name) <= TOKEN_WWW_AUTHENTICATE || !Overlong(P, nv.field);
    assert [nv][1..] == [] && Reserved([]) == 0;
    forall e | Sensible(e)
      ensures known ==> |BlockBytes(P, e, [nv])| <= 12 + Reserved([nv])
    {
      OneField(P, e, nv);
      HeadFits(e);
    }
    OneField(P, Resized(LIMIT), nv);
    LongestHead();
  }

  lemma LongestHead()
    ensures Sensible(Resized(LIMIT)) && |HeadBytes(Resized(LIMIT))| == 12 && Resized(LIMIT).table == []
  {
    hide EncodeInt;
    EncodedLength(0x20, LIMIT, 5);
    EncodedLength(0x20, LIMIT - 1, 5);
  }

  lemma OneField(P: Params, e: Enc, nv: Nv)
    requires |P.statics| == STATIC_LENGTH && |P.code.codes| == 257 && Sized(nv) && Sensible(e)
    ensures var known := 0 <= LookupToken(P, nv.field.name) <= TOKEN_WWW_AUTHENTICATE || !Overlong(P, nv.field);
            && (known ==> |BlockBytes(P, e, [nv])| <= |HeadBytes(e)| + Reserved([nv]))
            && (!known && e.table == [] ==> |BlockBytes(P, e, [nv])| == |HeadBytes(e)| + Reserved([nv]) + 1)
  {
    hide HeadBytes, FieldBytes, Overlong, LookupToken, ModeOf;
    assert [nv][1..] == [] && Reserved([]) == 0;
    assert FieldsBytes(P, FieldTable(P, e.table, e.max, nv), e.max, []) == [];
    FieldFits(P, e.table, e.max, nv);
  }

  // ---------------------------------------------------------------- an input that fails

  function Repeated(b: byte, n: nat): (s: seq<byte>)
    ensures |s| == n
  {
    if n == 0 then [] else [b] + Repeated(b, n - 1)
  }

  lemma {:induction false} RepeatedNotShortened(h: HuffmanCode.Code, b: byte, n: nat)
    requires |h.codes| == 257 && |h.codes[b]| >= 8
    ensures |HuffmanCode.CodeBits(h, Repeated(b, n))| >= 8 * n
  {
    if n > 0 {
      assert Repeated(b, n)[1..] == Repeated(b, n - 1);
      RepeatedNotShortened(h, b, n - 1);
    }
  }

  /**
   * A name and a value of 2^28 + 127 times the same octet, if that octet's code is no shorter than the octet: written
   * after two size changes, they overrun the reserved size by one.
   */
  lemma ReservedTooLittle(P: Params, b: byte)
    requires |P.statics| == STATIC_LENGTH && |P.code.codes| == 257 && |P.code.codes[b]| >= 8
    requires forall i :: 0 <= i < STATIC_LENGTH ==> |P.statics[i].field.name| < LONG
    ensures var nv := Nv(Field(Repeated(b, LONG), Repeated(b, LONG)), false);
            |BlockBytes(P, Resized(LIMIT), [nv])| == 12 + Reserved([nv]) + 1
  {
    hide Repeated;
    RepeatedNotShortened(P.code, b, LONG);
    var nv := Nv(Field(Repeated(b, LONG), Repeated(b, LONG)), false);
    LongestHead();
    OneField(P, Resized(LIMIT), nv);
  }
}
