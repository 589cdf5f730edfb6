/** The deflater as the library keeps it: ring, hash chains, pending size update, and output into chunked buffers. */
module HpackDeflater {
  import opened Bytes
  import opened HpackInteger
  import opened HpackTable
  import opened HpackFormat
  import opened HpackContext
  import opened HpackRing
  import opened Buffers
  import HuffmanCode
  import HuffmanEncoder

  const ERR_HEADER_COMP := -523

  /** What the deflater needs of its constant tables. */
  ghost predicate Sized(P: Params) {
    && |P.statics| == STATIC_LENGTH
    && (forall i :: 0 <= i < STATIC_LENGTH ==> P.statics[i].hash <= UINT32_MAX)
    && HuffmanEncoder.CodesFit(P.code)
  }

  // ---------------------------------------------------------------- writing representations

  method EmitInt(bufs: Bufs, first: byte, n: nat, p: prefix) returns (rv: int)
    requires bufs.Valid() && first % (Mask(p) + 1) == 0
    modifies bufs`chain, bufs`cur, bufs`chunkUsed
    ensures bufs.Valid() && bufs.Start() == old(bufs.Start())
    ensures Appended(old(bufs.Content()), old(bufs.Capacity()), EncodeInt(first, n, p),
                     bufs.Content(), bufs.Capacity(), rv)
  {
    hide Appended;
    var sb := EncodeLength(first, n, p);
    rv := bufs.Add(sb);
  }

  method EmitTableSize(bufs: Bufs, n: nat) returns (rv: int)
    requires bufs.Valid()
    modifies bufs`chain, bufs`cur, bufs`chunkUsed
    ensures bufs.Valid() && bufs.Start() == old(bufs.Start())
    ensures Appended(old(bufs.Content()), old(bufs.Capacity()), SizeUpdate(n), bufs.Content(), bufs.Capacity(), rv)
  {
    hide Appended;
    rv := EmitInt(bufs, 0x20, n, 5);
  }

  /** The smallest size if it is below the final one, then the final one. */
  method EmitSizes(bufs: Bufs, least: nat, final: nat) returns (rv: int)
    requires bufs.Valid()
    modifies bufs`chain, bufs`cur, bufs`chunkUsed
    ensures bufs.Valid() && bufs.Start() == old(bufs.Start())
    ensures Appended(old(bufs.Content()), old(bufs.Capacity()),
                     (if final > least then SizeUpdate(least) else []) + SizeUpdate(final),
                      bufs.Content(), bufs.Capacity(), rv)
  {
    hide Appended, SizeUpdate, Bufs.Valid;
    ghost var before, room := bufs.Content(), bufs.Capacity();
    if final > least {
      rv := EmitTableSize(bufs, least);
      ghost var mid, left := bufs.Content(), bufs.Capacity();
      if rv != 0 {
        AppendedFails(before, room, SizeUpdate(least), SizeUpdate(final), mid, left, rv);
        return;
      }
      rv := EmitTableSize(bufs, final);
      AppendedTwice(before, room, SizeUpdate(least), mid, left, SizeUpdate(final), bufs.Content(), bufs.Capacity(), rv);
    } else {
      rv := EmitTableSize(bufs, final);
      assert [] + SizeUpdate(final) == SizeUpdate(final);
    }
  }

  /** A string in the shorter of its two forms. */
  method EmitString(P: Params, bufs: Bufs, s: seq<byte>) returns (rv: int)
    requires HuffmanEncoder.CodesFit(P.code) && bufs.Valid() && bufs.offset < bufs.chunkLength
    modifies bufs`chain, bufs`cur, bufs`chunkUsed
    ensures bufs.Valid() && bufs.Start() == old(bufs.Start())
    ensures Appended(old(bufs.Content()), old(bufs.Capacity()), StringBytes(P, s), bufs.Content(), bufs.Capacity(), rv)
  {
    ghost var before, room := bufs.Content(), bufs.Capacity();
    var enclen := HuffmanEncoder.EncodeCount(P.code, s);
    var huffman := enclen < |s|;
    if !huffman {
      enclen := |s|;
    }
    hide Appended;
    ghost var body := if huffman then HuffmanCode.Encode(P.code, s) else s;
    assert StringBytes(P, s) == EncodeInt(if huffman then 128 else 0, enclen, 7) + body;
    rv := EmitInt(bufs, if huffman then 128 else 0, enclen, 7);
    ghost var mid, left := bufs.Content(), bufs.Capacity();
    if rv != 0 {
      AppendedFails(before, room, EncodeInt(if huffman then 128 else 0, enclen, 7), body, mid, left, rv);
      return;
    }
    if huffman {
      rv := HuffmanEncoder.HuffEncode(P.code, bufs, s);
    } else {
      rv := bufs.Add(s);
    }
    AppendedTwice(before, room, EncodeInt(if huffman then 128 else 0, enclen, 7), mid, left,
                  body, bufs.Content(), bufs.Capacity(), rv);
  }

  lemma FirstByteAligned(mode: Mode)
    ensures FirstByte(mode) % (Mask(LiteralPrefix(mode)) + 1) == 0
  {
  }

  method EmitIndname(P: Params, bufs: Bufs, index: nat, value: seq<byte>, mode: Mode) returns (rv: int)
    requires HuffmanEncoder.CodesFit(P.code) && bufs.Valid() && bufs.offset < bufs.chunkLength
    modifies bufs`chain, bufs`cur, bufs`chunkUsed
    ensures bufs.Valid() && bufs.Start() == old(bufs.Start())
    ensures FirstByte(mode) % (Mask(LiteralPrefix(mode)) + 1) == 0
    ensures Appended(old(bufs.Content()), old(bufs.Capacity()),
                     EncodeInt(FirstByte(mode), index + 1, LiteralPrefix(mode)) + StringBytes(P, value),
                     bufs.Content(), bufs.Capacity(), rv)
  {
    hide Appended, StringBytes;
    FirstByteAligned(mode);
    ghost var before, room := bufs.Content(), bufs.Capacity();
    ghost var head := EncodeInt(FirstByte(mode), index + 1, LiteralPrefix(mode));
    rv := EmitInt(bufs, FirstByte(mode), index + 1, LiteralPrefix(mode));
    ghost var mid, left := bufs.Content(), bufs.Capacity();
    if rv != 0 {
      AppendedFails(before, room, head, StringBytes(P, value), mid, left, rv);
      return;
    }
    rv := EmitString(P, bufs, value);
    AppendedTwice(before, room, head, mid, left, StringBytes(P, value), bufs.Content(), bufs.Capacity(), rv);
  }

  method EmitNewname(P: Params, bufs: Bufs, f: Field, mode: Mode) returns (rv: int)
    requires HuffmanEncoder.CodesFit(P.code) && bufs.Valid() && bufs.offset < bufs.chunkLength
    modifies bufs`chain, bufs`cur, bufs`chunkUsed
    ensures bufs.Valid() && bufs.Start() == old(bufs.Start())
    ensures Appended(old(bufs.Content()), old(bufs.Capacity()),
                     [FirstByte(mode)] + StringBytes(P, f.name) + StringBytes(P, f.value),
                     bufs.Content(), bufs.Capacity(), rv)
  {
    hide Appended, StringBytes;
    ghost var before, room := bufs.Content(), bufs.Capacity();
    ghost var n, v := StringBytes(P, f.name), StringBytes(P, f.value);
    ghost var first := [FirstByte(mode)];
    var inside;
    rv, inside := bufs.Addb(FirstByte(mode));
    ghost var mid, left := bufs.Content(), bufs.Capacity();
    if rv != 0 {
      AppendedFails(before, room, first, n, mid, left, rv);
      AppendedFails(before, room, first + n, v, mid, left, rv);
      return;
    }
    rv := EmitString(P, bufs, f.name);
    ghost var mid2, left2 := bufs.Content(), bufs.Capacity();
    AppendedTwice(before, room, first, mid, left, n, mid2, left2, rv);
    if rv != 0 {
      AppendedFails(before, room, first + n, v, mid2, left2, rv);
      return;
    }
    rv := EmitString(P, bufs, f.value);
    AppendedTwice(before, room, first + n, mid2, left2, v, bufs.Content(), bufs.Capacity(), rv);
  }

  // ---------------------------------------------------------------- names

  /** The 32-bit hash of a name, octet by octet. */
  method HashName(name: seq<byte>) returns (h: bv32)
    ensures h == NameHash(name)
  {
    hide FnvStep;
    h := 2166136261;
    assert name[0..] == name;
    for i := 0 to |name|
      invariant FnvFrom(h, name[i..]) == NameHash(name)
    {
      assert name[i..][0] == name[i] && name[i..][1..] == name[i + 1..];
      h := FnvStep(h, name[i]);
    }
  }

  method SearchStaticTable(P: Params, f: Field, token: int, nameOnly: bool) returns (r: Found)
    requires |P.statics| == STATIC_LENGTH && 0 <= token <= TOKEN_WWW_AUTHENTICATE
    ensures r == SearchStatic(P, f, token, nameOnly)
  {
    if nameOnly {
      return Found(token, false);
    }
    var i := token;
    while i <= TOKEN_WWW_AUTHENTICATE && LookupToken(P, P.statics[i].field.name) == token
      invariant 0 <= i <= STATIC_LENGTH
      invariant StaticScan(P, i, token, f.value) == StaticScan(P, token, token, f.value)
    {
      if P.statics[i].field.value == f.value {
        return Found(i, true);
      }
      i := i + 1;
    }
    return Found(token, false);
  }

  /** An entry's number gives its place in the table, whether or not the counter has wrapped. */
  lemma NumberGivesIndex(es: seq<Entry>, nextSeq: nat, i: nat)
    requires nextSeq < UINT32_SIZE && Numbered(es, nextSeq) && i < |es| && STATIC_LENGTH + |es| < UINT32_SIZE
    ensures (nextSeq - 1 - es[i].seqNo + STATIC_LENGTH) % UINT32_SIZE == STATIC_LENGTH + i
  {
  }

  // ---------------------------------------------------------------- the deflater

  class Deflater {
    const P: Params
    const ctx: HdContext
    const chains: HdMap
    const limit: nat
    var minMax: nat
    var notify: bool
    ghost var Repr: set<object>

    ghost predicate Valid()
      reads this, ctx, ctx.buffer, chains, chains.table, ctx.entries
    {
      && this !in Repr && {ctx, ctx.buffer, chains, chains.table} <= Repr
      && (forall i :: 0 <= i < |ctx.entries| ==> ctx.entries[i] in Repr)
      && Sized(P) && ctx.Settled() && ctx.Indexed(chains) && Keyed(P, ctx.entries)
    }

    /** The abstract state between blocks. */
    ghost function State(): Enc
      reads this, ctx
    {
      Enc(ctx.Table(), ctx.bufsizeMax, limit, minMax, notify)
    }

    constructor (P: Params, maxTableSize: nat)
      requires Sized(P)
      ensures Valid() && State() == InitialEnc(maxTableSize) && !ctx.bad && this.P == P
      ensures fresh(Repr)
    {
      this.P := P;
      ctx := new HdContext(DEFAULT_TABLE_SIZE / ENTRY_OVERHEAD);
      chains := new HdMap();
      limit, minMax := maxTableSize, UINT32_MAX;
      notify := maxTableSize < DEFAULT_TABLE_SIZE;
      new;
      if maxTableSize < DEFAULT_TABLE_SIZE {
        ctx.bufsizeMax := maxTableSize;
      }
      Repr := {ctx, ctx.buffer, chains, chains.table};
    }

    /** Looks for a field in the dynamic table by its chain, then in the static table. */
    method SearchTable(f: Field, token: int, mode: Mode, hash: nat) returns (r: Found)
      requires Valid() && token == LookupToken(P, f.name) && hash == HashOf(P, f.name)
      ensures r == Search(P, ctx.Table(), f, mode)
    {
      hide HashOf, LookupToken, FindExact, FindName, StaticScan;
      var nameOnly := mode.NeverIndexing?;
      var ent, exact := chains.Find(P, f, token, hash, nameOnly, ctx.entries);
      if !exact && 0 <= token <= TOKEN_WWW_AUTHENTICATE {
        r := SearchStaticTable(P, f, token, nameOnly);
        return;
      }
      if ent == null {
        return Found(-1, false);
      }
      ghost var i := if exact then FindExact(ctx.Table(), f) else FindName(ctx.Table(), f.name);
      EntryCount(ctx.Table());
      NumberGivesIndex(ctx.entries, ctx.nextSeq, i);
      r := Found((ctx.nextSeq - 1 - ent.seqNo + STATIC_LENGTH) % UINT32_SIZE, exact);
    }

    /** Inserts a field into the table and its chain. */
    method Index(f: Field, token: int, hash: nat)
      requires Valid() && token == LookupToken(P, f.name) && hash == HashOf(P, f.name)
      modifies this`Repr, Repr
      ensures Valid() && fresh(Repr - old(Repr))
      ensures ctx.Table() == Insert(old(ctx.Table()), f, ctx.bufsizeMax)
      ensures ctx.bufsizeMax == old(ctx.bufsizeMax) && ctx.bad == old(ctx.bad)
    {
      hide HashOf, LookupToken, Insert, HdContext.Valid, HdContext.Indexed;
      ctx.AddIncremental(f, token, chains, hash);
      Repr := Repr + {ctx.buffer} + set i | 0 <= i < |ctx.entries| :: ctx.entries[i] as object;
    }

    /** Token and hash of a name, computed as the deflater does. */
    method NameKey(name: seq<byte>) returns (token: int, hash: nat)
      requires Sized(P)
      ensures token == LookupToken(P, name) && hash == HashOf(P, name)
    {
      hide NameHash;
      token := LookupToken(P, name);
      hash := 0;
      if token == -1 {
        var h := HashName(name);
        hash := h as nat;
      } else if token <= TOKEN_WWW_AUTHENTICATE {
        hash := P.statics[token].hash;
      }
    }

    /** Writes the representation the search calls for. */
    method Emit(bufs: Bufs, r: Found, f: Field, mode: Mode) returns (rv: int)
      requires Sized(P) && bufs.Valid() && bufs.offset < bufs.chunkLength
      requires r.index >= -1 && (r.exact ==> r.index >= 0)
      modifies bufs`chain, bufs`cur, bufs`chunkUsed
      ensures bufs.Valid() && bufs.Start() == old(bufs.Start())
      ensures Appended(old(bufs.Content()), old(bufs.Capacity()), Represent(P, r, f, mode),
                       bufs.Content(), bufs.Capacity(), rv)
    {
      hide Appended, StringBytes;
      if r.exact {
        rv := EmitInt(bufs, 128, r.index + 1, 7);
      } else if r.index == -1 {
        rv := EmitNewname(P, bufs, f, mode);
      } else {
        rv := EmitIndname(P, bufs, r.index, f.value, mode);
      }
    }

    /** Finds how to represent a field, then puts it in the table if it is to be indexed. */
    method Prepare(nv: Nv) returns (r: Found, mode: Mode)
      requires Valid()
      modifies this`Repr, Repr
      ensures Valid() && fresh(Repr - old(Repr)) && ctx.bad == old(ctx.bad)
      ensures mode == ModeOf(P, old(ctx.bufsizeMax), nv) && r == Search(P, old(ctx.Table()), nv.field, mode)
      ensures State() == old(State()).(table := FieldTable(P, old(ctx.Table()), old(ctx.bufsizeMax), nv))
    {
      hide Search, HashOf, LookupToken, Insert, ModeOf;
      var token, hash := NameKey(nv.field.name);
      mode := ModeOf(P, ctx.bufsizeMax, nv);
      r := SearchTable(nv.field, token, mode, hash);
      if !r.exact && mode.WithIndexing? {
        Index(nv.field, token, hash);
      }
    }

    /** One field: the table changes first, then the representation is written with the index found before. */
    method DeflateNv(bufs: Bufs, nv: Nv) returns (rv: int)
      requires Valid() && bufs.Valid() && bufs !in Repr && bufs.offset < bufs.chunkLength
      modifies this`Repr, Repr, bufs`chain, bufs`cur, bufs`chunkUsed
      ensures Valid() && fresh(Repr - old(Repr)) && bufs.Valid() && bufs !in Repr && bufs.Start() == old(bufs.Start())
      ensures State() == old(State()).(table := FieldTable(P, old(ctx.Table()), old(ctx.bufsizeMax), nv))
      ensures ctx.bad == old(ctx.bad)
      ensures Appended(old(bufs.Content()), old(bufs.Capacity()),
                       FieldBytes(P, old(ctx.Table()), old(ctx.bufsizeMax), nv), bufs.Content(), bufs.Capacity(), rv)
    {
      hide Appended, Search, Represent, FieldTable, ModeOf;
      ghost var t := ctx.Table();
      var r, mode := Prepare(nv);
      SearchLeadsBack(P, t, nv.field, mode);
      rv := Emit(bufs, r, nv.field, mode);
    }

    /** Field `i` of a list, after those before it. */
    method DeflateNext(bufs: Bufs, nvs: seq<Nv>, i: nat, ghost before: seq<byte>, ghost room: nat, ghost t: fields)
      returns (rv: int)
      requires Valid() && bufs.Valid() && bufs !in Repr && bufs.offset < bufs.chunkLength && i < |nvs|
      requires ctx.Table() == FieldsTable(P, t, ctx.bufsizeMax, nvs[..i])
      requires Appended(before, room, FieldsBytes(P, t, ctx.bufsizeMax, nvs[..i]), bufs.Content(), bufs.Capacity(), 0)
      modifies this`Repr, Repr, bufs`chain, bufs`cur, bufs`chunkUsed
      ensures Valid() && fresh(Repr - old(Repr)) && bufs.Valid() && bufs !in Repr && bufs.Start() == old(bufs.Start())
      ensures State() == old(State()).(table := ctx.Table()) && ctx.bad == old(ctx.bad)
      ensures ctx.Table() == FieldsTable(P, t, ctx.bufsizeMax, nvs[..i + 1])
      ensures Appended(before, room, FieldsBytes(P, t, ctx.bufsizeMax, if rv == 0 then nvs[..i + 1] else nvs),
                       bufs.Content(), bufs.Capacity(), rv)
    {
      hide Appended, FieldsBytes, FieldsTable, FieldBytes, FieldTable, Bufs.Valid;
      ghost var mid, left := bufs.Content(), bufs.Capacity();
      rv := DeflateNv(bufs, nvs[i]);
      Grown(before, room, t, ctx.bufsizeMax, nvs, i, mid, left, bufs.Content(), bufs.Capacity(), rv);
    }

    /** A list of fields, stopping at the first that does not fit the buffers. */
    method DeflateAll(bufs: Bufs, nvs: seq<Nv>) returns (rv: int)
      requires Valid() && bufs.Valid() && bufs !in Repr && bufs.offset < bufs.chunkLength
      modifies this`Repr, Repr, bufs`chain, bufs`cur, bufs`chunkUsed
      ensures Valid() && fresh(Repr - old(Repr)) && bufs.Valid() && bufs !in Repr && bufs.Start() == old(bufs.Start())
      ensures ctx.bad == old(ctx.bad) && State() == old(State()).(table := ctx.Table())
      ensures rv == 0 ==> ctx.Table() == FieldsTable(P, old(ctx.Table()), old(ctx.bufsizeMax), nvs)
      ensures Appended(old(bufs.Content()), old(bufs.Capacity()),
                       FieldsBytes(P, old(ctx.Table()), old(ctx.bufsizeMax), nvs), bufs.Content(), bufs.Capacity(), rv)
    {
      NothingYet(bufs.Content(), bufs.Capacity(), ctx.Table(), ctx.bufsizeMax);
      hide Valid, Bufs.Valid, Bufs.Content, Bufs.Capacity, Appended, FieldsBytes, FieldsTable;
      ghost var before, room, t := bufs.Content(), bufs.Capacity(), ctx.Table();
      rv := 0;
      assert nvs[..0] == [];
      for i := 0 to |nvs|
        invariant Valid() && fresh(Repr - old(Repr))
        invariant bufs.Valid() && bufs !in Repr && bufs.Start() == old(bufs.Start())
        invariant rv == 0 && State() == old(State()).(table := ctx.Table()) && ctx.bad == old(ctx.bad)
        invariant ctx.Table() == FieldsTable(P, t, ctx.bufsizeMax, nvs[..i])
        invariant Appended(before, room, FieldsBytes(P, t, ctx.bufsizeMax, nvs[..i]),
                           bufs.Content(), bufs.Capacity(), 0)
      {
        rv := DeflateNext(bufs, nvs, i, before, room, t);
        if rv != 0 {
          return;
        }
      }
      assert nvs[..|nvs|] == nvs;
    }

    lemma NothingYet(before: seq<byte>, room: nat, t: fields, max: nat)
      requires Sized(P)
      ensures FieldsTable(P, t, max, []) == t
      ensures Appended(before, room, FieldsBytes(P, t, max, []), before, room, 0)
    {
    }

    /** One more field of a list, written or cut short. */
    lemma Grown(before: seq<byte>, room: nat, t: fields, max: nat, nvs: seq<Nv>, i: nat,
                mid: seq<byte>, left: nat, after: seq<byte>, roomAfter: nat, rv: int)
      requires Sized(P) && i < |nvs|
      requires Appended(before, room, FieldsBytes(P, t, max, nvs[..i]), mid, left, 0)
      requires Appended(mid, left, FieldBytes(P, FieldsTable(P, t, max, nvs[..i]), max, nvs[i]), after, roomAfter, rv)
      ensures FieldsTable(P, t, max, nvs[..i + 1]) == FieldTable(P, FieldsTable(P, t, max, nvs[..i]), max, nvs[i])
      ensures Appended(before, room, FieldsBytes(P, t, max, if rv == 0 then nvs[..i + 1] else nvs),
                       after, roomAfter, rv)
    {
      hide FieldBytes, FieldTable, Appended;
      var t1 := FieldsTable(P, t, max, nvs[..i]);
      AppendedTwice(before, room, FieldsBytes(P, t, max, nvs[..i]), mid, left, FieldBytes(P, t1, max, nvs[i]),
                    after, roomAfter, rv);
      FieldsSnoc(P, t, max, nvs[..i], nvs[i]);
      assert nvs[..i + 1] == nvs[..i] + [nvs[i]];
      if rv != 0 {
        FieldsAppend(P, t, max, nvs[..i + 1], nvs[i + 1..]);
        assert nvs[..i + 1] + nvs[i + 1..] == nvs;
        AppendedFails(before, room, FieldsBytes(P, t, max, nvs[..i + 1]),
                      FieldsBytes(P, FieldsTable(P, t, max, nvs[..i + 1]), max, nvs[i + 1..]), after, roomAfter, rv);
      }
    }

    /** Size updates due at the head of a block. */
    method DeflateHead(bufs: Bufs) returns (rv: int)
      requires Valid() && bufs.Valid() && bufs !in Repr
      modifies this`minMax, this`notify, bufs`chain, bufs`cur, bufs`chunkUsed
      ensures Valid() && bufs.Valid() && bufs.Start() == old(bufs.Start())
      ensures State() == old(State()).(notify := false, minMax := if old(notify) then UINT32_MAX else old(minMax))
      ensures Appended(old(bufs.Content()), old(bufs.Capacity()), HeadBytes(old(State())),
                       bufs.Content(), bufs.Capacity(), rv)
    {
      hide SizeUpdate, Bufs.Valid, HdContext.Settled, HdContext.Indexed, Keyed;
      if !notify {
        assert bufs.Content() + [] == bufs.Content();
        return 0;
      }
      var least, final := minMax, ctx.bufsizeMax;
      notify, minMax := false, UINT32_MAX;
      rv := EmitSizes(bufs, least, final);
    }

    /**
     * One header block. When it fits the buffers it is written whole and the state moves on; otherwise the
     * deflater is marked unusable, and a deflater so marked refuses everything.
     */
    method DeflateBlock(bufs: Bufs, nvs: seq<Nv>) returns (rv: int)
      requires Valid() && bufs.Valid() && bufs !in Repr && bufs.offset < bufs.chunkLength
      modifies this`minMax, this`notify, this`Repr, Repr
      modifies bufs`chain, bufs`cur, bufs`chunkUsed
      ensures Valid() && fresh(Repr - old(Repr)) && bufs.Valid() && bufs !in Repr && bufs.Start() == old(bufs.Start())
      ensures old(ctx.bad) ==>
                rv == ERR_HEADER_COMP && ctx.bad && State() == old(State()) && bufs.chain == old(bufs.chain)
      ensures !old(ctx.bad) ==> Appended(old(bufs.Content()), old(bufs.Capacity()), BlockBytes(P, old(State()), nvs),
                                         bufs.Content(), bufs.Capacity(), rv)
      ensures !old(ctx.bad) && rv == 0 ==> State() == AfterBlock(P, old(State()), nvs) && !ctx.bad
      ensures !old(ctx.bad) && rv != 0 ==> ctx.bad
    {
      hide Appended, FieldsBytes, FieldsTable, HeadBytes, Bufs.Valid;
      if ctx.bad {
        return ERR_HEADER_COMP;
      }
      ghost var before, room, e := bufs.Content(), bufs.Capacity(), State();
      ghost var body := FieldsBytes(P, e.table, e.max, nvs);
      rv := DeflateHead(bufs);
      ghost var mid, left := bufs.Content(), bufs.Capacity();
      if rv != 0 {
        AppendedFails(before, room, HeadBytes(e), body, mid, left, rv);
        MarkBad();
        return;
      }
      rv := DeflateAll(bufs, nvs);
      AppendedTwice(before, room, HeadBytes(e), mid, left, body, bufs.Content(), bufs.Capacity(), rv);
      if rv != 0 {
        MarkBad();
      }
    }

    method MarkBad()
      requires Valid()
      modifies ctx`bad
      ensures Valid() && ctx.bad && State() == old(State())
    {
      ctx.bad := true;
    }

    /** The peer's limit changed: evict now, announce later. */
    method ChangeTableSize(settings: nat)
      requires Valid() && Min(settings, limit) <= UINT32_MAX
      modifies this`minMax, this`notify, Repr
      ensures Valid() && State() == ChangeSize(old(State()), settings) && ctx.bad == old(ctx.bad)
    {
      hide Fit, Min, HdContext.Valid, HdContext.Indexed;
      var next := Min(settings, limit);
      ctx.SetMax(next, chains);
      minMax := Min(minMax, next);
      notify := true;
      ctx.ShrinkTableSize(chains);
    }
  }
}
