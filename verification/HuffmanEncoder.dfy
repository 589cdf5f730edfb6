/** The Huffman encoder: code bits gathered at the top of a 64-bit accumulator and written out in octets. */
module HuffmanEncoder {
  import opened Bytes
  import opened Bits
  import opened HuffmanCode
  import opened Buffers

  /** `huff_sym_table[s].code`: the code's bits at the top of 32. */
  function SymCode(c: bits): nat
    requires |c| <= 32
  {
    ToNat(c + Zeros(32 - |c|))
  }

  ghost predicate CodesFit(h: Code) {
    |h.codes| == 257 && forall s :: 0 <= s < 257 ==> |h.codes[s]| <= 32
  }

  // ---------------------------------------------------------------- the accumulator

  /** The 64-bit accumulator holds the pending bits `p` at its top and zeros below. */
  ghost predicate Holding(code: nat, p: bits) {
    |p| <= 64 && code == ToNat(p + Zeros(64 - |p|))
  }

  /** Room for one more code: shifting it to just below the pending bits and adding it appends it. */
  lemma AddCode(code: nat, p: bits, c: bits)
    requires Holding(code, p) && |p| < 32 && |c| <= 32
    ensures Holding(code + SymCode(c) * Pow2(32 - |p|), p + c)
  {
    hide ToNat, Pow2;
    var m := 64 - |p|;
    var x := c + Zeros(32 - |c|) + Zeros(32 - |p|);
    ToNatShift(c + Zeros(32 - |c|), 32 - |p|);
    ToNatAppend(p, Zeros(m));
    ToNatZeros(m);
    ToNatAppend(p, x);
    assert p + x == (p + c) + Zeros(m - |c|);
  }

  /** Taking `k` bits off the top leaves the rest at the top after a 64-bit shift. */
  lemma TakeTop(code: nat, p: bits, k: nat)
    requires Holding(code, p) && k <= |p| && k in {8, 32}
    ensures Pow2(64 - k) == if k == 8 then 0x100_0000_0000_0000 else 0x1_0000_0000
    ensures Pow2(k) == if k == 8 then 256 else 0x1_0000_0000
    ensures code / Pow2(64 - k) == ToNat(p[..k])
    ensures Holding(code * Pow2(k) % UINT64_SIZE, p[k..])
  {
    hide ToNat, Pow2;
    var hi, lo := p[..k], p[k..] + Zeros(64 - |p|);
    Pow2Of64();
    Pow2Of8();
    assert p + Zeros(64 - |p|) == hi + lo;
    ToNatAppend(hi, lo);
    ToNatShift(lo, k);
    assert lo + Zeros(k) == p[k..] + Zeros(64 - |p[k..]|);
    if k == 8 {
      ModUnique(code, 0x100_0000_0000_0000, ToNat(hi), ToNat(lo));
      ModUnique(code * 256, UINT64_SIZE, ToNat(hi), ToNat(lo) * 256);
    } else {
      ModUnique(code, 0x1_0000_0000, ToNat(hi), ToNat(lo));
      ModUnique(code * 0x1_0000_0000, UINT64_SIZE, ToNat(hi), ToNat(lo) * 0x1_0000_0000);
    }
  }

  // ---------------------------------------------------------------- writing octets

  /** The octet at the top of the accumulator. */
  function TopByte(code: nat): byte
    requires code < UINT64_SIZE
  {
    code / 0x100_0000_0000_0000
  }

  /** The four octets of a 32-bit number, most significant first, as `htonl` lays them out. */
  function NetworkOrder(x: nat): (r: seq<byte>)
    requires x < 0x1_0000_0000
    ensures |r| == 4
  {
    [x / 0x100_0000, x / 0x1_0000 % 256, x / 0x100 % 256, x % 256]
  }

  lemma HeldBelow(code: nat, p: bits)
    requires Holding(code, p)
    ensures code < UINT64_SIZE
  {
    Pow2Of64();
    assert |p + Zeros(64 - |p|)| == 64;
  }

  lemma TopByteIsPacked(code: nat, p: bits)
    requires Holding(code, p) && |p| >= 8
    ensures code < UINT64_SIZE && [TopByte(code)] == Pack(p[..8])
    ensures Pow2(8) == 256 && Holding(code * 256 % UINT64_SIZE, p[8..])
  {
    HeldBelow(code, p);
    TakeTop(code, p, 8);
    Pow2Of64();
    Pow2Of8();
    assert p[..8][..8] == p[..8] && p[..8][8..] == [];
  }

  /** A last partial octet, its free low bits set to ones. */
  lemma LastByteIsPacked(code: nat, p: bits, n: nat)
    requires Holding(code, p) && |p| > 0 && n > 0 && |p| + n == 8
    ensures code < UINT64_SIZE && TopByte(code) + (Pow2(n) - 1) < 256
    ensures [TopByte(code) + (Pow2(n) - 1)] == Pack(p)
  {
    HeldBelow(code, p);
    var v := TopByte(code) + (Pow2(n) - 1);
    assert v == ToNat(p + Ones(n)) by {
      PaddedValue(p, n);
      HeldShort(code, p, n);
    }
    PackShort(p, n);
  }

  lemma PackShort(p: bits, n: nat)
    requires |p| > 0 && n > 0 && |p| + n == 8
    ensures ToNat(p + Ones(n)) < 256 && Pack(p) == [ToNat(p + Ones(n))]
  {
    Pow2Of8();
  }

  lemma HeldShort(code: nat, p: bits, n: nat)
    requires Holding(code, p) && |p| + n == 8
    ensures code / 0x100_0000_0000_0000 == ToNat(p) * Pow2(n)
  {
    Pow2Of64();
    var top := p + Zeros(n);
    ToNatShift(p, n);
    ToNatShift(top, 56);
    assert top + Zeros(56) == p + Zeros(64 - |p|);
    ModUnique(code, 0x100_0000_0000_0000, ToNat(top), 0);
  }

  lemma PaddedValue(p: bits, n: nat)
    ensures ToNat(p + Ones(n)) == ToNat(p) * Pow2(n) + (Pow2(n) - 1)
  {
    ToNatAppend(p, Ones(n));
    ToNatOnes(n);
  }

  lemma FourBytes(p: bits)
    requires |p| == 32
    ensures ToNat(p) < 0x1_0000_0000 && NetworkOrder(ToNat(p)) == Pack(p)
  {
    var a, b, c, d := p[..8], p[8..16], p[16..24], p[24..];
    assert p == a + b + c + d;
    PackAppend(a + b + c, d);
    PackAppend(a + b, c);
    PackAppend(a, b);
    PackOctet(a);
    PackOctet(b);
    PackOctet(c);
    PackOctet(d);
    FourValues(a, b, c, d);
    FourDigits(ToNat(a), ToNat(b), ToNat(c), ToNat(d));
  }

  lemma FourValues(a: bits, b: bits, c: bits, d: bits)
    requires |a| == |b| == |c| == |d| == 8
    ensures ToNat(a + b + c + d) == ((ToNat(a) * 256 + ToNat(b)) * 256 + ToNat(c)) * 256 + ToNat(d)
  {
    AppendOctet(a, b);
    AppendOctet(a + b, c);
    AppendOctet(a + b + c, d);
  }

  lemma AppendOctet(a: bits, b: bits)
    requires |b| == 8
    ensures ToNat(a + b) == ToNat(a) * 256 + ToNat(b)
  {
    ToNatAppend(a, b);
    Pow2Of8();
  }

  lemma FourDigits(a: nat, b: nat, c: nat, d: nat)
    requires a < 256 && b < 256 && c < 256 && d < 256
    ensures var x := ((a * 256 + b) * 256 + c) * 256 + d;
            x < 0x1_0000_0000 && NetworkOrder(x) == [a, b, c, d]
  {
    var x := ((a * 256 + b) * 256 + c) * 256 + d;
    assert x / 0x100 == (a * 256 + b) * 256 + c && x / 0x1_0000 == a * 256 + b && x / 0x100_0000 == a;
  }

  lemma PackOctet(a: bits)
    requires |a| == 8
    ensures Pack(a) == [ByteOf(a)] && ByteOf(a) == ToNat(a)
  {
    assert a[..8] == a && a[8..] == [];
  }

  /** Octets written so far and pending bits together spell the code bits of what has been read. */
  ghost predicate Progress(h: Code, done: seq<byte>, p: bits, read: seq<byte>)
    requires |h.codes| == 257
  {
    BitsOf(done) + p == CodeBits(h, read)
  }

  lemma Written(h: Code, done: seq<byte>, p: bits, read: seq<byte>, j: nat)
    requires |h.codes| == 257 && Progress(h, done, p, read) && 8 * j <= |p|
    ensures Progress(h, done + Pack(p[..8 * j]), p[8 * j..], read)
  {
    hide BitsOf, Pack, CodeBits;
    var k := 8 * j;
    var top := p[..k];
    BitsOfAppend(done, Pack(top));
    WholeOctets(top, j);
    assert p == top + p[k..];
    assert (BitsOf(done) + top) + p[k..] == BitsOf(done) + p;
  }

  lemma {:induction false} WholeOctets(s: bits, j: nat)
    requires |s| == 8 * j
    ensures BitsOf(Pack(s)) == s
    decreases j
  {
    if j > 0 {
      ByteOfBits(s[..8]);
      WholeOctets(s[8..], j - 1);
      assert Pack(s)[1..] == Pack(s[8..]);
      assert s == s[..8] + s[8..];
    }
  }

  /** With everything read, what is written followed by the padded rest is the encoding. */
  lemma Finished(h: Code, done: seq<byte>, p: bits, src: seq<byte>)
    requires |h.codes| == 257 && Progress(h, done, p, src)
    ensures done + Pack(p) == Encode(h, src)
  {
    PackAppend(BitsOf(done), p);
    PackBytes(done);
  }

  lemma {:induction false} PackBytes(s: seq<byte>)
    ensures Pack(BitsOf(s)) == s
  {
    if s != [] {
      var b := BitsOf(s);
      assert b[..8] == ByteBits(s[0]) && b[8..] == BitsOf(s[1..]);
      ByteValue(s[0]);
      PackBytes(s[1..]);
    }
  }

  /** What has been written is the beginning of the encoding. */
  lemma WrittenIsPrefix(h: Code, done: seq<byte>, p: bits, src: seq<byte>, i: nat)
    requires |h.codes| == 257 && i <= |src| && Progress(h, done, p, src[..i])
    ensures Encode(h, src) == done + Pack(p + CodeBits(h, src[i..]))
  {
    assert src == src[..i] + src[i..];
    CodeBitsAppend(h, src[..i], src[i..]);
    var rest := p + CodeBits(h, src[i..]);
    assert CodeBits(h, src) == BitsOf(done) + rest;
    PackAppend(BitsOf(done), rest);
    PackBytes(done);
  }

  lemma ReadOne(h: Code, done: seq<byte>, p: bits, src: seq<byte>, i: nat)
    requires |h.codes| == 257 && i < |src| && Progress(h, done, p, src[..i])
    ensures Progress(h, done, p + h.codes[src[i]], src[..i + 1])
  {
    assert src[..i + 1] == src[..i] + [src[i]];
    CodeBitsAppend(h, src[..i], [src[i]]);
    var none: bits := [];
    assert [src[i]][1..] == [] && h.codes[src[i]] + none == h.codes[src[i]];
    assert BitsOf(done) + (p + h.codes[src[i]]) == (BitsOf(done) + p) + h.codes[src[i]];
  }

  /** Number of octets the encoding will take. */
  method EncodeCount(h: Code, src: seq<byte>) returns (n: nat)
    requires |h.codes| == 257
    ensures n == |Encode(h, src)|
  {
    var nbits := 0;
    for i := 0 to |src|
      invariant nbits == |CodeBits(h, src[..i])|
    {
      assert src[..i + 1] == src[..i] + [src[i]];
      CodeBitsAppend(h, src[..i], [src[i]]);
      assert [src[i]][1..] == [];
      nbits := nbits + |h.codes[src[i]]|;
    }
    assert src[..|src|] == src;
    return (nbits + 7) / 8;
  }

  /** Writes the octet at the top of the accumulator: number `j` of the `t` whole ones that are pending. */
  method WriteTop(bufs: Bufs, code: nat, ghost p: bits, ghost j: nat, ghost t: nat,
                  ghost before: seq<byte>, ghost room: nat, ghost sofar: seq<byte>)
    returns (rv: int, rest: nat)
    requires bufs.Valid() && bufs.offset < bufs.chunkLength
    requires j < t && 8 * t <= |p| && Holding(code, p[8 * j..])
    requires Appended(before, room, sofar + Pack(p[..8 * j]), bufs.Content(), bufs.Capacity(), 0)
    modifies bufs`chain, bufs`cur, bufs`chunkUsed
    ensures bufs.Valid() && bufs.Start() == old(bufs.Start())
    ensures Holding(rest, p[8 * (j + 1)..])
    ensures Appended(before, room, sofar + Pack(p[..8 * (if rv == 0 then j + 1 else t)]),
                     bufs.Content(), bufs.Capacity(), rv)
  {
    ghost var q := p[8 * j..];
    var b;
    b, rest := TakeOctet(code, q);
    NextOctet(p, j, t, sofar);
    ghost var mid, left := bufs.Content(), bufs.Capacity();
    var inside;
    rv, inside := bufs.Addb(b);
    AppendedTwice(before, room, sofar + Pack(p[..8 * j]), mid, left, Pack(q[..8]), bufs.Content(), bufs.Capacity(), rv);
    if rv != 0 {
      AppendedFails(before, room, sofar + Pack(p[..8 * (j + 1)]), Pack(p[8 * (j + 1)..8 * t]),
                    bufs.Content(), bufs.Capacity(), rv);
    }
  }

  /** Writes whole octets from the top of the accumulator, `t` of them. */
  method WriteOctets(bufs: Bufs, code0: nat, nbits0: nat, ghost p: bits, ghost t: nat,
                     ghost before: seq<byte>, ghost room: nat, ghost sofar: seq<byte>)
    returns (rv: int, code: nat, nbits: nat)
    requires bufs.Valid() && bufs.offset < bufs.chunkLength
    requires Holding(code0, p) && |p| == nbits0 && 8 * t <= nbits0 < 8 * t + 8
    requires Appended(before, room, sofar, bufs.Content(), bufs.Capacity(), 0)
    modifies bufs`chain, bufs`cur, bufs`chunkUsed
    ensures bufs.Valid() && bufs.Start() == old(bufs.Start())
    ensures Appended(before, room, sofar + Pack(p[..8 * t]), bufs.Content(), bufs.Capacity(), rv)
    ensures rv == 0 ==> nbits == nbits0 - 8 * t && Holding(code, p[8 * t..])
  {
    code, nbits, rv := code0, nbits0, 0;
    ghost var j := 0;
    assert p[0..] == p && sofar + Pack(p[..0]) == sofar;
    while nbits >= 8
      invariant j <= t && nbits == nbits0 - 8 * j
      invariant bufs.Valid() && bufs.Start() == old(bufs.Start())
      invariant Holding(code, p[8 * j..])
      invariant rv == 0 && Appended(before, room, sofar + Pack(p[..8 * j]), bufs.Content(), bufs.Capacity(), 0)
    {
      rv, code := WriteTop(bufs, code, p, j, t, before, room, sofar);
      if rv != 0 {
        return;
      }
      nbits := nbits - 8;
      j := j + 1;
    }
    assert j == t;
  }

  lemma NextOctet(p: bits, j: nat, t: nat, sofar: seq<byte>)
    requires j < t && 8 * t <= |p|
    ensures sofar + Pack(p[..8 * (j + 1)]) == (sofar + Pack(p[..8 * j])) + Pack(p[8 * j..][..8])
    ensures sofar + Pack(p[..8 * t]) == (sofar + Pack(p[..8 * (j + 1)])) + Pack(p[8 * (j + 1)..8 * t])
    ensures p[8 * j..][8..] == p[8 * (j + 1)..]
  {
    hide Pack;
    var k := 8 * j;
    assert p[..k + 8] == p[..k] + p[k..][..8];
    PackAppend(p[..k], p[k..][..8]);
    assert p[..8 * t] == p[..k + 8] + p[k + 8..8 * t];
    PackAppend(p[..k + 8], p[k + 8..8 * t]);
  }

  /** A code joins the pending bits; the fields do not overlap, so adding is or-ing. */
  method Gather(code: nat, nbits: nat, c: bits, ghost p: bits) returns (r: nat)
    requires Holding(code, p) && |p| == nbits < 32 && |c| <= 32
    ensures Holding(r, p + c)
  {
    AddCode(code, p, c);
    r := code + SymCode(c) * Pow2(32 - nbits);
  }

  /** The top 32 bits as four octets, and the accumulator without them. */
  method TakeFour(code: nat, ghost p: bits) returns (four: seq<byte>, rest: nat)
    requires Holding(code, p) && |p| >= 32
    ensures |four| == 4 && four == Pack(p[..32]) && Holding(rest, p[32..])
  {
    TakeTop(code, p, 32);
    Pow2Of64();
    FourBytes(p[..32]);
    four := NetworkOrder(code / 0x1_0000_0000);
    rest := code * 0x1_0000_0000 % UINT64_SIZE;
  }

  /** The top octet, and the accumulator without it. */
  method TakeOctet(code: nat, ghost p: bits) returns (b: byte, rest: nat)
    requires Holding(code, p) && |p| >= 8
    ensures [b] == Pack(p[..8]) && Holding(rest, p[8..])
  {
    TopByteIsPacked(code, p);
    b := TopByte(code);
    rest := code * 256 % UINT64_SIZE;
  }

  /** A partial octet with its free low bits set. */
  method TakeLast(code: nat, nbits: nat, ghost p: bits) returns (b: byte)
    requires Holding(code, p) && 0 < |p| == nbits < 8
    ensures [b] == Pack(p)
  {
    LastByteIsPacked(code, p, 8 - nbits);
    b := TopByte(code) + (Pow2(8 - nbits) - 1);
  }

  /** The fast path: four octets at once into the current chunk. */
  method WriteFour(bufs: Bufs, code: nat, ghost p: bits,
                   ghost before: seq<byte>, ghost room: nat, ghost sofar: seq<byte>)
    returns (rest: nat)
    requires bufs.Valid() && bufs.CurAvail() >= 4
    requires Holding(code, p) && |p| >= 32
    requires Appended(before, room, sofar, bufs.Content(), bufs.Capacity(), 0)
    modifies bufs`chain, bufs`cur, bufs`chunkUsed
    ensures bufs.Valid() && bufs.Start() == old(bufs.Start())
    ensures bufs.CurAvail() == old(bufs.CurAvail()) - 4
    ensures Holding(rest, p[32..])
    ensures Appended(before, room, sofar + Pack(p[..32]), bufs.Content(), bufs.Capacity(), 0)
  {
    var four;
    four, rest := TakeFour(code, p);
    ghost var mid, left := bufs.Content(), bufs.Capacity();
    bufs.Write(four);
    AppendedTwice(before, room, sofar, mid, left, four, bufs.Content(), bufs.Capacity(), 0);
  }

  /** Puts out as much of the pending bits as the path taken allows; fewer than 32 remain. */
  method Flush(bufs: Bufs, code0: nat, nbits0: nat, avail0: nat, ghost p: bits,
               ghost before: seq<byte>, ghost room: nat, ghost sofar: seq<byte>)
    returns (rv: int, code: nat, nbits: nat, avail: nat, ghost j: nat)
    requires bufs.Valid() && bufs.offset < bufs.chunkLength && avail0 == bufs.CurAvail()
    requires Holding(code0, p) && 32 <= |p| == nbits0 < 64
    requires Appended(before, room, sofar, bufs.Content(), bufs.Capacity(), 0)
    modifies bufs`chain, bufs`cur, bufs`chunkUsed
    ensures bufs.Valid() && bufs.Start() == old(bufs.Start())
    ensures nbits0 - 32 <= 8 * j <= nbits0
    ensures Appended(before, room, sofar + Pack(p[..8 * j]), bufs.Content(), bufs.Capacity(), rv)
    ensures rv == 0 ==> nbits == nbits0 - 8 * j && nbits < 32 && Holding(code, p[8 * j..]) && avail == bufs.CurAvail()
  {
    hide Holding, Pack, Appended;
    if avail0 >= 4 {
      code := WriteFour(bufs, code0, p, before, room, sofar);
      return 0, code, nbits0 - 32, avail0 - 4, 4;
    }
    j := nbits0 / 8;
    rv, code, nbits := WriteOctets(bufs, code0, nbits0, p, j, before, room, sofar);
    avail := bufs.CurAvail();
  }

  /** An error in the middle: what got out is the beginning of the encoding, cut where the room ended. */
  lemma StoppedEarly(h: Code, done: seq<byte>, p: bits, src: seq<byte>, i: nat,
                     before: seq<byte>, room: nat, after: seq<byte>, roomAfter: nat, rv: int)
    requires |h.codes| == 257 && i <= |src| && Progress(h, done, p, src[..i])
    requires rv != 0 && Appended(before, room, done, after, roomAfter, rv)
    ensures Appended(before, room, Encode(h, src), after, roomAfter, rv)
  {
    WrittenIsPrefix(h, done, p, src, i);
    AppendedFails(before, room, done, Pack(p + CodeBits(h, src[i..])), after, roomAfter, rv);
  }

  lemma PackNothing()
    ensures Pack([]) == []
  {
  }

  /** The end of the string: whole octets, then the rest filled up with ones. */
  method WriteRest(h: Code, bufs: Bufs, code0: nat, nbits0: nat, src: seq<byte>, ghost p: bits,
                   ghost before: seq<byte>, ghost room: nat, ghost sofar: seq<byte>)
    returns (rv: int)
    requires |h.codes| == 257 && bufs.Valid() && bufs.offset < bufs.chunkLength
    requires Holding(code0, p) && |p| == nbits0 && Progress(h, sofar, p, src)
    requires Appended(before, room, sofar, bufs.Content(), bufs.Capacity(), 0)
    modifies bufs`chain, bufs`cur, bufs`chunkUsed
    ensures bufs.Valid() && bufs.Start() == old(bufs.Start())
    ensures Appended(before, room, Encode(h, src), bufs.Content(), bufs.Capacity(), rv)
  {
    hide Holding, Progress, Encode, Pack, CodeBits, SymCode, Pow2;
    ghost var t := nbits0 / 8;
    var code, nbits;
    rv, code, nbits := WriteOctets(bufs, code0, nbits0, p, t, before, room, sofar);
    ghost var q, done := p[8 * t..], sofar + Pack(p[..8 * t]);
    Written(h, sofar, p, src, t);
    assert src[..|src|] == src;
    if rv != 0 {
      StoppedEarly(h, done, q, src, |src|, before, room, bufs.Content(), bufs.Capacity(), rv);
      return;
    }
    Finished(h, done, q, src);
    if nbits > 0 {
      var b := TakeLast(code, nbits, q);
      ghost var mid, left := bufs.Content(), bufs.Capacity();
      var inside;
      rv, inside := bufs.Addb(b);
      AppendedTwice(before, room, done, mid, left, Pack(q), bufs.Content(), bufs.Capacity(), rv);
    } else {
      PackNothing();
      assert done + Pack(q) == done;
    }
  }

  lemma InitiallyEmpty(h: Code)
    requires |h.codes| == 257
    ensures Holding(0, []) && Progress(h, [], [], [])
  {
    ToNatZeros(64);
    assert [] + Zeros(64) == Zeros(64);
  }

  /** Writes the encoding of `src`, whichever way its octets leave and wherever the chunks end. */
  method HuffEncode(h: Code, bufs: Bufs, src: seq<byte>) returns (rv: int)
    requires CodesFit(h) && bufs.Valid() && bufs.offset < bufs.chunkLength
    modifies bufs`chain, bufs`cur, bufs`chunkUsed
    ensures bufs.Valid() && bufs.Start() == old(bufs.Start())
    ensures Appended(old(bufs.Content()), old(bufs.Capacity()), Encode(h, src), bufs.Content(), bufs.Capacity(), rv)
  {
    InitiallyEmpty(h);
    hide Holding, Progress, Encode, Pack, CodeBits, SymCode, Pow2;
    var code: nat, nbits: nat, avail: nat := 0, 0, bufs.CurAvail();
    ghost var before, room := bufs.Content(), bufs.Capacity();
    ghost var sofar: seq<byte>, p: bits := [], [];
    assert before + sofar == before && src[..0] == [];
    rv := 0;
    for i := 0 to |src|
      invariant bufs.Valid() && bufs.Start() == old(bufs.Start())
      invariant avail == bufs.CurAvail() && |p| == nbits < 32 && Holding(code, p)
      invariant Progress(h, sofar, p, src[..i])
      invariant Appended(before, room, sofar, bufs.Content(), bufs.Capacity(), 0)
    {
      var c := h.codes[src[i]];
      ReadOne(h, sofar, p, src, i);
      code := Gather(code, nbits, c, p);
      nbits := nbits + |c|;
      p := p + c;
      if nbits < 32 {
        continue;
      }
      ghost var j;
      rv, code, nbits, avail, j := Flush(bufs, code, nbits, avail, p, before, room, sofar);
      Written(h, sofar, p, src[..i + 1], j);
      if rv != 0 {
        StoppedEarly(h, sofar + Pack(p[..8 * j]), p[8 * j..], src, i + 1,
                     before, room, bufs.Content(), bufs.Capacity(), rv);
        return;
      }
      sofar, p := sofar + Pack(p[..8 * j]), p[8 * j..];
    }
    assert src[..|src|] == src;
    rv := WriteRest(h, bufs, code, nbits, src, p, before, room, sofar);
  }
}
