/** Chunked output buffers (`nghttp2_bufs`): a chain of fixed-size chunks that behaves as one growing octet string. */
module Buffers {
  import opened Bytes

  const ERR_INVALID_ARGUMENT := -501
  const ERR_BUFFER_ERROR := -502

  /** One chunk of memory; `[pos, last)` is its content and `[last, |mem|)` is free. */
  datatype Chunk = Chunk(mem: seq<byte>, pos: nat, last: nat) {
    predicate Ordered() {
      pos <= last <= |mem|
    }

    function Avail(): nat
      requires Ordered()
    {
      |mem| - last
    }

    function Content(): seq<byte>
      requires Ordered()
    {
      mem[pos..last]
    }

    /** Octets copied into the free space. */
    function Put(data: seq<byte>): (c: Chunk)
      requires Ordered() && |data| <= Avail()
      ensures c.Ordered() && c.Content() == Content() + data
      ensures c.pos == pos && c.last == last + |data| && |c.mem| == |mem|
    {
      var m := mem[..last] + data + mem[last + |data|..];
      assert m[pos..last + |data|] == mem[pos..last] + data;
      Chunk(m, pos, last + |data|)
    }
  }

  function FreshChunk(size: nat, offset: nat): Chunk {
    Chunk(seq(size, _ => 0), offset, offset)
  }

  predicate AllOrdered(c: seq<Chunk>) {
    forall i :: 0 <= i < |c| ==> c[i].Ordered()
  }

  /** The octets held by a chain. */
  function Text(c: seq<Chunk>): seq<byte>
    requires AllOrdered(c)
  {
    if c == [] then [] else c[0].Content() + Text(c[1..])
  }

  lemma {:induction false} TextAppend(a: seq<Chunk>, b: seq<Chunk>)
    requires AllOrdered(a) && AllOrdered(b)
    ensures AllOrdered(a + b) && Text(a + b) == Text(a) + Text(b)
    decreases |a|
  {
    if a == [] {
      assert a + b == b;
    } else {
      assert (a + b)[0] == a[0] && (a + b)[1..] == a[1..] + b;
      TextAppend(a[1..], b);
      assert a[0].Content() + (Text(a[1..]) + Text(b)) == (a[0].Content() + Text(a[1..])) + Text(b);
    }
  }

  lemma {:induction false} TextOfEmpty(c: seq<Chunk>)
    requires AllOrdered(c) && forall i :: 0 <= i < |c| ==> c[i].pos == c[i].last
    ensures Text(c) == []
    decreases |c|
  {
    if c != [] {
      TextOfEmpty(c[1..]);
    }
  }

  /** Appending to a chunk after which all are empty appends to the text. */
  lemma TextPut(c: seq<Chunk>, k: nat, data: seq<byte>)
    requires AllOrdered(c) && k < |c| && |data| <= c[k].Avail()
    requires forall i :: k < i < |c| ==> c[i].pos == c[i].last
    ensures AllOrdered(c[k := c[k].Put(data)]) && Text(c[k := c[k].Put(data)]) == Text(c) + data
  {
    var d := c[k := c[k].Put(data)];
    UpTo(c, k);
    UpTo(d, k);
    assert d[..k] == c[..k];
    assert Text(c[..k]) + (c[k].Content() + data) == (Text(c[..k]) + c[k].Content()) + data;
  }

  lemma UpTo(c: seq<Chunk>, k: nat)
    requires AllOrdered(c) && k < |c|
    requires forall i :: k < i < |c| ==> c[i].pos == c[i].last
    ensures Text(c) == Text(c[..k]) + c[k].Content()
  {
    var rest := c[k + 1..];
    TextOfEmpty(rest);
    Cons(c[k], rest);
    TextAppend(c[..k], [c[k]] + rest);
    Around(c, k);
  }

  lemma Around(c: seq<Chunk>, k: nat)
    requires k < |c|
    ensures c == c[..k] + ([c[k]] + c[k + 1..])
  {
  }

  lemma Cons(h: Chunk, t: seq<Chunk>)
    requires h.Ordered() && AllOrdered(t)
    ensures AllOrdered([h] + t) && Text([h] + t) == h.Content() + Text(t)
    ensures Text(t) == [] ==> Text([h] + t) == h.Content()
  {
    assert ([h] + t)[1..] == t;
  }

  /**
   * `data` was appended to a content with room for `room` octets: all of it if it fits, and otherwise as much
   * as fits, with an error.
   */
  ghost predicate Appended(before: seq<byte>, room: nat, data: seq<byte>, after: seq<byte>, roomAfter: nat, rv: int) {
    if |data| <= room then rv == 0 && after == before + data && roomAfter == room - |data|
    else rv == ERR_BUFFER_ERROR && after == before + data[..room] && roomAfter == 0
  }

  lemma AppendedTwice(before: seq<byte>, room: nat, d1: seq<byte>, mid: seq<byte>, roomMid: nat,
                      d2: seq<byte>, after: seq<byte>, roomAfter: nat, rv: int)
    requires Appended(before, room, d1, mid, roomMid, 0) && Appended(mid, roomMid, d2, after, roomAfter, rv)
    ensures Appended(before, room, d1 + d2, after, roomAfter, rv)
  {
    if |d1 + d2| > room {
      assert (d1 + d2)[..room] == d1 + d2[..roomMid];
    }
  }

  lemma AppendedFails(before: seq<byte>, room: nat, d1: seq<byte>, d2: seq<byte>,
                      after: seq<byte>, roomAfter: nat, rv: int)
    requires rv != 0 && Appended(before, room, d1, after, roomAfter, rv)
    ensures Appended(before, room, d1 + d2, after, roomAfter, rv)
  {
    assert (d1 + d2)[..room] == d1[..room];
  }

  function Times(a: int, b: nat): int {
    a * b
  }

  lemma TimesStep(a: int, b: nat)
    ensures a > 0 ==> Times(a, b) == b + Times(a - 1, b)
    ensures a >= 0 ==> Times(a, b) >= 0
    ensures Times(0, b) == 0
  {
  }

  class Bufs {
    var chain: seq<Chunk>
    var cur: nat
    const offset: nat
    const chunkLength: nat
    var chunkUsed: nat
    const maxChunk: nat
    const chunkKeep: nat

    ghost predicate Valid()
      reads this
    {
      && AllOrdered(chain) && offset <= chunkLength && 0 < chunkKeep <= maxChunk
      && cur < |chain| == chunkUsed <= maxChunk
      && (forall i :: 0 <= i < |chain| ==> |chain[i].mem| == chunkLength)
      && (forall i :: 0 <= i < cur ==> chain[i].last == chunkLength)
      && (forall i :: 0 < i < |chain| ==> chain[i].pos == offset)
      && (forall i :: cur < i < |chain| ==> chain[i].pos == chain[i].last)
    }

    /** Where the content of the first chunk begins; the other chunks' begins at the offset. */
    function Start(): nat
      requires Valid()
      reads this
    {
      chain[0].pos
    }

    /** Everything written so far. */
    ghost function Content(): seq<byte>
      requires Valid()
      reads this
    {
      Text(chain)
    }

    function CurAvail(): nat
      requires Valid()
      reads this
    {
      chain[cur].Avail()
    }

    /** Octets that can still be written. */
    ghost function Capacity(): nat
      requires Valid()
      reads this
    {
      TimesStep(maxChunk - cur - 1, chunkLength - offset);
      CurAvail() + Times(maxChunk - cur - 1, chunkLength - offset)
    }

    constructor (chunkLength: nat, maxChunk: nat, chunkKeep: nat, offset: nat)
      requires 0 < chunkKeep <= maxChunk && offset <= chunkLength
      ensures Valid() && Content() == [] && cur == 0 && Start() == offset
      ensures this.chunkLength == chunkLength && this.maxChunk == maxChunk
      ensures this.offset == offset && this.chunkKeep == chunkKeep
    {
      this.chunkLength, this.maxChunk, this.chunkKeep, this.offset := chunkLength, maxChunk, chunkKeep, offset;
      chain, cur, chunkUsed := [FreshChunk(chunkLength, offset)], 0, 1;
      new;
      TextOfEmpty(chain);
    }

    /** Copies octets into the free space of the current chunk. */
    method Write(data: seq<byte>)
      requires Valid() && |data| <= CurAvail()
      modifies this`chain
      ensures Valid() && Content() == old(Content()) + data
      ensures Capacity() == old(Capacity()) - |data| && CurAvail() == old(CurAvail()) - |data|
      ensures Start() == old(Start())
    {
      TextPut(chain, cur, data);
      chain := chain[cur := chain[cur].Put(data)];
    }

    /** Moves on to the next chunk, making one if the chain may still grow. */
    method AllocChain() returns (rv: int)
      requires Valid() && CurAvail() == 0
      modifies this`chain, this`cur, this`chunkUsed
      ensures Valid() && Content() == old(Content()) && Capacity() == old(Capacity()) && Start() == old(Start())
      ensures if old(cur) + 1 < maxChunk then rv == 0 && cur == old(cur) + 1
              else rv == ERR_BUFFER_ERROR && cur == old(cur) && Capacity() == 0
      ensures rv == 0 ==> CurAvail() == chunkLength - offset
    {
      hide Text, Times;
      TimesStep(maxChunk - cur - 1, chunkLength - offset);
      if cur + 1 < |chain| {
        cur := cur + 1;
        return 0;
      }
      if maxChunk == chunkUsed {
        return ERR_BUFFER_ERROR;
      }
      var c := FreshChunk(chunkLength, offset);
      TextOfEmpty([c]);
      TextAppend(chain, [c]);
      chunkUsed := chunkUsed + 1;
      chain := chain + [c];
      cur := cur + 1;
      return 0;
    }

    /**
     * Appends `data`. It succeeds exactly when there is room; otherwise as much of it as fits has been
     * appended, the chain has its full length and no chunk has room left.
     */
    method Add(data: seq<byte>) returns (rv: int)
      requires Valid()
      modifies this`chain, this`cur, this`chunkUsed
      ensures Valid() && Start() == old(Start())
      ensures Appended(old(Content()), old(Capacity()), data, Content(), Capacity(), rv)
    {
      var i := 0;
      while i < |data|
        invariant 0 <= i <= |data| && Valid() && Start() == old(Start())
        invariant Content() == old(Content()) + data[..i] && Capacity() == old(Capacity()) - i
        decreases |data| - i, maxChunk - cur
      {
        var nwrite := Min(CurAvail(), |data| - i);
        if nwrite == 0 {
          rv := AllocChain();
          if rv != 0 {
            return rv;
          }
          continue;
        }
        Write(data[i..i + nwrite]);
        assert data[..i + nwrite] == data[..i] + data[i..i + nwrite];
        i := i + nwrite;
      }
      assert data[..i] == data;
      return 0;
    }

    /** Whether an octet written next finds a place in its chunk, unless the chain is exhausted. */
    predicate KeepsInside()
      requires Valid()
      reads this
    {
      CurAvail() > 0 || cur + 1 == maxChunk || offset < chunkLength
    }

    /** Makes sure of room for one octet; a new chunk has none if the offset takes up its whole length. */
    method EnsureAddb() returns (rv: int)
      requires Valid()
      modifies this`chain, this`cur, this`chunkUsed
      ensures Valid() && Content() == old(Content()) && Capacity() == old(Capacity()) && Start() == old(Start())
      ensures rv == if old(CurAvail() > 0 || cur + 1 < maxChunk) then 0 else ERR_BUFFER_ERROR
      ensures rv != 0 ==> Capacity() == 0
      ensures rv == 0 ==> (CurAvail() > 0 <==> old(KeepsInside()))
    {
      if CurAvail() > 0 {
        return 0;
      }
      rv := AllocChain();
    }

    /**
     * Appends one octet. `inside` says whether it stays in its chunk; otherwise it is written one past the chunk's end
     * and is no part of the content.
     */
    method Addb(b: byte) returns (rv: int, inside: bool)
      requires Valid()
      modifies this`chain, this`cur, this`chunkUsed
      ensures Valid() && Start() == old(Start())
      ensures inside <==> old(KeepsInside())
      ensures inside ==> Appended(old(Content()), old(Capacity()), [b], Content(), Capacity(), rv)
      ensures !inside ==> rv == 0 && Content() == old(Content()) && CurAvail() == 0
    {
      rv := EnsureAddb();
      inside := true;
      if rv != 0 {
        return;
      }
      if CurAvail() == 0 {
        inside := false;
        return;
      }
      Write([b]);
    }

    /** Number of octets held. */
    method Len() returns (n: nat)
      requires Valid()
      ensures n == |Content()|
    {
      n := 0;
      for i := 0 to |chain|
        invariant n == |Text(chain[..i])|
      {
        assert chain[..i + 1] == chain[..i] + [chain[i]];
        TextAppend(chain[..i], [chain[i]]);
        assert [chain[i]][1..] == [];
        n := n + |chain[i].Content()|;
      }
      assert chain[..|chain|] == chain;
    }

    /** A copy of everything held. */
    method Remove() returns (out: seq<byte>)
      requires Valid()
      ensures out == Content()
    {
      out := [];
      for i := 0 to |chain|
        invariant out == Text(chain[..i])
      {
        assert chain[..i + 1] == chain[..i] + [chain[i]];
        TextAppend(chain[..i], [chain[i]]);
        assert [chain[i]][1..] == [] && chain[i].Content() + [] == chain[i].Content();
        out := out + chain[i].Content();
      }
      assert chain[..|chain|] == chain;
    }

    /** Empties the chain, keeping at most `chunkKeep` chunks. */
    method Reset()
      requires Valid()
      modifies this`chain, this`cur, this`chunkUsed
      ensures Valid() && Content() == [] && cur == 0 && Start() == offset
      ensures |chain| == Min(|old(chain)|, chunkKeep)
    {
      var k := chunkKeep;
      var i := 0;
      while i < |chain|
        invariant 0 <= i <= |chain| == |old(chain)| && k == chunkKeep - i > 0 && chunkUsed == |chain|
        invariant AllOrdered(chain) && forall j :: 0 <= j < |chain| ==> |chain[j].mem| == chunkLength
        invariant forall j :: 0 <= j < i ==> chain[j].pos == chain[j].last == offset
      {
        chain := chain[i := chain[i].(pos := offset, last := offset)];
        k := k - 1;
        if k == 0 {
          break;
        }
        i := i + 1;
      }
      if i < |chain| {
        chain := chain[..i + 1];
        chunkUsed := chunkKeep;
      }
      cur := 0;
      TextOfEmpty(chain);
    }
  }

  /** New buffers, unless the sizes make no sense. */
  method BufsInit(chunkLength: nat, maxChunk: nat, chunkKeep: nat, offset: nat) returns (rv: int, bufs: Bufs?)
    ensures rv == 0 <==> 0 < chunkKeep <= maxChunk && offset <= chunkLength
    ensures rv != 0 ==> rv == ERR_INVALID_ARGUMENT && bufs == null
    ensures rv == 0 ==> bufs != null && fresh(bufs) && bufs.Valid() && bufs.Content() == []
    ensures rv == 0 ==> bufs.cur == 0 && bufs.Start() == offset
    ensures rv == 0 ==> bufs.chunkLength == chunkLength && bufs.offset == offset
    ensures rv == 0 ==> bufs.maxChunk == maxChunk && bufs.chunkKeep == chunkKeep
  {
    if chunkKeep == 0 || maxChunk < chunkKeep || chunkLength < offset {
      return ERR_INVALID_ARGUMENT, null;
    }
    bufs := new Bufs(chunkLength, maxChunk, chunkKeep, offset);
    rv := 0;
  }

  /** Sizes that are accepted and with which the very first octet goes past the end of a chunk. */
  method AddbPastTheEnd() returns (rv: int, inside: bool)
    ensures rv == 0 && !inside
  {
    var bufs;
    rv, bufs := BufsInit(9, 2, 2, 9);
    rv, inside := bufs.Addb(0);
  }
}
