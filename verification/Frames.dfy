/** Frame headers, and how a header block that fills several chunks goes out as HEADERS and CONTINUATION frames. */
module Frames {
  import opened Bytes
  import opened Buffers
  import opened HpackDeflater
  import opened HpackFormat
  import opened HpackReader
  import opened HpackSession

  const HDLEN := 9
  const STREAM_ID_SIZE := 0x8000_0000
  const HEADERS: byte := 1
  const CONTINUATION: byte := 9
  const FLAG_NONE: byte := 0
  const FLAG_END_HEADERS: byte := 4
  const FLAG_PRIORITY: byte := 0x20

  // ---------------------------------------------------------------- numbers on the wire

  function Octet(n: nat): byte {
    n % 256
  }

  /** The last four octets of a number, the highest first. */
  function Put32(n: nat): (s: seq<byte>)
    ensures |s| == 4
  {
    [Octet(n / 256 / 256 / 256), Octet(n / 256 / 256), Octet(n / 256), Octet(n)]
  }

  function Get24(s: seq<byte>): (n: nat)
    requires |s| >= 3
    ensures n < 0x100_0000
  {
    256 * (256 * s[0] as int + s[1] as int) + s[2] as int
  }

  function Get32(s: seq<byte>): (n: nat)
    requires |s| >= 4
    ensures n < UINT32_SIZE
  {
    256 * Get24(s) + s[3] as int
  }

  lemma Put32Get32(n: nat)
    ensures Get32(Put32(n)) == n % UINT32_SIZE
  {
    var a, b, c := n / 256, n / 256 / 256, n / 256 / 256 / 256;
    assert n == 256 * a + n % 256 && a == 256 * b + a % 256 && b == 256 * c + b % 256;
    assert c == 256 * (c / 256) + c % 256;
    assert n == UINT32_SIZE * (c / 256) + Get32(Put32(n));
    ModUnique(n, UINT32_SIZE, c / 256, Get32(Put32(n)));
  }

  lemma Get32Put32(s: seq<byte>)
    requires |s| == 4
    ensures Put32(Get32(s)) == s
  {
    var c := 256 * s[0] as int + s[1] as int;
    var b := 256 * c + s[2] as int;
    ModUnique(Get32(s), 256, b, s[3]);
    ModUnique(b, 256, c, s[2]);
    ModUnique(c, 256, s[0], s[1]);
  }

  // ---------------------------------------------------------------- frame headers

  datatype FrameHd = FrameHd(length: nat, kind: byte, flags: byte, streamId: nat)

  function PackHd(hd: FrameHd): (s: seq<byte>)
    ensures |s| == HDLEN
  {
    Put32(hd.length * 256 % UINT32_SIZE)[..3] + [hd.kind, hd.flags] + Put32(hd.streamId)
  }

  function UnpackHd(s: seq<byte>): FrameHd
    requires |s| >= HDLEN
  {
    FrameHd(Get32(s) / 256, s[3], s[4], Get32(s[5..]) % STREAM_ID_SIZE)
  }

  /** A header survives exactly when its length has 24 bits and its stream identifier 31. */
  lemma HeaderRoundTrip(hd: FrameHd)
    requires hd.streamId < UINT32_SIZE
    ensures UnpackHd(PackHd(hd)) == hd <==> hd.length < 0x100_0000 && hd.streamId < STREAM_ID_SIZE
  {
    hide Put32, Get32;
    Put32Get32(hd.streamId);
    Put32Get32(hd.length * 256 % UINT32_SIZE);
    assert PackHd(hd)[5..] == Put32(hd.streamId);
    LengthOctets(hd.length * 256 % UINT32_SIZE, PackHd(hd));
    LengthBits(hd.length);
  }

  /**
   * The layout of section 4.1 of RFC 9113: three octets of length, the type, the flags and four octets of identifier,
   * the highest octet first in each number.
   */
  lemma HeaderLayout(hd: FrameHd)
    requires hd.length < 0x100_0000 && hd.streamId < 0x8000_0000
    ensures var s := PackHd(hd);
            && |s| == 9 && s[3] == hd.kind && s[4] == hd.flags && s[5] < 128
            && hd.length == 0x1_0000 * s[0] as int + 0x100 * s[1] as int + s[2] as int
            && hd.streamId == 0x100_0000 * s[5] as int + 0x1_0000 * s[6] as int + 0x100 * s[7] as int + s[8] as int
  {
    HeaderRoundTrip(hd);
    hide Put32;
  }

  /** The three octets of a length leave a zero behind them when it is put four octets wide. */
  lemma LengthOctets(n: nat, s: seq<byte>)
    requires n < UINT32_SIZE && n % 256 == 0 && |s| >= 4 && s[..3] == Put32(n)[..3]
    ensures Get32(s) / 256 == n / 256
  {
    var p := Put32(n);
    Put32Get32(n);
    assert s[0] == s[..3][0] == p[0] && s[1] == s[..3][1] == p[1] && s[2] == s[..3][2] == p[2];
    hide Put32;
    ModUnique(Get32(s), 256, Get24(s), s[3]);
    ModUnique(Get32(p), 256, Get24(p), p[3]);
  }

  lemma LengthBits(length: nat)
    ensures length * 256 % UINT32_SIZE % 256 == 0
    ensures length * 256 % UINT32_SIZE / 256 == length <==> length < 0x100_0000
  {
    var q, r := length / 0x100_0000, length % 0x100_0000;
    assert length * 256 == UINT32_SIZE * q + 256 * r;
    ModUnique(length * 256, UINT32_SIZE, q, 256 * r);
    ModUnique(256 * r, 256, r, 0);
  }

  /** Every nine octets are a header; packing it again only clears the reserved bit. */
  lemma HeaderOctets(s: seq<byte>)
    requires |s| == HDLEN
    ensures PackHd(UnpackHd(s)) == s[..5] + [s[5] % 128] + s[6..]
  {
    hide Put32;
    var hd := UnpackHd(s);
    var h := Get24(s);
    ModUnique(Get32(s), 256, h, s[3]);
    LengthBits(h);
    Get32Put32([s[0], s[1], s[2], 0]);
    assert Put32(256 * h)[..3] == [s[0], s[1], s[2]];
    var id := s[5..];
    var low := [s[5] % 128] + s[6..];
    ModUnique(Get32(id), STREAM_ID_SIZE, s[5] / 128, Get32(low));
    Get32Put32(low);
  }

  function Without(flags: byte): (r: byte)
    ensures r / 4 % 2 == 0
  {
    if flags / 4 % 2 == 1 then flags - 4 else flags
  }

  predicate EndsHeaders(flags: byte) {
    flags / 4 % 2 == 1
  }

  // ---------------------------------------------------------------- frames

  datatype Frame = Frame(hd: FrameHd, payload: seq<byte>)

  function Wire(frames: seq<Frame>): seq<byte> {
    if frames == [] then [] else PackHd(frames[0].hd) + (frames[0].payload + Wire(frames[1..]))
  }

  /** What a receiver finds in a stream of octets. */
  function ReadFrames(s: seq<byte>): Option<seq<Frame>>
    decreases |s|
  {
    if s == [] then Some([])
    else if |s| < HDLEN then None
    else
      var hd := UnpackHd(s);
      if |s| < HDLEN + hd.length then None
      else
        match ReadFrames(s[HDLEN + hd.length..])
        case None => None
        case Some(rest) => Some([Frame(hd, s[HDLEN..HDLEN + hd.length])] + rest)
  }

  ghost predicate Sendable(f: Frame) {
    f.hd.length == |f.payload| < 0x100_0000 && f.hd.streamId < STREAM_ID_SIZE
  }

  lemma {:induction false} WireReadsBack(frames: seq<Frame>)
    requires forall i :: 0 <= i < |frames| ==> Sendable(frames[i])
    ensures ReadFrames(Wire(frames)) == Some(frames)
    decreases |frames|
  {
    if frames != [] {
      var f, rest := frames[0], frames[1..];
      assert Sendable(f);
      WireReadsBack(rest);
      FirstFrame(f, Wire(rest));
      assert frames == [f] + rest;
    }
  }

  lemma FirstFrame(f: Frame, rest: seq<byte>)
    requires Sendable(f)
    ensures ReadFrames(PackHd(f.hd) + (f.payload + rest)) ==
            match ReadFrames(rest)
            case None => None
            case Some(fs) => Some([f] + fs)
  {
    var s := PackHd(f.hd) + (f.payload + rest);
    HeaderRoundTrip(f.hd);
    HeaderPrefix(PackHd(f.hd), f.payload + rest);
    hide UnpackHd, PackHd;
    assert s[HDLEN..HDLEN + |f.payload|] == f.payload;
    assert s[HDLEN + |f.payload|..] == rest;
  }

  lemma HeaderPrefix(h: seq<byte>, rest: seq<byte>)
    requires |h| == HDLEN
    ensures UnpackHd(h + rest) == UnpackHd(h)
  {
    assert (h + rest)[5..][..4] == h[5..];
  }

  // ---------------------------------------------------------------- splitting a block

  /** The header of the `i`-th of `n` frames that carry one block. */
  function HdAt(hd: FrameHd, n: nat, i: nat, length: nat): FrameHd {
    if i == 0 then hd.(length := length, flags := if n > 1 then Without(hd.flags) else hd.flags)
    else FrameHd(length, CONTINUATION, if i == n - 1 then FLAG_END_HEADERS else FLAG_NONE, hd.streamId)
  }

  function SplitFrames(hd: FrameHd, parts: seq<seq<byte>>): (r: seq<Frame>)
    ensures |r| == |parts|
  {
    seq(|parts|, i requires 0 <= i < |parts| => Frame(HdAt(hd, |parts|, i, |parts[i]|), parts[i]))
  }

  function Payloads(frames: seq<Frame>): (r: seq<seq<byte>>)
    ensures |r| == |frames|
  {
    seq(|frames|, i requires 0 <= i < |frames| => frames[i].payload)
  }

  /**
   * The frames of one block as section 6.10 of RFC 9113 wants them: one of the block's own kind, then only CONTINUATION
   * frames on the same stream, and the end marked on the last one alone.
   */
  ghost predicate OneBlock(frames: seq<Frame>, kind: byte, streamId: nat) {
    && frames != [] && frames[0].hd.kind == kind
    && (forall i :: 0 <= i < |frames| ==> frames[i].hd.streamId == streamId)
    && (forall i :: 0 < i < |frames| ==> frames[i].hd.kind == 9)
    && (forall i :: 0 <= i < |frames| ==> (frames[i].hd.flags / 4 % 2 == 1 <==> i == |frames| - 1))
  }

  /** A block flagged complete is sent as one block, and reading the frames back gives its parts again. */
  lemma SplitIsOneBlock(hd: FrameHd, parts: seq<seq<byte>>)
    requires parts != [] && hd.streamId < STREAM_ID_SIZE && EndsHeaders(hd.flags)
    requires forall i :: 0 <= i < |parts| ==> |parts[i]| < 0x100_0000
    ensures OneBlock(SplitFrames(hd, parts), hd.kind, hd.streamId)
    ensures SplitFrames(hd, parts)[0].hd.flags == hd.flags - if |parts| > 1 then 4 else 0
    ensures ReadFrames(Wire(SplitFrames(hd, parts))) == Some(SplitFrames(hd, parts))
    ensures Payloads(SplitFrames(hd, parts)) == parts
  {
    hide Wire, ReadFrames;
    WireReadsBack(SplitFrames(hd, parts));
  }

  // ---------------------------------------------------------------- in the buffers

  function Parts(chain: seq<Chunk>): (r: seq<seq<byte>>)
    requires AllOrdered(chain)
    ensures |r| == |chain|
  {
    seq(|chain|, i requires 0 <= i < |chain| => chain[i].Content())
  }

  lemma {:induction false} TextIsFlat(chain: seq<Chunk>)
    requires AllOrdered(chain)
    ensures Text(chain) == Flatten(Parts(chain))
    decreases |chain|
  {
    if chain != [] {
      TextIsFlat(chain[1..]);
      assert Parts(chain)[1..] == Parts(chain[1..]);
    }
  }

  /** Octets written in front of a chunk's content. */
  function InFront(c: Chunk, h: seq<byte>): (r: Chunk)
    requires c.Ordered() && |h| <= c.pos
    ensures r.Ordered() && r.Content() == h + c.Content() && r.pos == c.pos - |h|
  {
    var m := c.mem[..c.pos - |h|] + h + c.mem[c.pos..];
    assert m[c.pos - |h|..c.last] == h + c.mem[c.pos..c.last];
    Chunk(m, c.pos - |h|, c.last)
  }

  ghost predicate HasRoom(chain: seq<Chunk>, cur: nat) {
    && AllOrdered(chain) && cur < |chain|
    && (forall i :: 0 <= i <= cur ==> chain[i].pos >= HDLEN)
    && (forall i :: cur < i < |chain| ==> chain[i].pos == chain[i].last)
  }

  /** The chain with the headers of its first `k` frames written. */
  function HeadedUpTo(chain: seq<Chunk>, cur: nat, hd: FrameHd, k: nat): (r: seq<Chunk>)
    requires HasRoom(chain, cur) && k <= cur + 1
    ensures |r| == |chain| && AllOrdered(r)
  {
    seq(|chain|, i requires 0 <= i < |chain| =>
      if i < k then InFront(chain[i], PackHd(HdAt(hd, cur + 1, i, |chain[i].Content()|))) else chain[i])
  }

  lemma HeadedNext(chain: seq<Chunk>, cur: nat, hd: FrameHd, k: nat)
    requires HasRoom(chain, cur) && k <= cur
    ensures HeadedUpTo(chain, cur, hd, k)[k] == chain[k]
    ensures HeadedUpTo(chain, cur, hd, k + 1) ==
            HeadedUpTo(chain, cur, hd, k)[k := InFront(chain[k], PackHd(HdAt(hd, cur + 1, k, |chain[k].Content()|)))]
    ensures HeadedUpTo(chain, cur, hd, 0) == chain
  {
  }

  lemma {:induction false} WireAppend(a: seq<Frame>, b: seq<Frame>)
    ensures Wire(a + b) == Wire(a) + Wire(b)
    decreases |a|
  {
    if a == [] {
      assert a + b == b;
    } else {
      assert (a + b)[0] == a[0] && (a + b)[1..] == a[1..] + b;
      WireAppend(a[1..], b);
      var h, p := PackHd(a[0].hd), a[0].payload;
      assert h + (p + (Wire(a[1..]) + Wire(b))) == (h + (p + Wire(a[1..]))) + Wire(b);
    }
  }

  lemma HeadedChunk(chain: seq<Chunk>, cur: nat, hd: FrameHd, i: nat)
    requires HasRoom(chain, cur) && i <= cur
    ensures var f := SplitFrames(hd, Parts(chain[..cur + 1]))[i];
            HeadedUpTo(chain, cur, hd, cur + 1)[i].Content() == PackHd(f.hd) + f.payload
  {
    hide PackHd;
  }

  /** With all headers written the chain holds the frames. */
  lemma {:induction false} HeadedIsWire(chain: seq<Chunk>, cur: nat, hd: FrameHd, k: nat)
    requires HasRoom(chain, cur) && k <= cur + 1
    ensures Text(HeadedUpTo(chain, cur, hd, cur + 1)[..k]) == Wire(SplitFrames(hd, Parts(chain[..cur + 1]))[..k])
    decreases k
  {
    if k > 0 {
      var c, f := HeadedUpTo(chain, cur, hd, cur + 1), SplitFrames(hd, Parts(chain[..cur + 1]));
      HeadedChunk(chain, cur, hd, k - 1);
      hide PackHd, Wire, HeadedUpTo, SplitFrames, Text, Parts;
      HeadedIsWire(chain, cur, hd, k - 1);
      LastOne(c, k);
      LastOne(f, k);
      TextAppend(c[..k - 1], [c[k - 1]]);
      WireAppend(f[..k - 1], [f[k - 1]]);
      OneChunk(c[k - 1]);
      OneFrame(f[k - 1]);
    }
  }

  lemma LastOne<T>(s: seq<T>, k: nat)
    requires 0 < k <= |s|
    ensures s[..k] == s[..k - 1] + [s[k - 1]]
  {
  }

  lemma OneChunk(c: Chunk)
    requires c.Ordered()
    ensures AllOrdered([c]) && Text([c]) == c.Content()
  {
    assert [c][1..] == [] && c.Content() + [] == c.Content();
  }

  lemma OneFrame(f: Frame)
    ensures Wire([f]) == PackHd(f.hd) + f.payload
  {
    assert [f][1..] == [] && f.payload + [] == f.payload;
  }

  lemma UsedText(chain: seq<Chunk>, cur: nat)
    requires AllOrdered(chain) && cur < |chain| && forall i :: cur < i < |chain| ==> chain[i].pos == chain[i].last
    ensures Text(chain) == Text(chain[..cur + 1])
  {
    var a, b := chain[..cur + 1], chain[cur + 1..];
    TextOfEmpty(b);
    hide *;
    InTwo(chain, cur + 1);
    TextAppend(a, b);
    assert Text(a) + [] == Text(a);
  }

  lemma InTwo<T>(s: seq<T>, n: nat)
    requires n <= |s|
    ensures s == s[..n] + s[n..]
  {
  }

  lemma AllHeaded(chain: seq<Chunk>, cur: nat, hd: FrameHd)
    requires HasRoom(chain, cur)
    ensures Text(HeadedUpTo(chain, cur, hd, cur + 1)) == Wire(SplitFrames(hd, Parts(chain[..cur + 1])))
  {
    var c, f := HeadedUpTo(chain, cur, hd, cur + 1), SplitFrames(hd, Parts(chain[..cur + 1]));
    HeadedIsWire(chain, cur, hd, cur + 1);
    assert f[..cur + 1] == f;
    UsedText(c, cur);
  }

  /** Writes one header in front of a chunk's content. */
  method PackFrameHd(bufs: Bufs, i: nat, hd: FrameHd)
    requires i < |bufs.chain| && bufs.chain[i].Ordered() && bufs.chain[i].pos >= HDLEN
    modifies bufs`chain
    ensures bufs.chain == old(bufs.chain)[i := InFront(old(bufs.chain)[i], PackHd(hd))]
  {
    bufs.chain := bufs.chain[i := InFront(bufs.chain[i], PackHd(hd))];
  }

  /** Every chunk in use becomes a frame. */
  method FramePackHeadersShared(bufs: Bufs, frameHd: FrameHd)
    requires HasRoom(bufs.chain, bufs.cur)
    modifies bufs`chain
    ensures AllOrdered(bufs.chain)
    ensures Text(bufs.chain) == Wire(SplitFrames(frameHd, Parts(old(bufs.chain)[..bufs.cur + 1])))
  {
    hide Wire, SplitFrames, PackHd;
    ghost var chain, cur := bufs.chain, bufs.cur;
    HeadedNext(chain, cur, frameHd, 0);
    var hd := frameHd.(length := |bufs.chain[0].Content()|);
    if bufs.cur != 0 {
      hd := hd.(flags := Without(hd.flags));
    }
    PackFrameHd(bufs, 0, hd);
    if bufs.cur != 0 {
      hd := hd.(kind := CONTINUATION, flags := FLAG_NONE);
      for i := 1 to bufs.cur
        invariant bufs.cur == cur && bufs.chain == HeadedUpTo(chain, cur, frameHd, i)
        invariant hd.kind == CONTINUATION && hd.flags == FLAG_NONE && hd.streamId == frameHd.streamId
      {
        HeadedNext(chain, cur, frameHd, i);
        hd := hd.(length := |bufs.chain[i].Content()|);
        PackFrameHd(bufs, i, hd);
      }
      HeadedNext(chain, cur, frameHd, cur);
      hd := hd.(length := |bufs.chain[bufs.cur].Content()|, flags := FLAG_END_HEADERS);
      PackFrameHd(bufs, bufs.cur, hd);
    }
    AllHeaded(chain, cur, frameHd);
  }

  // ---------------------------------------------------------------- priorities

  datatype PrioritySpec = PrioritySpec(streamId: nat, weight: int, exclusive: bool)

  function PackPriority(p: PrioritySpec): (s: seq<byte>)
    ensures |s| == 5
  {
    var id := Put32(p.streamId);
    [if p.exclusive then id[0] % 128 + 128 else id[0]] + id[1..] + [Octet((p.weight - 1) % 256)]
  }

  function UnpackPriority(s: seq<byte>): PrioritySpec
    requires |s| >= 5
  {
    PrioritySpec(Get32(s) % STREAM_ID_SIZE, s[4] as int + 1, s[0] >= 128)
  }

  /** A priority survives exactly when its weight is one of the 256 allowed ones. */
  lemma PriorityRoundTrip(p: PrioritySpec)
    requires p.streamId < STREAM_ID_SIZE
    ensures UnpackPriority(PackPriority(p)) == p <==> 1 <= p.weight <= 256
  {
    var id, s := Put32(p.streamId), PackPriority(p);
    Put32Get32(p.streamId);
    hide Put32;
    assert id[0] < 128;
    assert s[1] == id[1] && s[2] == id[2] && s[3] == id[3];
    if p.exclusive {
      ModUnique(Get32(s), STREAM_ID_SIZE, 1, p.streamId);
    }
  }

  // ---------------------------------------------------------------- whole frames

  /** What a frame's chunks hold before the headers are written: the fixed part of the payload and the block. */
  ghost predicate Carries(parts: seq<seq<byte>>, prefix: seq<byte>, block: seq<byte>) {
    parts != [] && |parts[0]| >= |prefix| && Flatten(parts) == prefix + block
  }

  /** The receiver's view of the block: the payloads, the first one without its fixed part. */
  function Fragments(frames: seq<Frame>, fixed: nat): seq<seq<byte>>
    requires frames != [] && |frames[0].payload| >= fixed
  {
    [frames[0].payload[fixed..]] + Payloads(frames)[1..]
  }

  lemma FragmentsFlat(frames: seq<Frame>, parts: seq<seq<byte>>, prefix: seq<byte>, block: seq<byte>)
    requires Carries(parts, prefix, block) && Payloads(frames) == parts
    ensures Flatten(Fragments(frames, |prefix|)) == block
    ensures frames[0].payload[..|prefix|] == prefix
  {
    var head := frames[0].payload;
    assert head == Payloads(frames)[0] == parts[0];
    var rest := Flatten(parts[1..]);
    assert head + rest == prefix + block;
    assert head[..|prefix|] == (head + rest)[..|prefix|] == (prefix + block)[..|prefix|] == prefix;
    assert head[|prefix|..] + rest == (head + rest)[|prefix|..] == (prefix + block)[|prefix|..] == block;
    assert Fragments(frames, |prefix|)[1..] == parts[1..];
  }

  /**
   * From one end to the other: a header list deflated, cut into frames, read off the wire and inflated frame by frame
   * is delivered as it was sent, if the inflater allows its literals; both ends are then in step.
   */
  lemma HeadersArrive(P: Params, e: Enc, s: Dec, nvs: seq<Nv>, hd: FrameHd, parts: seq<seq<byte>>, prefix: seq<byte>)
    requires ValidParams(P) && InStep(e, s)
    requires Carries(parts, prefix, BlockBytes(P, e, nvs)) && EndsHeaders(hd.flags) && hd.streamId < STREAM_ID_SIZE
    requires forall i :: 0 <= i < |parts| ==> |parts[i]| < 0x100_0000
    ensures var frames := ReadFrames(Wire(SplitFrames(hd, parts)));
            && frames.Some? && OneBlock(frames.value, hd.kind, hd.streamId)
            && |frames.value[0].payload| >= |prefix| && frames.value[0].payload[..|prefix|] == prefix
            && var o := FedAll(P, s, Fragments(frames.value, |prefix|));
               if HpackLockStep.AllAcceptable(P, e.table, e.max, nvs) then
                 && o.dec.Some? && o.out == HpackLockStep.Delivery(P, e.max, nvs)
                 && InStep(AfterBlock(P, e, nvs), o.dec.value)
               else o.dec.None? && o.out <= HpackLockStep.Delivery(P, e.max, nvs)
  {
    hide Wire, ReadFrames, BlockBytes, InStep, FedAll, HpackLockStep.AllAcceptable, HpackLockStep.Delivery, AfterBlock;
    SplitIsOneBlock(hd, parts);
    var frames := SplitFrames(hd, parts);
    FragmentsFlat(frames, parts, prefix, BlockBytes(P, e, nvs));
    ChunkedBlockRoundTrip(P, e, s, nvs, Fragments(frames, |prefix|));
  }

  lemma TextInFront(chain: seq<Chunk>, h: seq<byte>)
    requires AllOrdered(chain) && chain != [] && |h| <= chain[0].pos
    ensures AllOrdered(chain[0 := InFront(chain[0], h)]) && Text(chain[0 := InFront(chain[0], h)]) == h + Text(chain)
  {
    var c := chain[0 := InFront(chain[0], h)];
    assert c[1..] == chain[1..];
    assert (h + chain[0].Content()) + Text(chain[1..]) == h + (chain[0].Content() + Text(chain[1..]));
  }

  /** Chunks not in use hold nothing. */
  lemma UsedParts(chain: seq<Chunk>, cur: nat)
    requires AllOrdered(chain) && cur < |chain| && forall i :: cur < i < |chain| ==> chain[i].pos == chain[i].last
    ensures Flatten(Parts(chain[..cur + 1])) == Text(chain)
  {
    TextIsFlat(chain[..cur + 1]);
    UsedText(chain, cur);
  }

  /** Deflates a block behind `fixed` octets that are left free. */
  method DeflateBehind(bufs: Bufs, deflater: Deflater, fixed: nat, nva: seq<Nv>) returns (rv: int)
    requires deflater.Valid() && bufs.Valid() && bufs !in deflater.Repr
    requires bufs.cur == 0 && bufs.Content() == [] && bufs.Start() == bufs.offset
    requires bufs.offset < bufs.chunkLength && bufs.offset + fixed <= bufs.chunkLength
    modifies deflater`minMax, deflater`notify, deflater`Repr, deflater.Repr
    modifies bufs`chain, bufs`cur, bufs`chunkUsed
    ensures deflater.Valid() && bufs.Valid() && bufs.Start() == bufs.offset + fixed
    ensures rv == 0 ==> !old(deflater.ctx.bad) && bufs.Content() == BlockBytes(deflater.P, old(deflater.State()), nva)
    ensures rv == 0 ==> deflater.State() == AfterBlock(deflater.P, old(deflater.State()), nva) && !deflater.ctx.bad
    ensures rv != 0 ==> rv == ERR_HEADER_COMP && deflater.ctx.bad
  {
    hide BlockBytes, AfterBlock;
    var c := bufs.chain[0];
    TextOfNone(bufs.chain, 0, bufs.chain[0 := c.(pos := c.pos + fixed, last := c.pos + fixed)]);
    bufs.chain := bufs.chain[0 := c.(pos := c.pos + fixed, last := c.pos + fixed)];
    rv := deflater.DeflateBlock(bufs, nva);
    if rv == Buffers.ERR_BUFFER_ERROR {
      rv := ERR_HEADER_COMP;
    }
  }

  lemma TextOfNone(a: seq<Chunk>, i: nat, b: seq<Chunk>)
    requires AllOrdered(a) && AllOrdered(b) && Text(a) == [] && |a| == |b| && i < |a|
    requires b == a[i := b[i]] && b[i].pos == b[i].last
    ensures Text(b) == []
    decreases |a|
  {
    if i > 0 {
      TextOfNone(a[1..], i - 1, b[1..]);
      assert a[0] == b[0];
    } else {
      assert a[1..] == b[1..];
    }
  }

  /** The fixed part of a payload and the frame headers go in front of a block already deflated. */
  method Finish(bufs: Bufs, hd: FrameHd, prefix: seq<byte>, ghost block: seq<byte>)
    returns (length: nat, ghost parts: seq<seq<byte>>)
    requires bufs.Valid() && bufs.Start() == bufs.offset + |prefix| && bufs.offset >= HDLEN && bufs.Content() == block
    modifies bufs`chain
    ensures Carries(parts, prefix, block) && |parts| == bufs.cur + 1 && length == |prefix| + |block|
    ensures forall i :: 0 <= i < |parts| ==> |parts[i]| <= bufs.chunkLength - bufs.offset
    ensures AllOrdered(bufs.chain) && Text(bufs.chain) == Wire(SplitFrames(hd, parts))
  {
    hide Wire, SplitFrames, Text, Flatten;
    TextInFront(bufs.chain, prefix);
    bufs.chain := bufs.chain[0 := InFront(bufs.chain[0], prefix)];
    UsedParts(bufs.chain, bufs.cur);
    parts := Parts(bufs.chain[..bufs.cur + 1]);
    length := bufs.Len();
    FramePackHeadersShared(bufs, hd);
  }

  /** A HEADERS frame, with CONTINUATION frames behind it if the block needs them. */
  method FramePackHeaders(bufs: Bufs, deflater: Deflater, hd: FrameHd, pri: PrioritySpec, nva: seq<Nv>)
    returns (rv: int, length: nat, ghost parts: seq<seq<byte>>)
    requires deflater.Valid() && bufs.Valid() && bufs !in deflater.Repr
    requires bufs.cur == 0 && bufs.Content() == [] && bufs.Start() == bufs.offset >= HDLEN
    requires bufs.offset < bufs.chunkLength && bufs.offset + |Fixed(hd, pri)| <= bufs.chunkLength
    modifies deflater`minMax, deflater`notify, deflater`Repr, deflater.Repr
    modifies bufs`chain, bufs`cur, bufs`chunkUsed
    ensures deflater.Valid() && (rv == 0 || rv == ERR_HEADER_COMP) && (rv != 0 <==> deflater.ctx.bad)
    ensures old(deflater.ctx.bad) ==> rv != 0
    ensures rv == 0 ==> deflater.State() == AfterBlock(deflater.P, old(deflater.State()), nva)
    ensures rv == 0 ==> Carries(parts, Fixed(hd, pri), BlockBytes(deflater.P, old(deflater.State()), nva))
    ensures length == if rv == 0 then |Fixed(hd, pri)| + |BlockBytes(deflater.P, old(deflater.State()), nva)|
                      else hd.length
    ensures rv == 0 ==> forall i :: 0 <= i < |parts| ==> |parts[i]| <= bufs.chunkLength - bufs.offset
    ensures rv == 0 ==> AllOrdered(bufs.chain) && Text(bufs.chain) == Wire(SplitFrames(hd, parts))
  {
    hide BlockBytes, AfterBlock, Carries, Wire, SplitFrames, PackPriority;
    parts, length := [], hd.length;
    ghost var block := BlockBytes(deflater.P, deflater.State(), nva);
    var prefix := Fixed(hd, pri);
    rv := DeflateBehind(bufs, deflater, |prefix|, nva);
    if rv != 0 {
      return;
    }
    length, parts := Finish(bufs, hd, prefix, block);
  }

  /** The fixed part of a HEADERS payload: a priority, if the flags announce one. */
  function Fixed(hd: FrameHd, pri: PrioritySpec): seq<byte> {
    if hd.flags / FLAG_PRIORITY % 2 == 1 then PackPriority(pri) else []
  }

  /** A receiver finds a priority in front of the block exactly if the flag 0x20 is set, and it is the one sent. */
  lemma PriorityFirst(hd: FrameHd, pri: PrioritySpec)
    requires pri.streamId < 0x8000_0000 && 1 <= pri.weight <= 256
    ensures var s := Fixed(hd, pri);
            if hd.flags / 0x20 % 2 == 0 then s == []
            else
              && |s| == 5 && (s[0] >= 128 <==> pri.exclusive) && s[4] as int + 1 == pri.weight
              && 0x100_0000 * (s[0] as int % 128) + 0x1_0000 * s[1] as int + 0x100 * s[2] as int + s[3] as int
                 == pri.streamId
  {
    PriorityRoundTrip(pri);
    hide Put32;
  }

  /** A PUSH_PROMISE frame: the promised stream's identifier, then the block. */
  method FramePackPushPromise(bufs: Bufs, deflater: Deflater, hd: FrameHd, promised: nat, nva: seq<Nv>)
    returns (rv: int, length: nat, ghost parts: seq<seq<byte>>)
    requires deflater.Valid() && bufs.Valid() && bufs !in deflater.Repr
    requires bufs.cur == 0 && bufs.Content() == [] && bufs.Start() == bufs.offset >= HDLEN
    requires bufs.offset + 4 <= bufs.chunkLength
    modifies deflater`minMax, deflater`notify, deflater`Repr, deflater.Repr
    modifies bufs`chain, bufs`cur, bufs`chunkUsed
    ensures deflater.Valid() && (rv == 0 || rv == ERR_HEADER_COMP) && (rv != 0 <==> deflater.ctx.bad)
    ensures old(deflater.ctx.bad) ==> rv != 0
    ensures rv == 0 ==> deflater.State() == AfterBlock(deflater.P, old(deflater.State()), nva)
    ensures rv == 0 ==> Carries(parts, Put32(promised), BlockBytes(deflater.P, old(deflater.State()), nva))
    ensures length == if rv == 0 then 4 + |BlockBytes(deflater.P, old(deflater.State()), nva)| else hd.length
    ensures rv == 0 ==> forall i :: 0 <= i < |parts| ==> |parts[i]| <= bufs.chunkLength - bufs.offset
    ensures rv == 0 ==> AllOrdered(bufs.chain) && Text(bufs.chain) == Wire(SplitFrames(hd, parts))
  {
    hide BlockBytes, AfterBlock, Carries, Wire, SplitFrames, Put32;
    parts, length := [], hd.length;
    ghost var block := BlockBytes(deflater.P, deflater.State(), nva);
    rv := DeflateBehind(bufs, deflater, 4, nva);
    if rv != 0 {
      return;
    }
    length, parts := Finish(bufs, hd, Put32(promised), block);
  }
}
