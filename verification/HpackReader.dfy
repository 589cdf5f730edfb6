/**
 * The inflater as a machine that takes one octet at a time. The class in HpackInflater.dfy, which is handed whole
 * chunks, is proved to do what this machine does.
 */
module HpackReader {
  import opened Bytes
  import opened HpackInteger
  import opened HpackTable
  import opened HpackFormat
  import HuffmanTable

  datatype State =
    | ExpectTableSize | InflateStart | Opcode | ReadTableSize | ReadIndex
    | NewnameCheckNamelen | NewnameReadNamelen | NewnameReadNamehuff | NewnameReadName
    | CheckValuelen | ReadValuelen | ReadValuehuff | ReadValue

  datatype Op = OpNone | Indexed | Newname | Indname

  /** A field handed to the application; `noIndex` is the never-indexed mark. */
  datatype Emitted = Emitted(field: Field, noIndex: bool)

  datatype Dec = Dec(
    table: fields, max: nat, settingsMax: nat, minMax: nat,
    state: State, op: Op, left: nat, shift: nat, index: nat,
    huffman: bool, indexRequired: bool, noIndex: bool,
    name: seq<byte>, value: seq<byte>, fstate: nat)

  datatype Result = Bad | Next(dec: Dec, out: seq<Emitted>)

  function InitialDec(): Dec {
    Dec([], DEFAULT_TABLE_SIZE, DEFAULT_TABLE_SIZE, UINT32_MAX,
        InflateStart, OpNone, 0, 0, 0, false, false, false, [], [], 0)
  }

  /** The peer's announced limit; refused in the middle of a block. */
  function ChangeLimit(s: Dec, settings: nat): Option<Dec> {
    if !s.state.ExpectTableSize? && !s.state.InflateStart? then None
    else if s.max > settings then
      Some(s.(settingsMax := settings, state := ExpectTableSize, minMax := settings, max := settings,
              table := Fit(s.table, settings)))
    else Some(s.(settingsMax := settings))
  }

  // ---------------------------------------------------------------- pieces of a step

  datatype Length = TooBig | Partial(dec: Dec) | Complete(dec: Dec)

  /** One octet of a length or index that must not exceed `maxlen`. */
  function LengthByte(s: Dec, b: byte, p: prefix, maxlen: nat): Length {
    match IntByte(s.left, s.shift, b, p)
    case Overflow => TooBig
    case More(n, sh) => if n > maxlen then TooBig else Partial(s.(left := n, shift := sh))
    case Done(n) => if n > maxlen then TooBig else Complete(s.(left := n, shift := 0))
  }

  function TableSizeByte(s: Dec, b: byte): Result {
    match LengthByte(s, b, 5, Min(s.minMax, s.settingsMax))
    case TooBig => Bad
    case Partial(s1) => Next(s1, [])
    case Complete(s1) => Next(SizeRead(s1), [])
  }

  function SizeRead(s: Dec): Dec {
    s.(minMax := UINT32_MAX, max := s.left, table := Fit(s.table, s.left), state := InflateStart)
  }

  function IndexPrefix(s: Dec): prefix {
    if s.op.Indexed? then 7 else if s.indexRequired then 6 else 4
  }

  function IndexByte(P: Params, s: Dec, b: byte): Result {
    match LengthByte(s, b, IndexPrefix(s), |s.table| + STATIC_LENGTH)
    case TooBig => Bad
    case Partial(s1) => Next(s1, [])
    case Complete(s1) => IndexDone(P, s1)
  }

  function IndexDone(P: Params, s: Dec): Result {
    if s.left == 0 then Bad
    else if s.op.Indexed? then
      Next(s.(index := s.left - 1, state := Opcode), [Emitted(Get(P, s.table, s.left - 1), false)])
    else Next(s.(index := s.left - 1, state := CheckValuelen), [])
  }

  function NamelenByte(s: Dec, b: byte): Result {
    match LengthByte(s, b, 7, MAX_NV)
    case TooBig => Bad
    case Partial(s1) => Next(s1, [])
    case Complete(s1) => Next(NameStart(s1), [])
  }

  function NameStart(s: Dec): Dec {
    if s.huffman then s.(name := [], fstate := HuffmanTable.ACCEPTED, state := NewnameReadNamehuff)
    else s.(name := [], state := NewnameReadName)
  }

  function ValuelenByte(P: Params, s: Dec, b: byte): Result {
    match LengthByte(s, b, 7, MAX_NV)
    case TooBig => Bad
    case Partial(s1) => Next(s1, [])
    case Complete(s1) => ValueDoneIfEmpty(P, ValueStart(s1))
  }

  function ValueStart(s: Dec): Dec {
    if s.huffman then s.(value := [], fstate := HuffmanTable.ACCEPTED, state := ReadValuehuff)
    else s.(value := [], state := ReadValue)
  }

  function ValueDoneIfEmpty(P: Params, s: Dec): Result {
    if s.left == 0 then Commit(P, s) else Next(s, [])
  }

  /** A literal is complete: insert it if asked to, and hand it out. */
  function Commit(P: Params, s: Dec): Result {
    var f := Field(if s.op.Newname? then s.name else Get(P, s.table, s.index).name, s.value);
    var t := if s.indexRequired then Insert(s.table, f, s.max) else s.table;
    Next(s.(table := t, state := Opcode, value := [], name := if s.op.Newname? then [] else s.name),
         [Emitted(f, s.noIndex)])
  }

  function CheckLength(s: Dec, b: byte, next: State): Dec {
    s.(huffman := b >= 128, state := next, left := 0, shift := 0)
  }

  function NameByte(P: Params, s: Dec, b: byte): Result {
    if s.left == 0 then ValuelenByte(P, CheckLength(s, b, ReadValuelen), b)
    else
      var s1 := s.(name := s.name + [b], left := s.left - 1);
      Next(if s1.left == 0 then s1.(state := CheckValuelen) else s1, [])
  }

  /** A state after Huffman input is usable unless decoding is stuck or a finished string ends badly. */
  predicate HuffmanOk(fstate: nat, left: nat) {
    fstate != HuffmanTable.FAILED && (left == 0 ==> fstate / HuffmanTable.ACCEPTED % 2 == 1)
  }

  function NameHuffByte(P: Params, s: Dec, b: byte): Result {
    if s.left == 0 then ValuelenByte(P, CheckLength(s, b, ReadValuelen), b)
    else
      var (f, o) := HuffmanTable.ReadByte(P.table, s.fstate, b);
      var s1 := s.(name := s.name + o, fstate := f, left := s.left - 1);
      if !HuffmanOk(f, s1.left) then Bad
      else Next(if s1.left == 0 then s1.(state := CheckValuelen) else s1, [])
  }

  function ValueByte(P: Params, s: Dec, b: byte): Result {
    if s.left == 0 then Bad
    else ValueDoneIfEmpty(P, s.(value := s.value + [b], left := s.left - 1))
  }

  function ValueHuffByte(P: Params, s: Dec, b: byte): Result {
    if s.left == 0 then Bad
    else
      var (f, o) := HuffmanTable.ReadByte(P.table, s.fstate, b);
      var s1 := s.(value := s.value + o, fstate := f, left := s.left - 1);
      if !HuffmanOk(f, s1.left) then Bad else ValueDoneIfEmpty(P, s1)
  }

  /** What the first octet of a representation selects, before its number is read. */
  datatype Choice = Reject | Number(dec: Dec) | NewName(dec: Dec)

  function Dispatch(s: Dec, b: byte): Choice {
    if b / 32 == 1 then
      if s.state.Opcode? then Reject
      else Number(s.(op := Indexed, state := ReadTableSize, left := 0, shift := 0))
    else if b >= 128 then
      Number(s.(op := Indexed, state := ReadIndex, left := 0, shift := 0))
    else
      var s1 := s.(indexRequired := b / 64 % 2 == 1, noIndex := b / 16 == 1, left := 0, shift := 0);
      if b == 0x40 || b == 0 || b == 0x10 then NewName(s1.(op := Newname, state := NewnameCheckNamelen))
      else Number(s1.(op := Indname, state := ReadIndex))
  }

  function FirstOctet(P: Params, s: Dec, b: byte): Result {
    match Dispatch(s, b)
    case Reject => Bad
    case NewName(s1) => Next(s1, [])
    case Number(s1) => if s1.state.ReadTableSize? then TableSizeByte(s1, b) else IndexByte(P, s1, b)
  }

  // ---------------------------------------------------------------- the machine

  function Step(P: Params, s: Dec, b: byte): Result {
    match s.state
    case ExpectTableSize => if b / 32 != 1 then Bad else FirstOctet(P, s, b)
    case InflateStart => FirstOctet(P, s, b)
    case Opcode => FirstOctet(P, s, b)
    case ReadTableSize => TableSizeByte(s, b)
    case ReadIndex => IndexByte(P, s, b)
    case NewnameCheckNamelen => NamelenByte(CheckLength(s, b, NewnameReadNamelen), b)
    case NewnameReadNamelen => NamelenByte(s, b)
    case NewnameReadNamehuff => NameHuffByte(P, s, b)
    case NewnameReadName => NameByte(P, s, b)
    case CheckValuelen => ValuelenByte(P, CheckLength(s, b, ReadValuelen), b)
    case ReadValuelen => ValuelenByte(P, s, b)
    case ReadValuehuff => ValueHuffByte(P, s, b)
    case ReadValue => ValueByte(P, s, b)
  }

  /** Fields handed out, and the final state unless an octet was refused. */
  datatype Outcome = Outcome(dec: Option<Dec>, out: seq<Emitted>)

  function Prepend(out: seq<Emitted>, o: Outcome): Outcome {
    Outcome(o.dec, out + o.out)
  }

  function Run(P: Params, s: Dec, input: seq<byte>): Outcome
    decreases |input|, 0
  {
    if input == [] then Outcome(Some(s), [])
    else Continue(P, Step(P, s, input[0]), input[1..])
  }

  /** The rest of the input after one step. */
  function Continue(P: Params, r: Result, rest: seq<byte>): Outcome
    decreases |rest|, 1
  {
    match r
    case Bad => Outcome(None, [])
    case Next(s, out) => Prepend(out, Run(P, s, rest))
  }

  /** A block may end here. */
  predicate AtBoundary(s: Dec) {
    s.state.Opcode? || s.state.InflateStart?
  }

  function EndHeaders(s: Dec): Dec {
    s.(state := InflateStart)
  }

  /** Cutting the input anywhere: the same fields come out, and the same state or a refusal results. */
  lemma {:induction false} RunSplit(P: Params, s: Dec, a: seq<byte>, b: seq<byte>)
    ensures var first := Run(P, s, a);
            Run(P, s, a + b) ==
              if first.dec.None? then first else Prepend(first.out, Run(P, first.dec.value, b))
    decreases |a|
  {
    if a == [] {
      assert a + b == b;
      PrependNothing(Run(P, s, b));
    } else {
      assert (a + b)[0] == a[0] && (a + b)[1..] == a[1..] + b;
      var r := Step(P, s, a[0]);
      if r.Next? {
        RunSplit(P, r.dec, a[1..], b);
        var first := Run(P, r.dec, a[1..]);
        if first.dec.Some? {
          var second := Run(P, first.dec.value, b);
          assert r.out + (first.out + second.out) == (r.out + first.out) + second.out;
        }
      }
    }
  }

  lemma PrependNothing(o: Outcome)
    ensures Prepend([], o) == o
  {
    assert [] + o.out == o.out;
  }

  lemma PrependTwice(a: seq<Emitted>, b: seq<Emitted>, o: Outcome)
    ensures Prepend(a, Prepend(b, o)) == Prepend(a + b, o)
  {
    assert a + (b + o.out) == (a + b) + o.out;
  }

  /** One octet in front. */
  lemma RunCons(P: Params, s: Dec, b: byte, rest: seq<byte>)
    ensures Run(P, s, [b] + rest) == Continue(P, Step(P, s, b), rest)
  {
    assert ([b] + rest)[1..] == rest;
  }

  // ---------------------------------------------------------------- whole blocks, in chunks

  /** A chunk of a block; the last one must end the block between two representations. */
  function Fed(P: Params, s: Dec, input: seq<byte>, inFinal: bool): Outcome {
    var o := Run(P, s, input);
    if !inFinal || o.dec.None? then o
    else if AtBoundary(o.dec.value) then Outcome(Some(EndHeaders(o.dec.value)), o.out)
    else Outcome(None, o.out)
  }

  function Flatten(chunks: seq<seq<byte>>): seq<byte> {
    if chunks == [] then [] else chunks[0] + Flatten(chunks[1..])
  }

  /** A block fed chunk by chunk, stopping at a refusal. */
  function FedAll(P: Params, s: Dec, chunks: seq<seq<byte>>): Outcome
    requires chunks != []
    decreases |chunks|
  {
    var first := Fed(P, s, chunks[0], |chunks| == 1);
    if |chunks| == 1 || first.dec.None? then first else Prepend(first.out, FedAll(P, first.dec.value, chunks[1..]))
  }

  /** However a block is cut into chunks, feeding them is feeding the block whole. */
  lemma {:induction false} ChunkIndependence(P: Params, s: Dec, chunks: seq<seq<byte>>)
    requires chunks != []
    ensures FedAll(P, s, chunks) == Fed(P, s, Flatten(chunks), true)
    decreases |chunks|
  {
    hide Run;
    if |chunks| == 1 {
      assert Flatten(chunks) == chunks[0] + [] == chunks[0];
    } else {
      RunSplit(P, s, chunks[0], Flatten(chunks[1..]));
      var first := Run(P, s, chunks[0]);
      if first.dec.Some? {
        ChunkIndependence(P, first.dec.value, chunks[1..]);
      }
    }
  }
}
