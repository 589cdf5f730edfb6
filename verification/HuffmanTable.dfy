/**
 * What the table generator computes from a code tree: a row of sixteen transitions for every internal node,
 * four bits at a time, and the proof that reading octets through those rows is reading them bit by bit.
 */
module HuffmanTable {
  import opened Bytes
  import opened Bits
  import opened HuffmanCode

  const ACCEPTED := 0x4000
  const SYM := 0x8000
  const FAILED := 256

  /** One table entry: node number with flags, and the symbol emitted when the symbol flag is set. */
  datatype Cell = Cell(fstate: nat, sym: byte) {
    predicate Accepts() { fstate / ACCEPTED % 2 == 1 }
    predicate Emits() { fstate / SYM % 2 == 1 }
  }

  type table = seq<seq<Cell>>

  // ---------------------------------------------------------------- generator

  /** Internal nodes are numbered in the order in which the tree is visited, node before children. */
  function IdOf(t: Tree, p: bits): nat
    requires IsInternal(t, p)
    ensures IdOf(t, p) < Internals(t)
    decreases |p|
  {
    if p == [] then 0
    else if p[0] then 1 + Internals(t.left) + IdOf(t.right, p[1..])
    else 1 + IdOf(t.left, p[1..])
  }

  /** A prefix of at most seven ones may be left over at the end of a string. */
  predicate AcceptPath(p: bits) {
    |p| <= 7 && AllOnes(p)
  }

  /** Where four bits lead: a node of the tree, or nowhere after EOS. */
  datatype Target = Target(dest: Option<bits>, sym: Option<nat>)

  /** The symbol met so far, when the walk comes to `q`. */
  function SymAt(t: Tree, q: bits, sym: Option<nat>): Option<nat> {
    if IsLeaf(t, q) then Some(At(t, q).value.sym) else sym
  }

  function Traverse(t: Tree, p: bits, sym: Option<nat>, left: nat): seq<Target>
    decreases left
  {
    if left == 0 then
      [if sym == Some(EOS) then Target(None, None) else Target(Some(p), sym)]
    else
      var q := if IsLeaf(t, p) then [] else p;
      Go(t, q + [false], sym, left) + Go(t, q + [true], sym, left)
  }

  function Go(t: Tree, q: bits, sym: Option<nat>, left: nat): seq<Target>
    requires left > 0
    decreases left, 0
  {
    Traverse(t, q, SymAt(t, q, sym), left - 1)
  }

  function Print(t: Tree, g: Target): Cell {
    var out := if g.sym.Some? then g.sym.value % 256 else 0;
    var flag := if g.sym.Some? then SYM else 0;
    if g.dest.None? then Cell(FAILED + flag, out)
    else if !IsInternal(t, g.dest.value) then Cell(0 + ACCEPTED + flag, out)
    else Cell(IdOf(t, g.dest.value) + (if AcceptPath(g.dest.value) then ACCEPTED else 0) + flag, out)
  }

  function Row(t: Tree, p: bits): seq<Cell> {
    var trans := Traverse(t, p, None, 4);
    seq(|trans|, i requires 0 <= i < |trans| => Print(t, trans[i]))
  }

  /** Internal nodes of the subtree `u` rooted at `p`, node before children. */
  function Visit(p: bits, u: Tree): seq<bits>
    decreases u
  {
    match u
    case Leaf(_) => []
    case Node(l, r) => [p] + Visit(p + [false], l) + Visit(p + [true], r)
  }

  function FailedRow(): seq<Cell> {
    seq(16, _ => Cell(FAILED, 0))
  }

  function Generate(t: Tree): table {
    var nodes := Visit([], t);
    seq(|nodes|, i requires 0 <= i < |nodes| => Row(t, nodes[i])) + [FailedRow()]
  }

  // ---------------------------------------------------------------- decoder

  /** One nibble through the table. */
  function Look(tbl: table, fstate: nat, x: nat): Cell {
    if fstate % 512 < |tbl| && x < |tbl[fstate % 512]| then tbl[fstate % 512][x] else Cell(FAILED, 0)
  }

  function Output(c: Cell): seq<byte> {
    if c.Emits() then [c.sym] else []
  }

  function ReadByte(tbl: table, fstate: nat, b: byte): (nat, seq<byte>) {
    var c1 := Look(tbl, fstate, b / 16);
    var c2 := Look(tbl, c1.fstate, b % 16);
    (c2.fstate, Output(c1) + Output(c2))
  }

  function Read(tbl: table, fstate: nat, s: seq<byte>): (nat, seq<byte>)
    decreases |s|
  {
    if s == [] then (fstate, [])
    else
      var (f1, out1) := ReadByte(tbl, fstate, s[0]);
      var (f2, out2) := Read(tbl, f1, s[1..]);
      (f2, out1 + out2)
  }

  lemma {:induction false} ReadAppend(tbl: table, fstate: nat, a: seq<byte>, b: seq<byte>)
    ensures var (f1, out1) := Read(tbl, fstate, a);
            var (f2, out2) := Read(tbl, f1, b);
            Read(tbl, fstate, a + b) == (f2, out1 + out2)
    decreases |a|
  {
    hide ReadByte;
    if a == [] {
      assert a + b == b;
      assert [] + Read(tbl, fstate, b).1 == Read(tbl, fstate, b).1;
    } else {
      assert (a + b)[0] == a[0] && (a + b)[1..] == a[1..] + b;
      var (f1, out1) := ReadByte(tbl, fstate, a[0]);
      ReadAppend(tbl, f1, a[1..], b);
      var (f2, out2) := Read(tbl, f1, a[1..]);
      assert out1 + (out2 + Read(tbl, f2, b).1) == (out1 + out2) + Read(tbl, f2, b).1;
    }
  }

  // ---------------------------------------------------------------- the table's layout

  lemma {:induction false} VisitCount(p: bits, u: Tree)
    ensures |Visit(p, u)| == Internals(u)
    decreases u
  {
    match u
    case Leaf(_) =>
    case Node(l, r) =>
      VisitCount(p + [false], l);
      VisitCount(p + [true], r);
  }

  /** A node's number is its place in the visit, hence the index of its row. */
  lemma {:induction false} NumberIsPlace(p: bits, u: Tree, q: bits)
    requires IsInternal(u, q)
    ensures IdOf(u, q) < |Visit(p, u)| && Visit(p, u)[IdOf(u, q)] == p + q
    decreases u
  {
    VisitCount(p, u);
    if q == [] {
      assert p + q == p;
    } else {
      var lp, rp := p + [false], p + [true];
      var lows, highs := Visit(lp, u.left), Visit(rp, u.right);
      VisitCount(lp, u.left);
      if q[0] {
        NumberIsPlace(rp, u.right, q[1..]);
        assert rp + q[1..] == p + q;
        InThird([p], lows, highs, IdOf(u.right, q[1..]));
      } else {
        NumberIsPlace(lp, u.left, q[1..]);
        assert lp + q[1..] == p + q;
        InSecond([p], lows, highs, IdOf(u.left, q[1..]));
      }
    }
  }

  lemma InSecond<T>(a: seq<T>, b: seq<T>, c: seq<T>, i: nat)
    requires i < |b|
    ensures (a + b + c)[|a| + i] == b[i]
  {
  }

  lemma InThird<T>(a: seq<T>, b: seq<T>, c: seq<T>, i: nat)
    requires i < |c|
    ensures (a + b + c)[|a| + |b| + i] == c[i]
  {
  }

  // ---------------------------------------------------------------- four bits at once

  /** The generator's own reading of a few bits: it stays on a leaf until the next bit moves on from the root. */
  function Lazy(t: Tree, p: bits, sym: Option<nat>, s: bits): Target
    decreases |s|
  {
    if s == [] then
      if sym == Some(EOS) then Target(None, None) else Target(Some(p), sym)
    else
      var q := (if IsLeaf(t, p) then [] else p) + [s[0]];
      Lazy(t, q, SymAt(t, q, sym), s[1..])
  }

  lemma {:induction false} TraverseIsLazy(t: Tree, p: bits, sym: Option<nat>, s: bits)
    ensures |Traverse(t, p, sym, |s|)| == Pow2(|s|)
    ensures Traverse(t, p, sym, |s|)[Index(s)] == Lazy(t, p, sym, s)
    decreases |s|
  {
    hide IsLeaf, SymAt;
    if s != [] {
      var q := if IsLeaf(t, p) then [] else p;
      var n := |s| - 1;
      var q0, q1 := q + [false], q + [true];
      TraverseIsLazy(t, q0, SymAt(t, q0, sym), s[1..]);
      TraverseIsLazy(t, q1, SymAt(t, q1, sym), s[1..]);
    }
  }

  /** Position of a bit string among all those of its length. */
  function Index(s: bits): (i: nat)
    ensures i < Pow2(|s|)
  {
    if s == [] then 0 else (if s[0] then Pow2(|s| - 1) else 0) + Index(s[1..])
  }

  lemma NibbleIndex(x: nat)
    requires x < 16
    ensures Index(NibbleBits(x)) == x
  {
    var s := NibbleBits(x);
    var s1 := s[1..];
    var s2 := s1[1..];
    var s3 := s2[1..];
    assert Pow2(0) == 1 && Pow2(1) == 2 && Pow2(2) == 4 && Pow2(3) == 8;
    assert Index(s3) == Bit(s[3]) by { assert s3[1..] == []; }
    assert Index(s2) == 2 * Bit(s[2]) + Index(s3);
    assert Index(s1) == 4 * Bit(s[1]) + Index(s2);
  }

  /** The bit reader's position when the generator stands at `p` having met `sym`. */
  function Position(t: Tree, p: bits, sym: Option<nat>): Walk {
    if sym == Some(EOS) then Trap else if IsLeaf(t, p) then Inside([]) else Inside(p)
  }

  function Emitted(sym: Option<nat>): seq<byte> {
    match sym
    case None => []
    case Some(s) => if s < EOS then [s] else []
  }

  /**
   * Up to four bits from an internal node meet at most one leaf, since no code is shorter than five bits;
   * so one target cell can hold both the place reached and the symbol met.
   */
  lemma {:induction false} LazyIsWalk(h: Code, p: bits, sym: Option<nat>, s: bits)
    requires WellFormed(h) && |s| <= 4
    requires sym.None? ==> IsInternal(h.tree, p)
    requires sym.Some? ==> sym.value <= EOS && At(h.tree, p).Some?
    requires sym.Some? ==> |s| + (if IsLeaf(h.tree, p) then 0 else |p|) < 5
    ensures var g := Lazy(h.tree, p, sym, s);
            var (w, out) := WalkBits(h.tree, Position(h.tree, p, sym), s);
            && Emitted(sym) + out == Emitted(g.sym)
            && (w.Trap? <==> g.dest.None?)
            && (g.dest.None? ==> g.sym.None?)
            && (g.sym.Some? ==> g.sym.value < EOS)
            && (w.Inside? ==> At(h.tree, g.dest.value).Some? && w == Position(h.tree, g.dest.value, g.sym))
    decreases |s|
  {
    if s == [] {
      assert Emitted(sym) + [] == Emitted(sym);
    } else {
      RootInternal(h);
      var p0 := if IsLeaf(h.tree, p) then [] else p;
      var q := p0 + [s[0]];
      Extend(h.tree, p0, s[0]);
      var nsym := SymAt(h.tree, q, sym);
      if sym.Some? {
        NoShallowLeaf(h, q);
      }
      LazyIsWalk(h, q, nsym, s[1..]);
      var w0 := Position(h.tree, p, sym);
      var (w1, out1) := WalkBit(h.tree, w0, s[0]);
      assert w1 == Position(h.tree, q, nsym);
      assert Emitted(nsym) == Emitted(sym) + out1;
      var out2 := WalkBits(h.tree, w1, s[1..]).1;
      assert Emitted(sym) + (out1 + out2) == (Emitted(sym) + out1) + out2;
    }
  }

  // ---------------------------------------------------------------- the automaton simulates the walk

  /** The automaton state that stands for a reader position; the symbol flag is left over and ignored. */
  ghost predicate Represents(t: Tree, fstate: nat, w: Walk) {
    && fstate < 0x1_0000
    && Live(t, w)
    && fstate % 512 == (if w.Trap? then FAILED else IdOf(t, w.path))
    && (fstate / ACCEPTED % 2 == 1 <==> Accepting(w))
    && (w.Trap? ==> fstate == FAILED)
  }

  lemma FlagArithmetic(id: nat, a: bool, e: bool)
    requires id <= 256
    ensures var f := id + (if a then ACCEPTED else 0) + (if e then SYM else 0);
            f < 0x1_0000 && f % 512 == id && (f / ACCEPTED % 2 == 1 <==> a) && (f / SYM % 2 == 1 <==> e)
  {
  }

  lemma RowLookup(h: Code, w: Walk, fstate: nat, x: nat)
    requires WellFormed(h) && Represents(h.tree, fstate, w) && w.Inside? && x < 16
    ensures Look(Generate(h.tree), fstate, x) == Print(h.tree, Lazy(h.tree, w.path, None, NibbleBits(x)))
  {
    hide WellFormed, Traverse, Lazy, Visit, IdOf, Print, Accepting, NibbleBits;
    var tbl, p := Generate(h.tree), w.path;
    NumberIsPlace([], h.tree, p);
    assert [] + p == p;
    assert tbl[fstate % 512] == Row(h.tree, p);
    TraverseIsLazy(h.tree, p, None, NibbleBits(x));
    NibbleIndex(x);
    assert Pow2(4) == 16;
  }

  lemma NibbleStep(h: Code, w: Walk, fstate: nat, x: nat)
    requires WellFormed(h) && Represents(h.tree, fstate, w) && x < 16
    ensures var c := Look(Generate(h.tree), fstate, x);
            var (w', out) := WalkBits(h.tree, w, NibbleBits(x));
            Represents(h.tree, c.fstate, w') && Output(c) == out
  {
    if w.Trap? {
      TrapForever(h.tree, NibbleBits(x));
      VisitCount([], h.tree);
      assert Generate(h.tree)[256] == FailedRow();
      FlagArithmetic(256, false, false);
    } else {
      RowLookup(h, w, fstate, x);
      LazyIsWalk(h, w.path, None, NibbleBits(x));
      WalkLive(h, w, NibbleBits(x));
      var (w', out) := WalkBits(h.tree, w, NibbleBits(x));
      assert Emitted(None) + out == out;
      PrintedState(h, Lazy(h.tree, w.path, None, NibbleBits(x)), w');
    }
  }

  lemma PrintedState(h: Code, g: Target, w: Walk)
    requires WellFormed(h) && Live(h.tree, w)
    requires (w.Trap? <==> g.dest.None?) && (g.dest.None? ==> g.sym.None?) && (g.sym.Some? ==> g.sym.value < EOS)
    requires w.Inside? ==> At(h.tree, g.dest.value).Some? && w == Position(h.tree, g.dest.value, g.sym)
    ensures Represents(h.tree, Print(h.tree, g).fstate, w) && Output(Print(h.tree, g)) == Emitted(g.sym)
  {
    if g.dest.None? {
      FlagArithmetic(256, false, false);
    } else {
      var d := g.dest.value;
      var internal := IsInternal(h.tree, d);
      FlagArithmetic(if internal then IdOf(h.tree, d) else 0, !internal || AcceptPath(d), g.sym.Some?);
      RootInternal(h);
      assert IdOf(h.tree, []) == 0;
    }
  }

  lemma ByteStep(h: Code, w: Walk, fstate: nat, b: byte)
    requires WellFormed(h) && Represents(h.tree, fstate, w)
    ensures var (f, o) := ReadByte(Generate(h.tree), fstate, b);
            var (w', out) := WalkBits(h.tree, w, ByteBits(b));
            Represents(h.tree, f, w') && o == out
  {
    var c1 := Look(Generate(h.tree), fstate, b / 16);
    var w1 := WalkBits(h.tree, w, NibbleBits(b / 16)).0;
    NibbleStep(h, w, fstate, b / 16);
    NibbleStep(h, w1, c1.fstate, b % 16);
    WalkAppend(h.tree, w, NibbleBits(b / 16), NibbleBits(b % 16));
  }

  /**
   * The generated automaton means the tree: from any reader position it emits the same symbols, ends in the
   * state of the position the bit reader ends in, accepts exactly when that position may be padding, and is
   * stuck exactly when the bit reader has met EOS.
   */
  lemma {:induction false} TableMeansTree(h: Code, w: Walk, fstate: nat, s: seq<byte>)
    requires WellFormed(h) && Represents(h.tree, fstate, w)
    ensures var (f, o) := Read(Generate(h.tree), fstate, s);
            var (w', out) := WalkBits(h.tree, w, BitsOf(s));
            Represents(h.tree, f, w') && o == out
    decreases |s|
  {
    if s != [] {
      ByteStep(h, w, fstate, s[0]);
      var (f1, o1) := ReadByte(Generate(h.tree), fstate, s[0]);
      var w1 := WalkBits(h.tree, w, ByteBits(s[0])).0;
      TableMeansTree(h, w1, f1, s[1..]);
      WalkAppend(h.tree, w, ByteBits(s[0]), BitsOf(s[1..]));
    }
  }

  lemma InitialState(h: Code)
    requires WellFormed(h)
    ensures Represents(h.tree, ACCEPTED, Inside([]))
  {
    RootInternal(h);
  }

  /** The failure state is final: nothing more is emitted and it is never left. */
  ghost predicate Stuck(tbl: table) {
    forall s :: Read(tbl, FAILED, s) == (FAILED, [])
  }

  lemma FailureIsFinal(h: Code)
    requires WellFormed(h)
    ensures Stuck(Generate(h.tree))
  {
    forall s ensures Read(Generate(h.tree), FAILED, s) == (FAILED, []) {
      assert Represents(h.tree, FAILED, Trap);
      TableMeansTree(h, Trap, FAILED, s);
      TrapForever(h.tree, BitsOf(s));
    }
  }

  /** At most two symbols leave for every octet read, which is the room the inflater reserves. */
  lemma {:induction false} OutputRoom(tbl: table, fstate: nat, s: seq<byte>)
    ensures |Read(tbl, fstate, s).1| <= 2 * |s|
    decreases |s|
  {
    if s != [] {
      OutputRoom(tbl, ReadByte(tbl, fstate, s[0]).0, s[1..]);
    }
  }

  /** Reading through the table from the start accepts `s` as `src` exactly when `s` is the encoding of `src`. */
  lemma DecodesExactlyEncodings(h: Code, s: seq<byte>, src: seq<byte>)
    requires WellFormed(h)
    ensures var (f, out) := Read(Generate(h.tree), ACCEPTED, s);
            f / ACCEPTED % 2 == 1 && out == src <==> s == Encode(h, src)
  {
    InitialState(h);
    TableMeansTree(h, Inside([]), ACCEPTED, s);
    ReadsExactlyEncodings(h, s, src);
  }

  /** The encoding of a string reads back, ends acceptably, and is empty only for the empty string. */
  lemma EncodingReadsBack(h: Code, tbl: table, src: seq<byte>)
    requires WellFormed(h) && tbl == Generate(h.tree)
    ensures var e := Encode(h, src);
            Read(tbl, ACCEPTED, e).1 == src && Read(tbl, ACCEPTED, e).0 / ACCEPTED % 2 == 1
    ensures src != [] ==> Encode(h, src) != []
  {
    var e := Encode(h, src);
    DecodesExactlyEncodings(h, e, src);
    if src != [] {
      NonEmptyEncoding(h, src);
    }
  }

  lemma NonEmptyEncoding(h: Code, src: seq<byte>)
    requires src != [] && |h.codes| == 257 && |h.codes[src[0]]| > 0
    ensures Encode(h, src) != []
  {
    assert |CodeBits(h, src)| >= |h.codes[src[0]]|;
  }
}
