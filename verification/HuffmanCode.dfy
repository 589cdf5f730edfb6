/** Complete prefix codes, and the bit-by-bit reading of a code tree that everything else is measured against. */
module HuffmanCode {
  import opened Bytes
  import opened Bits

  const EOS := 256

  datatype Tree = Leaf(sym: nat) | Node(left: Tree, right: Tree)

  /** The subtree reached by following `p` from the root. */
  function At(t: Tree, p: bits): Option<Tree> {
    if p == [] then Some(t)
    else match t
      case Leaf(_) => None
      case Node(l, r) => At(if p[0] then r else l, p[1..])
  }

  predicate IsInternal(t: Tree, p: bits) {
    At(t, p).Some? && At(t, p).value.Node?
  }

  predicate IsLeaf(t: Tree, p: bits) {
    At(t, p).Some? && At(t, p).value.Leaf?
  }

  function Internals(t: Tree): nat {
    match t
    case Leaf(_) => 0
    case Node(l, r) => 1 + Internals(l) + Internals(r)
  }

  lemma {:induction false} AtAppend(t: Tree, p: bits, q: bits)
    ensures At(t, p + q) == match At(t, p) case None => None case Some(u) => At(u, q)
    decreases |p|
  {
    if p == [] {
      assert p + q == q;
    } else if t.Node? {
      assert (p + q)[0] == p[0] && (p + q)[1..] == p[1..] + q;
      AtAppend(if p[0] then t.right else t.left, p[1..], q);
    } else {
      assert (p + q) != [];
    }
  }

  /** Every proper prefix of a path into the tree ends at an internal node. */
  lemma PrefixInternal(t: Tree, p: bits, n: nat)
    requires n < |p| && At(t, p).Some?
    ensures IsInternal(t, p[..n])
  {
    AtAppend(t, p[..n], p[n..]);
    assert p[..n] + p[n..] == p;
  }

  /**
   * A code is a tree together with the bit string of every symbol: the 256 octets and EOS.
   * The leaves are exactly the codes, every code has at least 5 and at most 32 bits, and EOS is a long
   * enough run of ones to serve as padding.
   */
  datatype Code = Code(tree: Tree, codes: seq<bits>)

  ghost predicate WellFormed(h: Code) {
    && |h.codes| == 257
    && (forall s :: 0 <= s < 257 ==> 5 <= |h.codes[s]| <= 32 && At(h.tree, h.codes[s]) == Some(Leaf(s)))
    && (forall p :: IsLeaf(h.tree, p) ==> 0 <= At(h.tree, p).value.sym < 257 && p == h.codes[At(h.tree, p).value.sym])
    && Internals(h.tree) == 256
    && AllOnes(h.codes[EOS])
    && |h.codes[EOS]| >= 8
  }

  lemma RootInternal(h: Code)
    requires WellFormed(h)
    ensures IsInternal(h.tree, [])
  {
    assert At(h.tree, h.codes[0]) == Some(Leaf(0));
  }

  lemma NoShallowLeaf(h: Code, p: bits)
    requires WellFormed(h) && |p| < 5 && At(h.tree, p).Some?
    ensures IsInternal(h.tree, p)
  {
  }

  lemma {:induction false} ShortPathsExist(h: Code, p: bits)
    requires WellFormed(h) && |p| < 5
    ensures IsInternal(h.tree, p)
    decreases |p|
  {
    if p == [] {
      RootInternal(h);
    } else {
      var q := p[..|p| - 1];
      ShortPathsExist(h, q);
      Extend(h.tree, q, p[|p| - 1]);
      assert q + [p[|p| - 1]] == p;
      NoShallowLeaf(h, p);
    }
  }

  /** One more bit below an internal node stays in the tree: the code is complete. */
  lemma Extend(t: Tree, p: bits, b: bool)
    requires IsInternal(t, p)
    ensures At(t, p + [b]) == Some(if b then At(t, p).value.right else At(t, p).value.left)
  {
    AtAppend(t, p, [b]);
    assert [b][1..] == [];
    var u := At(t, p).value;
    assert At(u, [b]) == At(if b then u.right else u.left, []);
  }

  // ---------------------------------------------------------------- bit-by-bit walk

  /** A reader is inside the tree, or has read EOS and is stuck. */
  datatype Walk = Inside(path: bits) | Trap

  function WalkBit(t: Tree, w: Walk, b: bool): (Walk, seq<byte>) {
    if w.Trap? then (Trap, [])
    else
      var q := w.path + [b];
      match At(t, q)
      case Some(Leaf(s)) => if s >= EOS then (Trap, []) else (Inside([]), [s])
      case _ => (Inside(q), [])
  }

  function WalkBits(t: Tree, w: Walk, s: bits): (Walk, seq<byte>)
    decreases |s|
  {
    if s == [] then (w, [])
    else
      var (w1, out1) := WalkBit(t, w, s[0]);
      var (w2, out2) := WalkBits(t, w1, s[1..]);
      (w2, out1 + out2)
  }

  lemma {:induction false} WalkAppend(t: Tree, w: Walk, a: bits, b: bits)
    ensures var (w1, out1) := WalkBits(t, w, a);
            var (w2, out2) := WalkBits(t, w1, b);
            WalkBits(t, w, a + b) == (w2, out1 + out2)
    decreases |a|
  {
    if a == [] {
      assert a + b == b;
      assert [] + WalkBits(t, w, b).1 == WalkBits(t, w, b).1;
    } else {
      assert (a + b)[0] == a[0] && (a + b)[1..] == a[1..] + b;
      var (w1, out1) := WalkBit(t, w, a[0]);
      WalkAppend(t, w1, a[1..], b);
      var (w2, out2) := WalkBits(t, w1, a[1..]);
      var (w3, out3) := WalkBits(t, w2, b);
      assert out1 + (out2 + out3) == (out1 + out2) + out3;
    }
  }

  lemma {:induction false} TrapForever(t: Tree, s: bits)
    ensures WalkBits(t, Trap, s) == (Trap, [])
    decreases |s|
  {
    if s != [] {
      TrapForever(t, s[1..]);
      var none: seq<byte> := [];
      assert none + none == none;
    }
  }

  /** A reader position that can actually occur. */
  predicate Live(t: Tree, w: Walk) {
    w.Inside? ==> IsInternal(t, w.path)
  }

  lemma {:induction false} WalkLive(h: Code, w: Walk, s: bits)
    requires WellFormed(h) && Live(h.tree, w)
    ensures Live(h.tree, WalkBits(h.tree, w, s).0)
    decreases |s|
  {
    if s != [] {
      if w.Inside? {
        Extend(h.tree, w.path, s[0]);
        RootInternal(h);
      }
      WalkLive(h, WalkBit(h.tree, w, s[0]).0, s[1..]);
    }
  }

  // ---------------------------------------------------------------- encoding

  function CodeBits(h: Code, src: seq<byte>): (r: bits)
    requires |h.codes| == 257
  {
    if src == [] then [] else h.codes[src[0]] + CodeBits(h, src[1..])
  }

  lemma {:induction false} CodeBitsAppend(h: Code, a: seq<byte>, b: seq<byte>)
    requires |h.codes| == 257
    ensures CodeBits(h, a + b) == CodeBits(h, a) + CodeBits(h, b)
  {
    if a == [] {
      assert a + b == b;
    } else {
      assert (a + b)[0] == a[0] && (a + b)[1..] == a[1..] + b;
      CodeBitsAppend(h, a[1..], b);
    }
  }

  /** The encoded form of `src`: its code bits, filled up with ones to whole octets. */
  function Encode(h: Code, src: seq<byte>): (r: seq<byte>)
    requires |h.codes| == 257
  {
    Pack(CodeBits(h, src))
  }

  /** The reader may stop at `w`: what it has not used is at most seven one bits. */
  predicate Accepting(w: Walk) {
    w.Inside? && |w.path| <= 7 && AllOnes(w.path)
  }

  /** Following the rest of a code from the middle ends at the root with one symbol. */
  lemma {:induction false} WalkRest(h: Code, s: nat, n: nat)
    requires WellFormed(h) && s < 256 && n < |h.codes[s]|
    ensures WalkBits(h.tree, Inside(h.codes[s][..n]), h.codes[s][n..]) == (Inside([]), [s])
    decreases |h.codes[s]| - n
  {
    var c := h.codes[s];
    var rest := c[n..];
    assert c[..n] + [rest[0]] == c[..n + 1] && rest[1..] == c[n + 1..];
    if n + 1 == |c| {
      assert c[..n + 1] == c && rest[1..] == [];
      assert WalkBit(h.tree, Inside(c[..n]), rest[0]) == (Inside([]), [s]);
      assert [s as byte] + [] == [s];
    } else {
      PrefixInternal(h.tree, c, n + 1);
      WalkRest(h, s, n + 1);
      assert WalkBit(h.tree, Inside(c[..n]), rest[0]) == (Inside(c[..n + 1]), []);
      assert [] + [s as byte] == [s];
    }
  }

  lemma {:induction false} WalkCodeBits(h: Code, src: seq<byte>)
    requires WellFormed(h)
    ensures WalkBits(h.tree, Inside([]), CodeBits(h, src)) == (Inside([]), src)
  {
    if src != [] {
      var c := h.codes[src[0]];
      assert c[..0] == [] && c[0..] == c;
      WalkRest(h, src[0], 0);
      WalkCodeBits(h, src[1..]);
      WalkAppend(h.tree, Inside([]), c, CodeBits(h, src[1..]));
      assert [src[0]] + src[1..] == src;
    }
  }

  lemma {:induction false} WalkPadding(h: Code, n: nat)
    requires WellFormed(h) && n <= 7
    ensures WalkBits(h.tree, Inside([]), Ones(n)) == (Inside(Ones(n)), [])
  {
    if n > 0 {
      WalkPadding(h, n - 1);
      WalkAppend(h.tree, Inside([]), Ones(n - 1), [true]);
      assert Ones(n - 1) + [true] == Ones(n);
      assert h.codes[EOS][..n] == Ones(n);
      PrefixInternal(h.tree, h.codes[EOS], n);
      assert [true][1..] == [];
      assert WalkBits(h.tree, Inside(Ones(n - 1)), [true]) == (Inside(Ones(n)), []);
    }
  }

  lemma LeafIsCode(h: Code, q: bits, s: byte)
    requires WellFormed(h) && At(h.tree, q) == Some(Leaf(s))
    ensures |h.codes| == 257 && h.codes[s] == q
  {
    assert IsLeaf(h.tree, q);
  }

  lemma CodeBitsCons(h: Code, s: byte, src: seq<byte>)
    requires |h.codes| == 257
    ensures CodeBits(h, [s] + src) == h.codes[s] + CodeBits(h, src)
  {
    assert ([s] + src)[1..] == src;
  }

  /** Whatever the reader has emitted and still holds spells exactly the bits it was given. */
  lemma {:induction false} WalkSpells(h: Code, p: bits, s: bits)
    requires WellFormed(h) && IsInternal(h.tree, p)
    ensures var (w, out) := WalkBits(h.tree, Inside(p), s);
            w.Inside? ==> p + s == CodeBits(h, out) + w.path
    decreases |s|
  {
    hide WellFormed, At;
    if s != [] {
      var q := p + [s[0]];
      Extend(h.tree, p, s[0]);
      assert p + s == q + s[1..];
      var (w1, out1) := WalkBit(h.tree, Inside(p), s[0]);
      var (w2, out2) := WalkBits(h.tree, w1, s[1..]);
      if w1.Trap? {
        TrapForever(h.tree, s[1..]);
      } else if out1 == [] {
        WalkSpells(h, q, s[1..]);
        assert [] + out2 == out2;
      } else {
        RootInternal(h);
        WalkSpells(h, [], s[1..]);
        LeafIsCode(h, q, out1[0]);
        if w2.Inside? {
          CodeBitsCons(h, out1[0], out2);
          assert [] + s[1..] == s[1..];
          assert p + s == q + (CodeBits(h, out2) + w2.path);
        }
      }
    }
  }

  /**
   * An octet string reads as `src` and ends acceptably exactly when it is the encoding of `src`: decoding
   * undoes encoding, and no other octet string is accepted for `src`.
   */
  lemma ReadsExactlyEncodings(h: Code, s: seq<byte>, src: seq<byte>)
    requires WellFormed(h)
    ensures var (w, out) := WalkBits(h.tree, Inside([]), BitsOf(s));
            Accepting(w) && out == src <==> s == Encode(h, src)
  {
    var (w, out) := WalkBits(h.tree, Inside([]), BitsOf(s));
    if s == Encode(h, src) {
      EncodedReadsBack(h, src);
    }
    if Accepting(w) && out == src {
      RootInternal(h);
      WalkSpells(h, [], BitsOf(s));
      assert [] + BitsOf(s) == BitsOf(s);
      PaddedUniquely(CodeBits(h, src), w.path, s);
    }
  }

  lemma EncodedReadsBack(h: Code, src: seq<byte>)
    requires WellFormed(h)
    ensures var (w, out) := WalkBits(h.tree, Inside([]), BitsOf(Encode(h, src)));
            Accepting(w) && out == src
  {
    var cb := CodeBits(h, src);
    var n := 8 * |Encode(h, src)| - |cb|;
    PackMeaning(cb);
    WalkCodeBits(h, src);
    WalkPadding(h, n);
    WalkAppend(h.tree, Inside([]), cb, Ones(n));
    assert src + [] == src;
  }

  lemma PaddedUniquely(cb: bits, pad: bits, s: seq<byte>)
    requires BitsOf(s) == cb + pad && |pad| <= 7 && AllOnes(pad)
    ensures s == Pack(cb)
  {
    PackMeaning(cb);
    assert |cb| + |pad| == 8 * |s|;
    assert |Pack(cb)| == |s|;
    assert pad == Ones(8 * |s| - |cb|);
    BitsOfInjective(s, Pack(cb));
  }
}
