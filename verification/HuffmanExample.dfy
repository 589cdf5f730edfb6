/** A code that meets everything asked of one: eight bits for every octet but the last, which makes room for EOS. */
module HuffmanExample {
  import opened Bytes
  import opened Bits
  import opened HuffmanCode

  function Balanced(d: nat, base: nat): Tree {
    if d == 0 then (if base == 255 then Node(Leaf(255), Leaf(256)) else Leaf(base))
    else Node(Balanced(d - 1, base), Balanced(d - 1, base + Pow2(d - 1)))
  }

  /** The `d` bits of `s`, highest first. */
  function Path(d: nat, s: nat): (p: bits)
    ensures |p| == d
  {
    if d == 0 then []
    else if s >= Pow2(d - 1) then [true] + Path(d - 1, s - Pow2(d - 1))
    else [false] + Path(d - 1, s)
  }

  function CodeOf(s: nat): bits {
    if s < 255 then Path(8, s) else Path(8, 255) + [s == 256]
  }

  function Example(): Code {
    Code(Balanced(8, 0), seq(257, s requires 0 <= s < 257 => CodeOf(s)))
  }

  lemma {:induction false} AtPath(d: nat, base: nat, s: nat)
    requires s < Pow2(d)
    ensures At(Balanced(d, base), Path(d, s)) == Some(Balanced(0, base + s))
    decreases d
  {
    if d > 0 {
      var p := Path(d, s);
      if s >= Pow2(d - 1) {
        assert p[1..] == Path(d - 1, s - Pow2(d - 1));
        AtPath(d - 1, base + Pow2(d - 1), s - Pow2(d - 1));
      } else {
        assert p[1..] == Path(d - 1, s);
        AtPath(d - 1, base, s);
      }
    }
  }

  /** Every leaf is found at the code of its symbol. */
  lemma {:induction false} LeafAtCode(d: nat, base: nat, p: bits)
    requires IsLeaf(Balanced(d, base), p) && base + Pow2(d) <= 256
    ensures var s := At(Balanced(d, base), p).value.sym;
            && base <= s <= base + Pow2(d)
            && (s < 255 ==> s < base + Pow2(d) && p == Path(d, s - base))
            && (s >= 255 ==> base + Pow2(d) == 256 && s <= 256 && p == Path(d, 255 - base) + [s == 256])
    decreases d
  {
    if d == 0 {
      if base == 255 {
        assert p[1..] == [];
        assert p == [p[0]];
      }
    } else {
      var half := Pow2(d - 1);
      assert p == [p[0]] + p[1..];
      LeafAtCode(d - 1, if p[0] then base + half else base, p[1..]);
    }
  }

  lemma {:induction false} InternalCount(d: nat, base: nat)
    requires base + Pow2(d) <= 256
    ensures Internals(Balanced(d, base)) == Pow2(d) - 1 + if base + Pow2(d) == 256 then 1 else 0
    decreases d
  {
    if d > 0 {
      InternalCount(d - 1, base);
      InternalCount(d - 1, base + Pow2(d - 1));
    }
  }

  lemma {:induction false} LastPathOnes(d: nat)
    ensures AllOnes(Path(d, Pow2(d) - 1))
    decreases d
  {
    if d > 0 {
      LastPathOnes(d - 1);
    }
  }

  lemma Tips(s: nat)
    ensures s < 255 ==> Balanced(0, s) == Leaf(s)
    ensures At(Balanced(0, 255), [s == 256]) == Some(if s == 256 then Leaf(256) else Leaf(255))
  {
    assert [s == 256][1..] == [];
  }

  lemma CodeInTree(s: nat)
    requires s < 257
    ensures At(Balanced(8, 0), CodeOf(s)) == Some(Leaf(s)) && 8 <= |CodeOf(s)| <= 9
  {
    Tips(s);
    hide Pow2, Balanced, Path, At;
    Pow2Of8();
    AtPath(8, 0, if s < 255 then s else 255);
    if s >= 255 {
      AtAppend(Balanced(8, 0), Path(8, 255), [s == 256]);
    }
  }

  lemma EosIsOnes()
    ensures AllOnes(CodeOf(256)) && |CodeOf(256)| == 9
  {
    hide Pow2, Path;
    Pow2Of8();
    assert Pow2(8) - 1 == 255;
    LastPathOnes(8);
  }

  lemma LeafOfExample(p: bits)
    requires IsLeaf(Balanced(8, 0), p)
    ensures var s := At(Balanced(8, 0), p).value.sym; s < 257 && p == CodeOf(s)
  {
    hide Pow2, Balanced, Path, At;
    Pow2Of8();
    LeafAtCode(8, 0, p);
  }

  lemma CountOfExample()
    ensures Internals(Balanced(8, 0)) == 256
  {
    hide Pow2, Balanced, Internals;
    Pow2Of8();
    InternalCount(8, 0);
  }

  /** So the requirement on codes can be met. */
  lemma ExampleIsWellFormed()
    ensures WellFormed(Example())
  {
    hide Balanced, CodeOf, At, Internals, AllOnes;
    CountOfExample();
    EosIsOnes();
    var h := Example();
    assert forall s :: 0 <= s < 257 ==> h.codes[s] == CodeOf(s);
    forall s | 0 <= s < 257
      ensures At(h.tree, h.codes[s]) == Some(Leaf(s)) && 5 <= |h.codes[s]| <= 32
    {
      CodeInTree(s);
    }
    forall p | IsLeaf(h.tree, p)
      ensures 0 <= At(h.tree, p).value.sym < 257 && p == h.codes[At(h.tree, p).value.sym]
    {
      LeafOfExample(p);
    }
  }
}
