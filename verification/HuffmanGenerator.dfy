/** The table generator as it is written: nodes linked into a tree, numbered, given their transitions, and printed. */
module HuffmanGenerator {
  import opened Bytes
  import opened Bits
  import opened HuffmanCode
  import opened HuffmanTable

  class Node {
    var term: Option<nat>
    var left: Node?
    var right: Node?
    var trans: seq<(Node?, Option<nat>)>
    var id: Option<nat>
    var accept: bool

    constructor ()
      ensures term.None? && left == null && right == null && trans == [] && id.None? && !accept
    {
      term, left, right, trans, id, accept := None, null, null, [], None, false;
    }
  }

  /** Which node stands at the end of which path. */
  type places = map<bits, Node>

  ghost function All(nodes: places): set<Node> {
    set p | p in nodes :: nodes[p]
  }

  ghost function Child(nodes: places, p: bits, b: bool): Node? {
    if p + [b] in nodes then nodes[p + [b]] else null
  }

  ghost predicate Distinct(nodes: places) {
    && [] in nodes
    && (forall p, q :: p in nodes && q in nodes && nodes[p] == nodes[q] ==> p == q)
    && (forall p, b :: p + [b] in nodes ==> p in nodes)
  }

  ghost predicate Linked(nodes: places)
    reads All(nodes)`left, All(nodes)`right
  {
    && Distinct(nodes)
    && forall p :: p in nodes ==> nodes[p].left == Child(nodes, p, false) && nodes[p].right == Child(nodes, p, true)
  }

  ghost predicate Blank(nodes: places)
    reads All(nodes)`trans, All(nodes)`id, All(nodes)`accept
  {
    forall p :: p in nodes ==> nodes[p].trans == [] && nodes[p].id.None? && !nodes[p].accept
  }

  class Context {
    var nextId: nat
    const root: Node
    ghost var nodes: places

    constructor ()
      ensures nextId == 0 && nodes == map[[] := root] && fresh(root)
      ensures Linked(nodes) && Blank(nodes) && root.term.None?
    {
      nextId := 0;
      root := new Node();
      nodes := map[];
      new;
      nodes := map[[] := root];
    }

    /** Makes the path `b` below `node` and puts the symbol at its end. */
    method Add(node: Node, sym: nat, b: bits, ghost p: bits)
      requires Linked(nodes) && Blank(nodes) && p in nodes && nodes[p] == node
      modifies this`nodes, All(nodes)
      ensures Linked(nodes) && Blank(nodes) && fresh(All(nodes) - old(All(nodes))) && nodes[[]] == old(nodes)[[]]
      ensures Terms(nodes) == WithCode(old(Terms(nodes)), p + b, sym)
      decreases |b|
    {
      hide Linked, Blank, WithCode, Terms;
      if |b| == 0 {
        assert p + b == p;
        PutTerm(node, sym, p);
        return;
      }
      assert (p + [b[0]]) + b[1..] == p + b;
      ghost var m := Terms(nodes);
      var child := Step(node, b[0], p);
      OnTheWay(m, p + [b[0]], p + b, sym);
      Add(child, sym, b[1..], p + [b[0]]);
    }

    method PutTerm(node: Node, sym: nat, ghost p: bits)
      requires Linked(nodes) && Blank(nodes) && p in nodes && nodes[p] == node
      modifies node`term
      ensures Linked(nodes) && Blank(nodes)
      ensures Terms(nodes) == WithCode(old(Terms(nodes)), p, sym)
    {
      Closed(nodes, p);
      node.term := Some(sym);
    }

    /** The child on one side, made if it is not there yet. */
    method Step(node: Node, b: bool, ghost p: bits) returns (child: Node)
      requires Linked(nodes) && Blank(nodes) && p in nodes && nodes[p] == node
      modifies this`nodes, node`left, node`right
      ensures Linked(nodes) && Blank(nodes) && fresh(All(nodes) - old(All(nodes))) && nodes[[]] == old(nodes)[[]]
      ensures p + [b] in nodes && nodes[p + [b]] == child
      ensures Terms(nodes) == if p + [b] in old(nodes) then old(Terms(nodes)) else old(Terms(nodes))[p + [b] := None]
    {
      hide Distinct, Child, Terms;
      var next := if b then node.right else node.left;
      assert next == Child(nodes, p, b);
      ChildIs(nodes, p, b);
      if next != null {
        return next;
      }
      hide Linked, Blank;
      child := MakeChild(node, b, p);
    }

    method MakeChild(node: Node, b: bool, ghost p: bits) returns (child: Node)
      requires Linked(nodes) && Blank(nodes) && p in nodes && nodes[p] == node && p + [b] !in nodes
      modifies this`nodes, node`left, node`right
      ensures Linked(nodes) && Blank(nodes) && fresh(All(nodes) - old(All(nodes)))
      ensures nodes == old(nodes)[p + [b] := child]
      ensures Terms(nodes) == old(Terms(nodes))[p + [b] := None]
    {
      hide Distinct, Child, Blank, Terms, Linked, LinkedBut;
      child := new Node();
      assert child !in All(nodes);
      hide All;
      MorePlaces(nodes, p, b, child);
      Link(node, b, child, p);
      LinkedMore(nodes, p, b, child);
      nodes := nodes[p + [b] := child];
    }

    method Link(node: Node, b: bool, child: Node, ghost p: bits)
      requires Linked(nodes) && p in nodes && nodes[p] == node
      modifies node`left, node`right
      ensures LinkedBut(nodes, p, b, child)
      ensures node != child ==> child.left == old(child.left) && child.right == old(child.right)
    {
      hide Child;
      if b {
        node.right := child;
      } else {
        node.left := child;
      }
    }

    method TreeAdd(sym: nat, b: bits)
      requires Linked(nodes) && Blank(nodes) && [] in nodes && nodes[[]] == root
      modifies this`nodes, All(nodes)
      ensures Linked(nodes) && Blank(nodes) && fresh(All(nodes) - old(All(nodes)))
      ensures [] in nodes && nodes[[]] == root && Terms(nodes) == WithCode(old(Terms(nodes)), b, sym)
    {
      assert [] + b == b;
      Add(root, sym, b, []);
    }

    /** All codes of a well-formed code, in the order of their symbols, spell its tree. */
    method AddAll(codes: seq<bits>, ghost h: Code)
      requires WellFormed(h) && codes == h.codes && Linked(nodes) && Blank(nodes) && nodes == map[[] := root]
      requires root.term.None?
      modifies this`nodes, All(nodes)
      ensures Linked(nodes) && Blank(nodes) && fresh(All(nodes) - old(All(nodes)))
      ensures [] in nodes && nodes[[]] == root
      ensures Spells(Terms(nodes), h.tree)
    {
      hide Linked, Blank, WellFormed, Spells, BuiltFrom, WithCode, Terms;
      NothingBuilt(nodes, root);
      CodesDiffer(h);
      for s := 0 to 257
        invariant Linked(nodes) && Blank(nodes) && fresh(All(nodes) - old(All(nodes)))
        invariant [] in nodes && nodes[[]] == root
        invariant BuiltFrom(Terms(nodes), h.codes[..s])
      {
        OneMoreCode(Terms(nodes), h.codes, s);
        TreeAdd(s, codes[s]);
      }
      assert h.codes[..257] == h.codes;
      BuiltIsTree(h, Terms(nodes));
    }

    // ---------------------------------------------------------------- numbering

    /** Numbers the internal nodes below `node`, node before children, and marks those where a string may end. */
    method SetNodeId(node: Node, prefix: bits,
                     ghost t: Tree, ghost u: Tree, ghost nodeAt: places, ghost every: set<Node>)
      requires Stands(nodeAt, t, prefix, node) && At(t, prefix) == Some(u) && All(nodeAt) <= every
      modifies this`nextId, every`id, every`accept
      ensures nextId == old(nextId) + Internals(u)
      ensures TreeNumbered(old(Ids(nodeAt)), Ids(nodeAt), t, prefix, old(nextId))
      decreases u, 1
    {
      hide Stands, TreeNumbered, Ids, RootNumbered, SidesNumbered, All, At, Distinct;
      Place(nodeAt, t, prefix, node);
      if node.term.Some? {
        LeafNumbered(Ids(nodeAt), t, prefix, nextId);
        return;
      }
      assert node in every;
      ghost var m, from := Ids(nodeAt), nextId;
      NumberNode(node, prefix, nodeAt);
      ghost var m1 := Ids(nodeAt);
      SetChildrenIds(node, prefix, t, u, nodeAt, every);
      NodeNumbered(m, m1, Ids(nodeAt), t, prefix, from);
    }

    method SetChildrenIds(node: Node, prefix: bits,
                          ghost t: Tree, ghost u: Tree, ghost nodeAt: places, ghost every: set<Node>)
      requires Stands(nodeAt, t, prefix, node) && u.Node? && At(t, prefix) == Some(u) && All(nodeAt) <= every
      modifies this`nextId, every`id, every`accept
      ensures nextId == old(nextId) + Internals(u.left) + Internals(u.right)
      ensures SidesNumbered(old(Ids(nodeAt)), Ids(nodeAt), t, prefix, old(nextId))
      decreases u, 0
    {
      hide Stands, TreeNumbered, Ids, SidesNumbered, All, At;
      Place(nodeAt, t, prefix, node);
      ghost var m, from := Ids(nodeAt), nextId;
      SetNodeId(node.left, prefix + [false], t, u.left, nodeAt, every);
      ghost var m1 := Ids(nodeAt);
      SetNodeId(node.right, prefix + [true], t, u.right, nodeAt, every);
      BothAre(m, m1, Ids(nodeAt), t, prefix, from);
    }

    method NumberNode(node: Node, prefix: bits, ghost nodeAt: places)
      requires Distinct(nodeAt) && prefix in nodeAt && nodeAt[prefix] == node
      modifies this`nextId, node`id, node`accept
      ensures nextId == old(nextId) + 1 && RootNumbered(old(Ids(nodeAt)), Ids(nodeAt), prefix, old(nextId))
    {
      if |prefix| <= 7 && AllOnes(prefix) {
        node.accept := true;
      }
      node.id := Some(nextId);
      nextId := nextId + 1;
    }

    // ---------------------------------------------------------------- transitions

    /** Appends to `start` where every string of `left` more bits leads, the ones with a leading zero first. */
    method Traverse(node: Node, sym: Option<nat>, start: Node, left: nat,
                    ghost p: bits, ghost h: Code, ghost nodeAt: places)
      requires WellFormed(h) && Stands(nodeAt, h.tree, p, node) && Stands(nodeAt, h.tree, [], root)
      requires left <= 4 && (sym.Some? ==> left + (if IsLeaf(h.tree, p) then 0 else |p|) < 5)
      modifies start`trans
      ensures start.trans == old(start.trans) + Resolve(nodeAt, HuffmanTable.Traverse(h.tree, p, sym, left))
      decreases left, 1
    {
      hide WellFormed, Stands, Resolve, At;
      if left == 0 {
        ResolveOne(nodeAt, h.tree, p, sym, node);
        start.trans := start.trans + [if sym == Some(EOS) then (null, None) else (node, sym)];
        return;
      }
      TraverseFrom(h, p, sym, left);
      Place(nodeAt, h.tree, p, node);
      var from := node;
      ghost var q := p;
      if node.term.Some? {
        from, q := root, [];
      }
      Place(nodeAt, h.tree, q, from);
      ghost var was := start.trans;
      Go(from.left, sym, start, left, q + [false], h, nodeAt);
      Go(from.right, sym, start, left, q + [true], h, nodeAt);
      ResolveBoth(nodeAt, h.tree, q, sym, left, was);
    }

    method Go(node: Node, sym: Option<nat>, start: Node, left: nat, ghost q: bits, ghost h: Code, ghost nodeAt: places)
      requires WellFormed(h) && Stands(nodeAt, h.tree, q, node) && Stands(nodeAt, h.tree, [], root)
      requires 0 < left <= 4 && q != [] && (sym.Some? ==> left + |q| < 6)
      modifies start`trans
      ensures start.trans == old(start.trans) + Resolve(nodeAt, HuffmanTable.Go(h.tree, q, sym, left))
      decreases left, 0
    {
      hide WellFormed, Stands, Resolve, At;
      Place(nodeAt, h.tree, q, node);
      NotTwice(h, q, sym, left);
      var nsym := sym;
      if node.term.Some? {
        assert sym.None?;
        nsym := node.term;
      }
      Traverse(node, nsym, start, left - 1, q, h, nodeAt);
    }

    /** Every node below gets its sixteen transitions. */
    method BuildTransitionTable(node: Node?,
                                ghost p: bits, ghost u: Tree, ghost h: Code, ghost nodeAt: places,
                                ghost every: set<Node>)
      requires WellFormed(h) && Stands(nodeAt, h.tree, [], root) && All(nodeAt) <= every
      requires node != null ==> Stands(nodeAt, h.tree, p, node) && At(h.tree, p) == Some(u)
      modifies every`trans
      ensures node != null ==> TreeFilled(old(Rows(nodeAt)), Rows(nodeAt), nodeAt, h.tree, p)
      ensures node == null ==> Rows(nodeAt) == old(Rows(nodeAt))
      decreases node != null, u, 1
    {
      hide WellFormed, Stands, TreeFilled, RootFilled, SidesFilled, Rows, All, At;
      if node == null {
        return;
      }
      Place(nodeAt, h.tree, p, node);
      ghost var m := Rows(nodeAt);
      FillNode(node, p, h, nodeAt);
      ghost var m1 := Rows(nodeAt);
      BuildSides(node, p, u, h, nodeAt, every);
      if IsInternal(h.tree, p) {
        NodeFilled(m, m1, Rows(nodeAt), nodeAt, h.tree, p);
      } else {
        LeafFilled(m, m1, nodeAt, h.tree, p);
      }
    }

    method FillNode(node: Node, ghost p: bits, ghost h: Code, ghost nodeAt: places)
      requires WellFormed(h) && Stands(nodeAt, h.tree, p, node) && Stands(nodeAt, h.tree, [], root)
      modifies node`trans
      ensures RootFilled(old(Rows(nodeAt)), Rows(nodeAt), nodeAt, h.tree, p)
    {
      hide WellFormed, At, HuffmanTable.Traverse, Resolve, Spells, Child, Terms;
      Traverse(node, None, node, 4, p, h, nodeAt);
    }

    method BuildSides(node: Node,
                      ghost p: bits, ghost u: Tree, ghost h: Code, ghost nodeAt: places, ghost every: set<Node>)
      requires WellFormed(h) && Stands(nodeAt, h.tree, [], root) && All(nodeAt) <= every
      requires Stands(nodeAt, h.tree, p, node) && At(h.tree, p) == Some(u)
      modifies every`trans
      ensures if IsInternal(h.tree, p) then SidesFilled(old(Rows(nodeAt)), Rows(nodeAt), nodeAt, h.tree, p)
              else Rows(nodeAt) == old(Rows(nodeAt))
      decreases true, u, 0
    {
      hide WellFormed, Stands, TreeFilled, SidesFilled, Rows, All, At;
      Place(nodeAt, h.tree, p, node);
      ghost var m := Rows(nodeAt);
      BuildTransitionTable(node.left, p + [false], if u.Node? then u.left else u, h, nodeAt, every);
      ghost var m1 := Rows(nodeAt);
      BuildTransitionTable(node.right, p + [true], if u.Node? then u.right else u, h, nodeAt, every);
      if IsInternal(h.tree, p) {
        BothFilled(m, m1, Rows(nodeAt), nodeAt, h.tree, p);
      }
    }

    // ---------------------------------------------------------------- printing

    method PrintCell(nd: Node?, sym: Option<nat>, ghost g: Target, ghost h: Code, ghost nodeAt: places)
      returns (c: Cell)
      requires Complete(nodeAt, h.tree) && (nd, sym) == ResolveTarget(nodeAt, g)
      requires g.dest.Some? ==> g.dest.value in nodeAt
      ensures c == HuffmanTable.Print(h.tree, g) && Complete(nodeAt, h.tree)
    {
      var flags := if sym.Some? then SYM else 0;
      var out := if sym.Some? then sym.value % 256 else 0;
      var id := FAILED;
      if nd != null {
        if nd.id.None? {
          id := 0;
          flags := flags + ACCEPTED;
        } else {
          id := nd.id.value;
          if nd.accept {
            flags := flags + ACCEPTED;
          }
        }
      }
      c := Cell(id + flags, out);
    }

    method PrintRow(node: Node, ghost p: bits, ghost h: Code, ghost nodeAt: places) returns (row: seq<Cell>)
      requires WellFormed(h) && Stands(nodeAt, h.tree, p, node) && Complete(nodeAt, h.tree)
      ensures row == Row(h.tree, p)
    {
      hide WellFormed, Complete, RowTargets, HuffmanTable.Print, At, Row;
      RowStored(nodeAt, h, p, node);
      row := [];
      for i := 0 to |node.trans|
        invariant Complete(nodeAt, h.tree)
        invariant |row| == i && forall j :: 0 <= j < i ==> row[j] == Row(h.tree, p)[j]
      {
        var (nd, sym) := node.trans[i];
        var c := PrintCell(nd, sym, RowTargets(h.tree, p)[i], h, nodeAt);
        row := row + [c];
      }
    }

    /** The rows of the internal nodes, node before children. */
    method PrintTransitionTable(node: Node, ghost p: bits, ghost u: Tree, ghost h: Code, ghost nodeAt: places)
      returns (out: table)
      requires WellFormed(h) && Stands(nodeAt, h.tree, p, node) && At(h.tree, p) == Some(u) && Complete(nodeAt, h.tree)
      ensures out == RowsFor(h.tree, Visit(p, u))
      decreases u
    {
      hide WellFormed, Stands, Complete, RowsFor, Row, At;
      Place(nodeAt, h.tree, p, node);
      VisitRows(h.tree, p, u);
      if node.term.Some? {
        return [];
      }
      var row := PrintRow(node, p, h, nodeAt);
      var zeros := PrintTransitionTable(node.left, p + [false], u.left, h, nodeAt);
      var ones := PrintTransitionTable(node.right, p + [true], u.right, h, nodeAt);
      out := [row] + zeros + ones;
    }
  }

  /** The whole generator: the codes alone, taken in the order of their symbols, give the table of their tree. */
  method GenerateTable(codes: seq<bits>, ghost h: Code) returns (out: table)
    requires WellFormed(h) && codes == h.codes
    ensures out == HuffmanTable.Generate(h.tree)
  {
    hide WellFormed, Stands, Complete, RowsFor, Row, At, Visit, Blank, TreeNumbered, TreeFilled, Ids, Rows,
         Linked, Spells, Terms;
    var ctx := new Context();
    ctx.AddAll(codes, h);
    ghost var nodeAt, every := ctx.nodes, All(ctx.nodes);
    RootStands(nodeAt, h.tree, ctx.root);
    ghost var noIds, noRows := Ids(nodeAt), Rows(nodeAt);
    BlankTree(nodeAt);
    ctx.SetNodeId(ctx.root, [], h.tree, h.tree, nodeAt, every);
    ghost var ids := Ids(nodeAt);
    ctx.BuildTransitionTable(ctx.root, [], h.tree, h, nodeAt, every);
    MakeComplete(nodeAt, h.tree, ctx.root, noIds, noRows);
    out := ctx.PrintTransitionTable(ctx.root, [], h.tree, h, nodeAt);
    WholeTable(h.tree);
    out := out + [FailedRow()];
  }

  /** Linked, except that the node at `p` already points to a child that is not in place yet. */
  ghost predicate LinkedBut(nodes: places, p: bits, b: bool, child: Node)
    reads All(nodes)`left, All(nodes)`right
  {
    && Distinct(nodes)
    && forall q :: q in nodes ==>
         && nodes[q].left == (if q == p && !b then child else Child(nodes, q, false))
         && nodes[q].right == (if q == p && b then child else Child(nodes, q, true))
  }

  /** The symbol at the end of every path. */
  ghost function Terms(nodes: places): (m: map<bits, Option<nat>>)
    reads All(nodes)`term
    ensures m.Keys == nodes.Keys
  {
    map p | p in nodes :: nodes[p].term
  }

  ghost function Prefixes(p: bits): set<bits> {
    set k | 0 <= k <= |p| :: p[..k]
  }

  /** A path made and a symbol put at its end. */
  ghost function WithCode(m: map<bits, Option<nat>>, p: bits, sym: nat): map<bits, Option<nat>> {
    map q | q in m.Keys + Prefixes(p) :: if q == p then Some(sym) else if q in m then m[q] else None
  }

  lemma OnTheWay(m: map<bits, Option<nat>>, q: bits, p: bits, sym: nat)
    requires q <= p
    ensures q !in m ==> WithCode(m[q := None], p, sym) == WithCode(m, p, sym)
  {
    assert p[..|q|] == q;
    assert q in Prefixes(p);
  }

  lemma {:induction false} Closed(nodes: places, p: bits)
    requires Distinct(nodes) && p in nodes
    ensures Prefixes(p) <= nodes.Keys
    decreases |p|
  {
    assert p[..|p|] == p;
    if p != [] {
      var n := |p| - 1;
      var q, b := p[..n], p[n];
      assert q + [b] == p;
      assert q + [b] in nodes;
      Closed(nodes, q);
      forall q | q in Prefixes(p)
        ensures q in nodes
      {
        var k :| 0 <= k <= |p| && q == p[..k];
        assert k <= n ==> q == p[..n][..k] && q in Prefixes(p[..n]);
      }
    }
  }

  lemma ChildIs(nodes: places, p: bits, b: bool)
    ensures Child(nodes, p, b) == null <==> p + [b] !in nodes
    ensures p + [b] in nodes ==> Child(nodes, p, b) == nodes[p + [b]] && nodes[p + [b] := nodes[p + [b]]] == nodes
  {
  }

  /** A blank node without a symbol may be added anywhere. */
  lemma MorePlaces(nodes: places, p: bits, b: bool, child: Node)
    requires child.term.None? && child.trans == [] && child.id.None? && !child.accept
    ensures Terms(nodes[p + [b] := child]) == Terms(nodes)[p + [b] := None]
    ensures Blank(nodes) ==> Blank(nodes[p + [b] := child])
    ensures All(nodes[p + [b] := child]) <= All(nodes) + {child}
  {
  }

  /** Once the parent points to the new node, the larger tree is linked. */
  lemma LinkedMore(nodes: places, p: bits, b: bool, child: Node)
    requires LinkedBut(nodes, p, b, child) && p in nodes && p + [b] !in nodes && child !in All(nodes)
    requires child.left == null && child.right == null
    ensures Linked(nodes[p + [b] := child])
  {
    hide Distinct, Child;
    OneMorePlace(nodes, p, b, child);
  }

  lemma OneMorePlace(nodes: places, p: bits, b: bool, child: Node)
    requires Distinct(nodes) && p in nodes && p + [b] !in nodes && child !in All(nodes)
    ensures var more := nodes[p + [b] := child];
            && Distinct(more)
            && (forall q, c :: q in nodes ==>
                  Child(more, q, c) == if q == p && c == b then child else Child(nodes, q, c))
            && Child(more, p + [b], false) == null && Child(more, p + [b], true) == null
  {
    SnocUnique(p, b);
  }

  lemma SnocUnique(p: bits, b: bool)
    ensures forall q, c {:trigger q + [c]} :: q + [c] == p + [b] ==> q == p && c == b
  {
    forall q, c | q + [c] == p + [b]
      ensures q == p && c == b
    {
      assert (q + [c])[|q|] == c && (q + [c])[..|q|] == q;
      assert (p + [b])[|p|] == b && (p + [b])[..|p|] == p;
    }
  }

  // ---------------------------------------------------------------- the tree that the codes spell

  /** The paths and symbols of a tree. */
  ghost predicate Spells(m: map<bits, Option<nat>>, t: Tree) {
    && (forall p :: p in m <==> At(t, p).Some?)
    && (forall p :: p in m ==> m[p] == if IsLeaf(t, p) then Some(At(t, p).value.sym) else None)
  }

  ghost predicate OnSomeCode(codes: seq<bits>, q: bits) {
    q == [] || exists i :: 0 <= i < |codes| && q in Prefixes(codes[i])
  }

  /** What putting in some codes has made. */
  ghost predicate BuiltFrom(m: map<bits, Option<nat>>, codes: seq<bits>) {
    && (forall q :: q in m <==> OnSomeCode(codes, q))
    && (forall i :: 0 <= i < |codes| ==> codes[i] in m && m[codes[i]] == Some(i))
    && (forall q :: q in m && m[q].Some? ==> m[q].value < |codes| && codes[m[q].value] == q)
  }

  lemma NothingBuilt(nodes: places, root: Node)
    requires nodes == map[[] := root] && root.term.None?
    ensures BuiltFrom(Terms(nodes), [])
  {
  }

  lemma OneMoreOnCode(codes: seq<bits>, c: bits, q: bits)
    ensures OnSomeCode(codes + [c], q) <==> OnSomeCode(codes, q) || q in Prefixes(c)
  {
    hide Prefixes;
    var more := codes + [c];
    if q in Prefixes(c) {
      assert q in Prefixes(more[|codes|]);
    }
    if i :| 0 <= i < |codes| && q in Prefixes(codes[i]) {
      assert q in Prefixes(more[i]);
    }
  }

  lemma OneMoreCode(m: map<bits, Option<nat>>, codes: seq<bits>, s: nat)
    requires s < |codes| && BuiltFrom(m, codes[..s]) && codes[s] !in codes[..s]
    ensures BuiltFrom(WithCode(m, codes[s], s), codes[..s + 1])
  {
    assert codes[..s + 1] == codes[..s] + [codes[s]];
    OneMoreBuilt(m, codes[..s], codes[s]);
  }

  lemma OneMoreBuilt(m: map<bits, Option<nat>>, codes: seq<bits>, c: bits)
    requires BuiltFrom(m, codes) && c !in codes
    ensures BuiltFrom(WithCode(m, c, |codes|), codes + [c])
  {
    hide OnSomeCode;
    var m1, more := WithCode(m, c, |codes|), codes + [c];
    forall q
      ensures q in m1 <==> OnSomeCode(more, q)
    {
      OneMoreOnCode(codes, c, q);
    }
    assert c[..|c|] == c;
    assert c in Prefixes(c);
    hide Prefixes;
    forall i | 0 <= i < |more|
      ensures more[i] in m1 && m1[more[i]] == Some(i)
    {
      if i < |codes| {
        assert more[i] == codes[i] && codes[i] in codes;
      }
    }
  }

  lemma CodesDiffer(h: Code)
    requires WellFormed(h)
    ensures |h.codes| == 257 && forall s :: 0 <= s < 257 ==> h.codes[s] !in h.codes[..s]
  {
  }

  /** From every place in a tree some leaf is reached. */
  lemma {:induction false} LeafBelow(t: Tree) returns (q: bits)
    ensures IsLeaf(t, q)
  {
    if t.Leaf? {
      q := [];
    } else {
      var r := LeafBelow(t.left);
      q := [false] + r;
      assert q[1..] == r;
    }
  }

  lemma BuiltIsTree(h: Code, m: map<bits, Option<nat>>)
    requires WellFormed(h) && BuiltFrom(m, h.codes)
    ensures Spells(m, h.tree)
  {
    forall p
      ensures p in m <==> At(h.tree, p).Some?
      ensures p in m ==> m[p] == if IsLeaf(h.tree, p) then Some(At(h.tree, p).value.sym) else None
    {
      PlaceInTree(h, p);
      if p in m && IsLeaf(h.tree, p) {
        assert p == h.codes[At(h.tree, p).value.sym];
      }
    }
  }

  /** The places of a tree are the beginnings of its codes. */
  lemma PlaceInTree(h: Code, p: bits)
    requires WellFormed(h)
    ensures OnSomeCode(h.codes, p) <==> At(h.tree, p).Some?
  {
    if At(h.tree, p).Some? {
      var q := LeafBelow(At(h.tree, p).value);
      AtAppend(h.tree, p, q);
      var c := p + q;
      assert IsLeaf(h.tree, c);
      var s := At(h.tree, c).value.sym;
      assert c == h.codes[s] && c[..|p|] == p;
      assert p in Prefixes(h.codes[s]);
    }
    if i :| 0 <= i < |h.codes| && p in Prefixes(h.codes[i]) {
      var k :| 0 <= k <= |h.codes[i]| && p == h.codes[i][..k];
      BeginningInTree(h, i, k);
    }
  }

  lemma BeginningInTree(h: Code, i: nat, k: nat)
    requires WellFormed(h) && i < 257 && k <= |h.codes[i]|
    ensures At(h.tree, h.codes[i][..k]).Some?
  {
    if k < |h.codes[i]| {
      PrefixInternal(h.tree, h.codes[i], k);
    } else {
      assert h.codes[i][..k] == h.codes[i];
    }
  }

  // ---------------------------------------------------------------- numbers

  type numbers = map<bits, (Option<nat>, bool)>

  /** The numbers and marks of a whole tree. */
  datatype Numbering = Numbering(of: numbers)

  /** Every node's number and mark. */
  ghost function Ids(nodes: places): Numbering
    reads All(nodes)`id, All(nodes)`accept
  {
    Numbering(map p | p in nodes :: (nodes[p].id, nodes[p].accept))
  }

  /** The nodes are linked as the tree `t`, and `node` is the one at `p`. */
  ghost predicate Stands(nodes: places, t: Tree, p: bits, node: Node)
    reads All(nodes)`left, All(nodes)`right, All(nodes)`term
    ensures Stands(nodes, t, p, node) ==> At(t, p).Some?
  {
    Linked(nodes) && Spells(Terms(nodes), t) && p in nodes && nodes[p] == node
  }

  lemma Place(nodes: places, t: Tree, p: bits, node: Node)
    requires Stands(nodes, t, p, node)
    ensures node in All(nodes) && Distinct(nodes) && p in nodes && nodes[p] == node
    ensures node.term == if IsLeaf(t, p) then Some(At(t, p).value.sym) else None
    ensures IsLeaf(t, p) ==> node.left == null && node.right == null
    ensures IsInternal(t, p) ==>
              && node.left != null && node.right != null
              && Stands(nodes, t, p + [false], node.left) && Stands(nodes, t, p + [true], node.right)
              && At(t, p + [false]) == Some(At(t, p).value.left) && At(t, p + [true]) == Some(At(t, p).value.right)
              && Internals(At(t, p).value) == 1 + Internals(At(t, p).value.left) + Internals(At(t, p).value.right)
  {
    assert Terms(nodes)[p] == nodes[p].term;
    if IsInternal(t, p) {
      Extend(t, p, false);
      Extend(t, p, true);
      assert p + [false] in Terms(nodes) && p + [true] in Terms(nodes);
    } else {
      AtAppend(t, p, [false]);
      AtAppend(t, p, [true]);
      assert p + [false] !in Terms(nodes) && p + [true] !in Terms(nodes);
    }
  }

  /** The nodes of the subtree at `p` numbered from `from` on. */
  ghost function Numbered(m: numbers, t: Tree, p: bits, from: nat): (r: numbers)
    requires At(t, p).Some?
    ensures r.Keys == m.Keys
  {
    map q | q in m ::
      if p <= q && IsInternal(t, q) then (Some(from + IdBelow(t, p, q)), m[q].1 || AcceptPath(q)) else m[q]
  }

  /** A node's number among those of the subtree at `p`. */
  ghost function IdBelow(t: Tree, p: bits, q: bits): nat
    requires At(t, p).Some? && p <= q && IsInternal(t, q)
  {
    Below(t, p, q);
    IdOf(At(t, p).value, q[|p|..])
  }

  lemma Below(t: Tree, p: bits, q: bits)
    requires At(t, p).Some? && p <= q
    ensures At(At(t, p).value, q[|p|..]) == At(t, q)
  {
    assert q == p + q[|p|..];
    AtAppend(t, p, q[|p|..]);
  }

  lemma LeafNumbered(m: Numbering, t: Tree, p: bits, from: nat)
    requires IsLeaf(t, p)
    ensures TreeNumbered(m, m, t, p, from)
  {
    forall q | p <= q && At(t, q).Some?
      ensures q == p
    {
      Below(t, p, q);
    }
  }

  ghost predicate TreeNumbered(m: Numbering, m': Numbering, t: Tree, p: bits, from: nat) {
    At(t, p).Some? && m'.of == Numbered(m.of, t, p, from)
  }

  ghost predicate RootNumbered(m: Numbering, m': Numbering, p: bits, from: nat) {
    p in m.of && m'.of == m.of[p := (Some(from), m.of[p].1 || AcceptPath(p))]
  }

  /** Both sides of an internal node numbered, one after the other. */
  ghost predicate SidesNumbered(m: Numbering, m': Numbering, t: Tree, p: bits, from: nat) {
    && IsInternal(t, p) && At(t, p + [false]).Some? && At(t, p + [true]).Some?
    && m'.of == Numbered(Numbered(m.of, t, p + [false], from), t, p + [true], from + Internals(At(t, p).value.left))
  }

  lemma BothAre(m: Numbering, m1: Numbering, m2: Numbering, t: Tree, p: bits, from: nat)
    requires IsInternal(t, p)
    requires TreeNumbered(m, m1, t, p + [false], from)
    requires TreeNumbered(m1, m2, t, p + [true], from + Internals(At(t, p).value.left))
    ensures SidesNumbered(m, m2, t, p, from)
  {
    hide Numbered, At, Internals;
  }

  lemma NodeNumbered(m: Numbering, m1: Numbering, m2: Numbering, t: Tree, p: bits, from: nat)
    requires IsInternal(t, p) && RootNumbered(m, m1, p, from) && SidesNumbered(m1, m2, t, p, from + 1)
    ensures TreeNumbered(m, m2, t, p, from)
  {
    hide Numbered, AcceptPath, At, Internals, IdBelow;
    Extend(t, p, false);
    Extend(t, p, true);
    var all := Numbered(m.of, t, p, from);
    forall q | q in all
      ensures m2.of[q] == all[q]
    {
      NumberedOnce(m.of, t, p, from, q);
    }
    SameNumbers(m2.of, all);
  }

  lemma SameNumbers(a: numbers, b: numbers)
    requires (forall q :: q in a <==> q in b) && forall q :: q in a ==> a[q] == b[q]
    ensures a == b
  {
  }

  lemma NumberedAt(m: numbers, t: Tree, p: bits, from: nat, q: bits)
    requires At(t, p).Some? && q in m
    ensures Numbered(m, t, p, from)[q] ==
            if p <= q && IsInternal(t, q) then (Some(from + IdBelow(t, p, q)), m[q].1 || AcceptPath(q)) else m[q]
  {
    hide IdBelow, AcceptPath, At;
  }

  lemma NumberedOnce(m: numbers, t: Tree, p: bits, from: nat, q: bits)
    requires IsInternal(t, p) && p in m && q in m
    requires At(t, p + [false]) == Some(At(t, p).value.left) && At(t, p + [true]) == Some(At(t, p).value.right)
    ensures var m1 := m[p := (Some(from), m[p].1 || AcceptPath(p))];
            var m2 := Numbered(m1, t, p + [false], from + 1);
            var m3 := Numbered(m2, t, p + [true], from + 1 + Internals(At(t, p).value.left));
            q in m3 && m3[q] == Numbered(m, t, p, from)[q]
  {
    hide AcceptPath, Numbered, At;
    var m1 := m[p := (Some(from), m[p].1 || AcceptPath(p))];
    var m2 := Numbered(m1, t, p + [false], from + 1);
    NumberedAt(m, t, p, from, q);
    NumberedAt(m1, t, p + [false], from + 1, q);
    NumberedAt(m2, t, p + [true], from + 1 + Internals(At(t, p).value.left), q);
    if p <= q && IsInternal(t, q) {
      OnOneSide(t, p, q);
    } else {
      assert p <= p + [false] && p <= p + [true];
    }
  }

  /** A node of a subtree is its root, or on one side of it and numbered there. */
  lemma OnOneSide(t: Tree, p: bits, q: bits)
    requires IsInternal(t, p) && p <= q && IsInternal(t, q)
    requires At(t, p + [false]) == Some(At(t, p).value.left) && At(t, p + [true]) == Some(At(t, p).value.right)
    ensures q == p <==> !(p + [false] <= q) && !(p + [true] <= q)
    ensures q == p ==> IdBelow(t, p, q) == 0
    ensures p + [false] <= q ==> !(p + [true] <= q) && IdBelow(t, p, q) == 1 + IdBelow(t, p + [false], q)
    ensures p + [true] <= q ==>
              !(p + [false] <= q) && IdBelow(t, p, q) == 1 + Internals(At(t, p).value.left) + IdBelow(t, p + [true], q)
  {
    var r := q[|p|..];
    Below(t, p, q);
    assert q == p + r;
    if r != [] {
      var pb := p + [r[0]];
      assert pb <= q && q[|pb|..] == r[1..];
      assert !(p + [!r[0]] <= q);
    }
  }

  // ---------------------------------------------------------------- transitions

  /** The node a target names. */
  ghost function ResolveTarget(nodeAt: places, g: Target): (Node?, Option<nat>) {
    (if g.dest.Some? && g.dest.value in nodeAt then nodeAt[g.dest.value] else null, g.sym)
  }

  ghost function Resolve(nodeAt: places, gs: seq<Target>): (r: seq<(Node?, Option<nat>)>)
    ensures |r| == |gs|
  {
    seq(|gs|, i requires 0 <= i < |gs| => ResolveTarget(nodeAt, gs[i]))
  }

  lemma ResolveOne(nodeAt: places, t: Tree, p: bits, sym: Option<nat>, node: Node)
    requires Stands(nodeAt, t, p, node)
    ensures Resolve(nodeAt, HuffmanTable.Traverse(t, p, sym, 0)) ==
            [if sym == Some(EOS) then (null, None) else (node, sym)]
  {
  }

  lemma ResolveBoth(nodeAt: places, t: Tree, q: bits, sym: Option<nat>, left: nat, was: seq<(Node?, Option<nat>)>)
    requires left > 0
    ensures var a, b := HuffmanTable.Go(t, q + [false], sym, left), HuffmanTable.Go(t, q + [true], sym, left);
            (was + Resolve(nodeAt, a)) + Resolve(nodeAt, b) == was + Resolve(nodeAt, a + b)
  {
    hide HuffmanTable.Go;
    var a, b := HuffmanTable.Go(t, q + [false], sym, left), HuffmanTable.Go(t, q + [true], sym, left);
    assert Resolve(nodeAt, a + b) == Resolve(nodeAt, a) + Resolve(nodeAt, b);
  }

  /** From a leaf the reading goes on at the root, which has children. */
  lemma TraverseFrom(h: Code, p: bits, sym: Option<nat>, left: nat)
    requires WellFormed(h) && At(h.tree, p).Some? && left > 0
    ensures IsInternal(h.tree, []) && (!IsLeaf(h.tree, p) ==> IsInternal(h.tree, p))
    ensures var q := if IsLeaf(h.tree, p) then [] else p;
            HuffmanTable.Traverse(h.tree, p, sym, left) ==
            HuffmanTable.Go(h.tree, q + [false], sym, left) + HuffmanTable.Go(h.tree, q + [true], sym, left)
  {
    RootInternal(h);
  }

  /** Four bits meet at most one leaf: after one symbol there is no second. */
  lemma NotTwice(h: Code, q: bits, sym: Option<nat>, left: nat)
    requires WellFormed(h) && At(h.tree, q).Some? && 0 < left <= 4 && q != [] && (sym.Some? ==> left + |q| < 6)
    ensures IsLeaf(h.tree, q) ==> sym.None?
    ensures HuffmanTable.Go(h.tree, q, sym, left) ==
            HuffmanTable.Traverse(h.tree, q, if IsLeaf(h.tree, q) then Some(At(h.tree, q).value.sym) else sym, left - 1)
  {
    if sym.Some? {
      NoShallowLeaf(h, q);
    }
  }

  // ---------------------------------------------------------------- rows

  type rows = map<bits, seq<(Node?, Option<nat>)>>

  /** The transitions of a whole tree. */
  datatype Filling = Filling(of: rows)

  ghost function Rows(nodeAt: places): Filling
    reads All(nodeAt)`trans
  {
    Filling(map p | p in nodeAt :: nodeAt[p].trans)
  }

  ghost function RowAt(nodeAt: places, t: Tree, q: bits): seq<(Node?, Option<nat>)> {
    Resolve(nodeAt, RowTargets(t, q))
  }

  ghost function RowTargets(t: Tree, q: bits): seq<Target> {
    HuffmanTable.Traverse(t, q, None, 4)
  }

  /** The nodes of the subtree at `p` given their rows. */
  ghost function Filled(m: rows, nodeAt: places, t: Tree, p: bits): (r: rows)
    ensures r.Keys == m.Keys
  {
    map q | q in m :: if p <= q && At(t, q).Some? then m[q] + RowAt(nodeAt, t, q) else m[q]
  }

  ghost predicate TreeFilled(m: Filling, m': Filling, nodeAt: places, t: Tree, p: bits) {
    m'.of == Filled(m.of, nodeAt, t, p)
  }

  ghost predicate RootFilled(m: Filling, m': Filling, nodeAt: places, t: Tree, p: bits) {
    p in m.of && m'.of == m.of[p := m.of[p] + RowAt(nodeAt, t, p)]
  }

  ghost predicate SidesFilled(m: Filling, m': Filling, nodeAt: places, t: Tree, p: bits) {
    m'.of == Filled(Filled(m.of, nodeAt, t, p + [false]), nodeAt, t, p + [true])
  }

  lemma BothFilled(m: Filling, m1: Filling, m2: Filling, nodeAt: places, t: Tree, p: bits)
    requires TreeFilled(m, m1, nodeAt, t, p + [false]) && TreeFilled(m1, m2, nodeAt, t, p + [true])
    ensures SidesFilled(m, m2, nodeAt, t, p)
  {
  }

  lemma SameRows(a: rows, b: rows)
    requires (forall q :: q in a <==> q in b) && forall q :: q in a ==> a[q] == b[q]
    ensures a == b
  {
  }

  lemma FilledAt(m: rows, nodeAt: places, t: Tree, p: bits, q: bits)
    requires q in m
    ensures Filled(m, nodeAt, t, p)[q] == if p <= q && At(t, q).Some? then m[q] + RowAt(nodeAt, t, q) else m[q]
  {
    hide RowAt, At;
  }

  lemma LeafFilled(m: Filling, m1: Filling, nodeAt: places, t: Tree, p: bits)
    requires IsLeaf(t, p) && RootFilled(m, m1, nodeAt, t, p)
    ensures TreeFilled(m, m1, nodeAt, t, p)
  {
    hide Filled, RowAt;
    var all := Filled(m.of, nodeAt, t, p);
    forall q | q in all
      ensures m1.of[q] == all[q]
    {
      FilledAt(m.of, nodeAt, t, p, q);
      if p <= q && At(t, q).Some? {
        Below(t, p, q);
        assert q[|p|..] == [] && q == p + q[|p|..] == p;
      }
    }
    SameRows(m1.of, all);
  }

  lemma NodeFilled(m: Filling, m1: Filling, m2: Filling, nodeAt: places, t: Tree, p: bits)
    requires IsInternal(t, p) && RootFilled(m, m1, nodeAt, t, p) && SidesFilled(m1, m2, nodeAt, t, p)
    ensures TreeFilled(m, m2, nodeAt, t, p)
  {
    hide Filled, RowAt, At;
    var all := Filled(m.of, nodeAt, t, p);
    forall q | q in all
      ensures m2.of[q] == all[q]
    {
      FilledAt(m.of, nodeAt, t, p, q);
      FilledAt(m1.of, nodeAt, t, p + [false], q);
      FilledAt(Filled(m1.of, nodeAt, t, p + [false]), nodeAt, t, p + [true], q);
      Sides(p, q);
    }
    SameRows(m2.of, all);
  }

  /** A longer path goes to one side or the other. */
  lemma Sides(p: bits, q: bits)
    ensures p <= q <==> q == p || p + [false] <= q || p + [true] <= q
    ensures p + [false] <= q ==> !(p + [true] <= q) && q != p
    ensures p + [true] <= q ==> q != p
  {
    SideOf(p, false, q);
    SideOf(p, true, q);
    if p <= q && |q| == |p| {
      assert q == p;
    }
  }

  lemma SideOf(p: bits, b: bool, q: bits)
    ensures p + [b] <= q <==> p <= q && |p| < |q| && q[|p|] == b
  {
    if p + [b] <= q {
      assert q[..|p| + 1] == p + [b];
      assert q[..|p|] == (p + [b])[..|p|] == p && q[|p|] == (p + [b])[|p|];
    }
    if p <= q && |p| < |q| && q[|p|] == b {
      assert q[..|p| + 1] == p + [b];
    }
  }

  // ---------------------------------------------------------------- the finished tree

  /** Every node has its number, its mark and its row. */
  ghost predicate Complete(nodeAt: places, t: Tree)
    reads All(nodeAt)`id, All(nodeAt)`accept, All(nodeAt)`trans
  {
    && (forall q :: q in nodeAt && IsInternal(t, q) ==>
          nodeAt[q].id == Some(IdOf(t, q)) && (nodeAt[q].accept <==> AcceptPath(q)))
    && (forall q :: q in nodeAt && !IsInternal(t, q) ==> nodeAt[q].id.None?)
    && (forall q :: q in nodeAt ==> nodeAt[q].trans == RowAt(nodeAt, t, q))
  }

  ghost predicate NoIds(m: Numbering) {
    forall q :: q in m.of ==> m.of[q] == (None, false)
  }

  ghost predicate NoRows(m: Filling) {
    forall q :: q in m.of ==> m.of[q] == []
  }

  lemma BlankTree(nodeAt: places)
    requires Blank(nodeAt)
    ensures NoIds(Ids(nodeAt)) && NoRows(Rows(nodeAt))
  {
  }

  lemma RootStands(nodeAt: places, t: Tree, root: Node)
    requires Linked(nodeAt) && Spells(Terms(nodeAt), t) && [] in nodeAt && nodeAt[[]] == root
    ensures Stands(nodeAt, t, [], root) && At(t, []) == Some(t)
  {
  }

  lemma MakeComplete(nodeAt: places, t: Tree, root: Node, noIds: Numbering, noRows: Filling)
    requires Stands(nodeAt, t, [], root) && NoIds(noIds) && NoRows(noRows)
    requires TreeNumbered(noIds, Ids(nodeAt), t, [], 0) && TreeFilled(noRows, Rows(nodeAt), nodeAt, t, [])
    ensures Complete(nodeAt, t)
  {
    hide RowAt, IdOf, AcceptPath, Linked, Filled, Numbered;
    forall q | q in nodeAt
      ensures if IsInternal(t, q) then nodeAt[q].id == Some(IdOf(t, q)) && (nodeAt[q].accept <==> AcceptPath(q))
              else nodeAt[q].id.None?
      ensures nodeAt[q].trans == RowAt(nodeAt, t, q)
    {
      assert q in Terms(nodeAt) && q in Ids(nodeAt).of && q in Rows(nodeAt).of;
      assert q[0..] == q && [] + RowAt(nodeAt, t, q) == RowAt(nodeAt, t, q);
      NumberedAt(noIds.of, t, [], 0, q);
      FilledAt(noRows.of, nodeAt, t, [], q);
    }
  }

  ghost function RowsFor(t: Tree, ps: seq<bits>): (r: table)
    ensures |r| == |ps|
  {
    seq(|ps|, i requires 0 <= i < |ps| => Row(t, ps[i]))
  }

  lemma VisitRows(t: Tree, p: bits, u: Tree)
    ensures u.Leaf? ==> RowsFor(t, Visit(p, u)) == []
    ensures u.Node? ==> RowsFor(t, Visit(p, u)) ==
                        [Row(t, p)] + RowsFor(t, Visit(p + [false], u.left)) + RowsFor(t, Visit(p + [true], u.right))
  {
    hide Row;
    if u.Node? {
      RowsAppend(t, [p], Visit(p + [false], u.left));
      RowsAppend(t, [p] + Visit(p + [false], u.left), Visit(p + [true], u.right));
      assert RowsFor(t, [p]) == [Row(t, p)];
    }
  }

  lemma RowsAppend(t: Tree, a: seq<bits>, b: seq<bits>)
    ensures RowsFor(t, a + b) == RowsFor(t, a) + RowsFor(t, b)
  {
    hide Row;
  }

  lemma WholeTable(t: Tree)
    ensures HuffmanTable.Generate(t) == RowsFor(t, Visit([], t)) + [FailedRow()]
  {
    hide Row;
  }

  lemma RowStored(nodeAt: places, h: Code, p: bits, node: Node)
    requires WellFormed(h) && Stands(nodeAt, h.tree, p, node) && Complete(nodeAt, h.tree)
    ensures var gs := RowTargets(h.tree, p);
            && |node.trans| == |gs| == |Row(h.tree, p)|
            && forall i :: 0 <= i < |gs| ==>
                 && node.trans[i] == ResolveTarget(nodeAt, gs[i])
                 && (gs[i].dest.Some? ==> gs[i].dest.value in nodeAt)
                 && Row(h.tree, p)[i] == HuffmanTable.Print(h.tree, gs[i])
  {
    hide HuffmanTable.Traverse, HuffmanTable.Print, WellFormed, At;
    TargetsInTree(h, p, None, 4);
    var gs := RowTargets(h.tree, p);
    forall i | 0 <= i < |gs| && gs[i].dest.Some?
      ensures gs[i].dest.value in nodeAt
    {
      assert gs[i].dest.value in Terms(nodeAt);
    }
  }

  lemma {:induction false} TargetsInTree(h: Code, p: bits, sym: Option<nat>, left: nat)
    requires WellFormed(h) && At(h.tree, p).Some?
    ensures forall g :: g in HuffmanTable.Traverse(h.tree, p, sym, left) && g.dest.Some? ==>
              At(h.tree, g.dest.value).Some?
    decreases left
  {
    hide WellFormed;
    if left > 0 {
      TraverseFrom(h, p, sym, left);
      var q := if IsLeaf(h.tree, p) then [] else p;
      Extend(h.tree, q, false);
      Extend(h.tree, q, true);
      var zero, one := q + [false], q + [true];
      TargetsInTree(h, zero, if IsLeaf(h.tree, zero) then Some(At(h.tree, zero).value.sym) else sym, left - 1);
      TargetsInTree(h, one, if IsLeaf(h.tree, one) then Some(At(h.tree, one).value.sym) else sym, left - 1);
    }
  }
}
