/** Walking from leaf edge to leaf edge. A tree of n pairs has n + 1 gaps, one before each pair and one at
    the end; every gap is exactly one leaf edge. */
module Navigate {
  import opened Nodes
  import opened Options
  import opened Trees
  import opened Memory
  import opened Edits
  import opened Rows
  import opened Places

  /** An edge or a pair of a node. */
  datatype Handle = Handle(node: Node, idx: nat)

  ghost predicate LeafEdge(t: Tree, p: Path, e: Handle) {
    At(t, p, e.node) && SubAt(t, p).kids == [] && e.idx <= |SubAt(t, p).kvs|
  }

  ghost predicate Kv(t: Tree, p: Path, e: Handle) {
    At(t, p, e.node) && Arity(SubAt(t, p)) && e.idx < |SubAt(t, p).kvs|
  }

  // ----- Positions

  /** How many pairs come before edge `i` of the node at `p`, and before or under that edge. */
  ghost function Start(t: Tree, p: Path, i: nat): nat
    requires ValidPath(t, p) && Arity(SubAt(t, p)) && i <= |SubAt(t, p).kvs|
  {
    var s := SubAt(t, p);
    |Before(t, p)| + if s.kids == [] then i else |Left(s.kids, s.kvs, i)|
  }

  ghost function End(t: Tree, p: Path, i: nat): nat
    requires ValidPath(t, p) && Arity(SubAt(t, p)) && i <= |SubAt(t, p).kvs|
  {
    var s := SubAt(t, p);
    |Before(t, p)| + if s.kids == [] then i else |Left(s.kids, s.kvs, i)| + |Flat(s.kids[i])|
  }

  lemma LeftNext(kids: seq<Tree>, kvs: seq<KV>, i: nat)
    requires |kids| == |kvs| + 1 && i < |kvs|
    ensures Left(kids, kvs, i + 1) == Left(kids, kvs, i) + Flat(kids[i]) + [kvs[i]]
  {
    WeaveLast(kids[..i + 1], kvs[..i]);
    LeftPrefix(kids[..i + 1], kvs[..i], kids, kvs, i);
  }

  lemma LeftNextLen(kids: seq<Tree>, kvs: seq<KV>, i: nat)
    requires |kids| == |kvs| + 1 && i < |kvs|
    ensures |Left(kids, kvs, i + 1)| == |Left(kids, kvs, i)| + |Flat(kids[i])| + 1
  {
    LeftNext(kids, kvs, i);
  }

  /** The pair with that many pairs before it lies right of the edge; the next edge starts behind it. */
  lemma PairAfterEdge(t: Tree, p: Path, i: nat)
    requires ValidPath(t, p) && Arity(SubAt(t, p)) && i < |SubAt(t, p).kvs|
    ensures End(t, p, i) < |Flat(t)| && Flat(t)[End(t, p, i)] == SubAt(t, p).kvs[i]
    ensures Start(t, p, i + 1) == End(t, p, i) + 1
  {
    var s := SubAt(t, p);
    FlatAt(t, p);
    if s.kids != [] {
      LeftNext(s.kids, s.kvs, i);
      WeaveAt(s.kids, s.kvs, i + 1);
    }
  }

  /** A pair of a node is at its index among the pairs of the tree. */
  lemma PairAtIndex(t: Tree, p: Path, kv: Handle)
    requires Kv(t, p, kv)
    ensures Index(t, p, kv) < |Flat(t)| && Flat(t)[Index(t, p, kv)] == SubAt(t, p).kvs[kv.idx]
  {
    PairAfterEdge(t, p, kv.idx);
  }

  /** The pairs of a leaf are left and right of its edges. */
  lemma PairsBesideEdge(t: Tree, p: Path, e: Handle)
    requires LeafEdge(t, p, e)
    ensures Gap(t, p, e) <= |Flat(t)|
    ensures var (kvs, g) := (SubAt(t, p).kvs, Gap(t, p, e));
      && (e.idx < |kvs| ==> g < |Flat(t)| && Flat(t)[g] == kvs[e.idx])
      && (e.idx > 0 ==> g > 0 && Flat(t)[g - 1] == kvs[e.idx - 1])
  {
    FlatAt(t, p);
  }

  lemma EdgesOfNode(t: Tree, p: Path)
    requires ValidPath(t, p) && Arity(SubAt(t, p))
    ensures Start(t, p, 0) == |Before(t, p)|
    ensures End(t, p, |SubAt(t, p).kvs|) == |Before(t, p)| + |Flat(SubAt(t, p))| <= |Flat(t)|
  {
    var s := SubAt(t, p);
    if s.kids != [] { WeaveAt(s.kids, s.kvs, |s.kvs|); }
    FlatAt(t, p);
  }

  lemma EdgesOfRoot(t: Tree, p: Path)
    requires p == [] && ValidPath(t, p) && Arity(SubAt(t, p))
    ensures Start(t, p, 0) == 0 && End(t, p, |SubAt(t, p).kvs|) == |Flat(t)|
  {
    EdgesOfNode(t, p);
  }

  lemma EdgeOfChild(t: Tree, p: Path, i: nat)
    requires ValidPath(t, p) && Arity(SubAt(t, p)) && i < |SubAt(t, p).kids|
    ensures ValidPath(t, p + [i]) && SubAt(t, p + [i]) == SubAt(t, p).kids[i]
    ensures Start(t, p, i) == |Before(t, p + [i])|
    ensures End(t, p, i) == |Before(t, p + [i])| + |Flat(SubAt(t, p + [i]))|
  {
    Step(t, p, i);
  }

  /** Where a leaf edge is, and where a pair is. */
  ghost function Gap(t: Tree, p: Path, e: Handle): nat
    requires LeafEdge(t, p, e)
  {
    |Before(t, p)| + e.idx
  }

  ghost function Index(t: Tree, p: Path, e: Handle): nat
    requires Kv(t, p, e)
  {
    End(t, p, e.idx)
  }

  // ----- From edges to pairs

  /** The edge that led here, seen from its node: as many pairs before it. */
  lemma EdgeAbove(t: Tree, p: Path, parent: Node, i: nat)
    requires Above(t, p, parent, i) && Arity(SubAt(t, p))
    ensures var q := p[..|p| - 1];
      Arity(SubAt(t, q)) && i <= |SubAt(t, q).kvs|
      && Start(t, q, i) == Start(t, p, 0) && End(t, q, i) == End(t, p, |SubAt(t, p).kvs|)
  {
    EdgeOfChild(t, p[..|p| - 1], i);
    EdgesOfNode(t, p);
  }

  /** The pair right of an edge, in its node or further up; none if the edge is the last one. */
  method RightKv(edge: Handle, pool: Pool, ghost t: Tree, ghost p: Path) returns (kv: Option<Handle>, ghost q: Path)
    requires pool.Valid() && Holds(pool.Mem(), t) && At(t, p, edge.node)
    requires Arity(SubAt(t, p)) && edge.idx <= |SubAt(t, p).kvs|
    ensures kv.Some? ==> Kv(t, q, kv.value) && Index(t, q, kv.value) == End(t, p, edge.idx)
    ensures kv.None? ==> End(t, p, edge.idx) == |Flat(t)|
  {
    hide Holds, SubAt, ValidPath, Before, Above, Pool.Mem, Pool.Valid;
    var node: Node, idx: nat := edge.node, edge.idx;
    q := p;
    while true
      invariant At(t, q, node) && Arity(SubAt(t, q)) && idx <= |SubAt(t, q).kvs|
      invariant End(t, q, idx) == End(t, p, edge.idx)
      decreases |q|
    {
      var len := Len(node, pool, t, q);
      if idx < len { return Some(Handle(node, idx)), q; }
      var parent, i := Ascend(node, pool, t, q);
      if parent == null {
        EdgesOfRoot(t, q);
        return None, q;
      }
      EdgeAbove(t, q, parent, i);
      node, idx, q := parent, i, q[..|q| - 1];
    }
  }

  method LeftKv(edge: Handle, pool: Pool, ghost t: Tree, ghost p: Path) returns (kv: Option<Handle>, ghost q: Path)
    requires pool.Valid() && Holds(pool.Mem(), t) && At(t, p, edge.node)
    requires Arity(SubAt(t, p)) && edge.idx <= |SubAt(t, p).kvs|
    ensures kv.Some? ==> Kv(t, q, kv.value) && Index(t, q, kv.value) + 1 == Start(t, p, edge.idx)
    ensures kv.None? ==> Start(t, p, edge.idx) == 0
  {
    hide Holds, SubAt, ValidPath, Before, Above, Pool.Mem, Pool.Valid;
    var node: Node, idx: nat := edge.node, edge.idx;
    q := p;
    while true
      invariant At(t, q, node) && Arity(SubAt(t, q)) && idx <= |SubAt(t, q).kvs|
      invariant Start(t, q, idx) == Start(t, p, edge.idx)
      decreases |q|
    {
      if idx > 0 {
        PairAfterEdge(t, q, idx - 1);
        return Some(Handle(node, idx - 1)), q;
      }
      var parent, i := Ascend(node, pool, t, q);
      if parent == null {
        EdgesOfRoot(t, q);
        return None, q;
      }
      EdgeAbove(t, q, parent, i);
      node, idx, q := parent, i, q[..|q| - 1];
    }
  }

  /** The pair right of a leaf edge. */
  method NextKv(edge: Handle, pool: Pool, ghost t: Tree, ghost p: Path) returns (kv: Option<Handle>, ghost q: Path)
    requires pool.Valid() && Holds(pool.Mem(), t) && LeafEdge(t, p, edge)
    ensures kv.Some? <==> Gap(t, p, edge) < |Flat(t)|
    ensures kv.Some? ==> Kv(t, q, kv.value) && Index(t, q, kv.value) == Gap(t, p, edge)
  {
    hide Holds, SubAt, ValidPath, Before, Above, Pool.Mem, Pool.Valid;
    kv, q := RightKv(edge, pool, t, p);
    if kv.Some? { PairAfterEdge(t, q, kv.value.idx); }
  }

  method NextBackKv(edge: Handle, pool: Pool, ghost t: Tree, ghost p: Path) returns (kv: Option<Handle>, ghost q: Path)
    requires pool.Valid() && Holds(pool.Mem(), t) && LeafEdge(t, p, edge)
    ensures kv.Some? <==> Gap(t, p, edge) > 0
    ensures kv.Some? ==> Kv(t, q, kv.value) && Index(t, q, kv.value) + 1 == Gap(t, p, edge)
  {
    hide Holds, SubAt, ValidPath, Before, Above, Pool.Mem, Pool.Valid;
    kv, q := LeftKv(edge, pool, t, p);
  }

  // ----- From pairs to edges

  lemma ChildArity(m: Mem, t: Tree, p: Path)
    requires Holds(m, t) && ValidPath(t, p)
    ensures Arity(SubAt(t, p)) && (SubAt(t, p).kids != [] ==> |SubAt(t, p).kids| == |SubAt(t, p).kvs| + 1)
  {
    SubNode(m, t, p);
  }

  /** The path keeps to the last edges. */
  ghost predicate Rightmost(s: Tree, w: Path)
    decreases |w|
  {
    w == [] || (|s.kids| == |s.kvs| + 1 && w[0] == |s.kvs| && Rightmost(s.kids[w[0]], w[1..]))
  }

  lemma RightmostStep(t: Tree, c: Path, w: Path)
    requires ValidPath(t, c) && ValidPath(t, c + w) && Rightmost(SubAt(t, c), w)
    requires var s := SubAt(t, c + w); |s.kids| == |s.kvs| + 1
    ensures Rightmost(SubAt(t, c), w + [|SubAt(t, c + w).kvs|])
    ensures c + (w + [|SubAt(t, c + w).kvs|]) == c + w + [|SubAt(t, c + w).kvs|]
  {
    PathPrefix(t, c, w);
    PathConcat(t, c, w);
    RightmostExtend(SubAt(t, c), w);
  }

  lemma {:induction false} RightmostExtend(s: Tree, w: Path)
    requires Rightmost(s, w) && ValidPath(s, w) && var k := SubAt(s, w); |k.kids| == |k.kvs| + 1
    ensures Rightmost(s, w + [|SubAt(s, w).kvs|])
    decreases |w|
  {
    var v := w + [|SubAt(s, w).kvs|];
    if w == [] {
      assert v[1..] == [];
    } else {
      assert v[1..] == w[1..] + [|SubAt(s, w).kvs|];
      RightmostExtend(s.kids[w[0]], w[1..]);
    }
  }

  lemma {:induction false} RightmostValid(s: Tree, w: Path)
    requires Rightmost(s, w)
    ensures ValidPath(s, w)
    decreases |w|
  {
    if w != [] { RightmostValid(s.kids[w[0]], w[1..]); }
  }

  /** The leftmost leaf edge in or under a node. */
  method FirstLeafEdge(start: Node, pool: Pool, ghost t: Tree, ghost p: Path) returns (edge: Handle, ghost q: Path)
    requires pool.Valid() && Holds(pool.Mem(), t) && At(t, p, start)
    ensures LeafEdge(t, q, edge) && edge.idx == 0 && Gap(t, q, edge) == |Before(t, p)|
    ensures |q| >= |p| && q[..|p|] == p
  {
    hide Holds, SubAt, ValidPath, Before, Above, Pool.Mem, Pool.Valid;
    var node := start;
    q := p;
    while true
      invariant At(t, q, node) && |Before(t, q)| == |Before(t, p)|
      invariant |q| >= |p| && q[..|p|] == p
      decreases SubAt(t, q)
    {
      var leaf := IsLeaf(node, pool, t, q);
      if leaf { return Handle(node, 0), q; }
      ChildArity(pool.Mem(), t, q);
      node := Descend(node, 0, pool, t, q);
      EdgeOfChild(t, q, 0);
      EdgesOfNode(t, q);
      q := q + [0];
    }
  }

  method LastLeafEdge(start: Node, pool: Pool, ghost t: Tree, ghost p: Path) returns (edge: Handle, ghost w: Path)
    requires pool.Valid() && Holds(pool.Mem(), t) && At(t, p, start)
    ensures LeafEdge(t, p + w, edge) && edge.idx == |SubAt(t, p + w).kvs| && Rightmost(SubAt(t, p), w)
    ensures Gap(t, p + w, edge) == |Before(t, p)| + |Flat(SubAt(t, p))|
  {
    hide Holds, SubAt, ValidPath, Before, Above, Pool.Mem, Pool.Valid;
    var node := start;
    w := [];
    assert p + w == p;
    while true
      invariant At(t, p + w, node) && Rightmost(SubAt(t, p), w)
      invariant |Before(t, p + w)| + |Flat(SubAt(t, p + w))| == |Before(t, p)| + |Flat(SubAt(t, p))|
      decreases SubAt(t, p + w)
    {
      var leaf := IsLeaf(node, pool, t, p + w);
      var len := Len(node, pool, t, p + w);
      if leaf { return Handle(node, len), w; }
      ChildArity(pool.Mem(), t, p + w);
      LastChild(t, p + w);
      RightmostStep(t, p, w);
      node := Descend(node, len, pool, t, p + w);
      w := w + [len];
    }
  }

  /** Nothing follows the last child in its node. */
  lemma LastChild(t: Tree, p: Path)
    requires ValidPath(t, p) && SubAt(t, p).kids != [] && Arity(SubAt(t, p))
    ensures var q := p + [|SubAt(t, p).kvs|];
      && ValidPath(t, q) && SubAt(t, q) == SubAt(t, p).kids[|SubAt(t, p).kvs|]
      && |Before(t, q)| + |Flat(SubAt(t, q))| == |Before(t, p)| + |Flat(SubAt(t, p))|
  {
    EdgeOfChild(t, p, |SubAt(t, p).kvs|);
    EdgesOfNode(t, p);
  }

  /** The leaf edge right behind a pair. */
  method NextLeafEdge(kv: Handle, pool: Pool, ghost t: Tree, ghost p: Path) returns (edge: Handle, ghost q: Path)
    requires pool.Valid() && Holds(pool.Mem(), t) && Kv(t, p, kv)
    ensures LeafEdge(t, q, edge) && Gap(t, q, edge) == Index(t, p, kv) + 1
  {
    hide Holds, SubAt, ValidPath, Before, Above, Pool.Mem, Pool.Valid;
    PairAfterEdge(t, p, kv.idx);
    var leaf := IsLeaf(kv.node, pool, t, p);
    if leaf {
      edge, q := Handle(kv.node, kv.idx + 1), p;
    } else {
      EdgeOfChild(t, p, kv.idx + 1);
      var child := Descend(kv.node, kv.idx + 1, pool, t, p);
      edge, q := FirstLeafEdge(child, pool, t, p + [kv.idx + 1]);
    }
  }

  /** The leaf edge right before a pair. */
  method NextBackLeafEdge(kv: Handle, pool: Pool, ghost t: Tree, ghost p: Path) returns (edge: Handle, ghost q: Path)
    requires pool.Valid() && Holds(pool.Mem(), t) && Kv(t, p, kv)
    ensures LeafEdge(t, q, edge) && Gap(t, q, edge) == Index(t, p, kv)
  {
    hide Holds, SubAt, ValidPath, Before, Above, Pool.Mem, Pool.Valid;
    var leaf := IsLeaf(kv.node, pool, t, p);
    if leaf {
      edge, q := kv, p;
    } else {
      EdgeOfChild(t, p, kv.idx);
      var child := Descend(kv.node, kv.idx, pool, t, p);
      edge, q := LastLeafEdge(child, pool, t, p + [kv.idx]);
      q := p + [kv.idx] + q;
    }
  }

  // ----- Leaf edges and gaps

  /** Every node of the tree is a leaf or has one more child than pairs. */
  lemma {:induction false} RepRegular(m: Mem, t: Tree)
    requires Rep(m, t)
    ensures Regular(t)
    decreases t
  {
    forall i | 0 <= i < |t.kids| ensures Regular(t.kids[i]) { RepRegular(m, t.kids[i]); }
  }

  /** The leaf edge at a given gap. */
  lemma {:induction false} EdgeOfGap(t: Tree, g: nat) returns (p: Path, e: Handle)
    requires Regular(t) && g <= |Flat(t)|
    ensures LeafEdge(t, p, e) && Gap(t, p, e) == g
    decreases t
  {
    if t.kids == [] {
      p, e := [], Handle(t.node, g);
    } else {
      var i := ChildOfGap(t.kids, t.kvs, g);
      var q;
      q, e := EdgeOfGap(t.kids[i], g - |Left(t.kids, t.kvs, i)|);
      p := [i] + q;
      OneStep(t, i);
      PathConcat(t, [i], q);
    }
  }

  lemma {:induction false} ChildOfGap(kids: seq<Tree>, kvs: seq<KV>, g: nat) returns (i: nat)
    requires |kids| == |kvs| + 1 && g <= |Weave(kids, kvs)|
    ensures i < |kids| && |Left(kids, kvs, i)| <= g <= |Left(kids, kvs, i)| + |Flat(kids[i])|
  {
    i := |kvs|;
    WeaveAt(kids, kvs, i);
    while g < |Left(kids, kvs, i)|
      invariant i < |kids| && g <= |Left(kids, kvs, i)| + |Flat(kids[i])|
    {
      LeftNextLen(kids, kvs, i - 1);
      i := i - 1;
    }
  }

  lemma {:induction false} LeftGrows(kids: seq<Tree>, kvs: seq<KV>, i: nat, j: nat)
    requires |kids| == |kvs| + 1 && i < j < |kids|
    ensures |Left(kids, kvs, i)| + |Flat(kids[i])| < |Left(kids, kvs, j)|
    decreases j
  {
    hide Left, Flat;
    LeftNextLen(kids, kvs, j - 1);
    if i < j - 1 { LeftGrows(kids, kvs, i, j - 1); }
  }

  lemma GapWithin(t: Tree, p: Path, e: Handle)
    requires LeafEdge(t, p, e)
    ensures Gap(t, p, e) <= |Flat(t)|
  {
    FlatAt(t, p);
  }

  /** No other leaf edge is at the same gap. */
  lemma {:induction false} GapOfOneEdge(t: Tree, p: Path, e: Handle, q: Path, f: Handle)
    requires LeafEdge(t, p, e) && LeafEdge(t, q, f) && Gap(t, p, e) == Gap(t, q, f)
    ensures p == q && e == f
    decreases |p|
  {
    if p == [] || q == [] {
    } else {
      var i, j := p[0], q[0];
      GapWithin(t.kids[i], p[1..], e);
      GapWithin(t.kids[j], q[1..], f);
      if i < j {
        LeftGrows(t.kids, t.kvs, i, j);
      } else if j < i {
        LeftGrows(t.kids, t.kvs, j, i);
      } else {
        GapOfOneEdge(t.kids[i], p[1..], e, q[1..], f);
        assert p == [i] + p[1..] && q == [i] + q[1..];
      }
    }
  }

  lemma KidApart(t: Tree, i: nat, j: nat, n: Node)
    requires Once(Bag(t)) && i < |t.kids| && j < |t.kids| && n in Bag(t.kids[i]) && n in Bag(t.kids[j])
    ensures i == j && Once(Bag(t.kids[i])) && n != t.node
  {
    OnceSplit(multiset{t.node}, Bags(t.kids), Bag(t));
    assert t.node in multiset{t.node};
    var b, rest := Bag(t.kids[i]), Bags(t.kids[..i]) + Bags(t.kids[i + 1..]);
    assert Bags(t.kids) == b + rest by { BagsAt(t.kids, i); }
    OnceSplit(b, rest, Bags(t.kids));
    assert n in Bags(t.kids);
    if i != j { BagsOthers(t.kids, i, j); }
  }

  lemma {:induction false} NodeIn(t: Tree, p: Path)
    requires ValidPath(t, p)
    ensures SubAt(t, p).node in Bag(t)
  {
    BagAt(t, p);
    assert SubAt(t, p).node in Bag(SubAt(t, p));
  }

  /** A node of a tree that uses no node twice is at one place only. */
  lemma {:induction false} NodeAtOnePlace(t: Tree, p: Path, q: Path)
    requires Once(Bag(t)) && ValidPath(t, p) && ValidPath(t, q) && SubAt(t, p).node == SubAt(t, q).node
    ensures p == q
    decreases |p|
  {
    hide Bag, Once;
    var n := SubAt(t, p).node;
    if p != [] { NodeIn(t.kids[p[0]], p[1..]); }
    if q != [] { NodeIn(t.kids[q[0]], q[1..]); }
    if p != [] && q != [] {
      KidApart(t, p[0], q[0], n);
      NodeAtOnePlace(t.kids[p[0]], p[1..], q[1..]);
      assert p == [p[0]] + p[1..] && q == [p[0]] + q[1..];
    } else if p != [] {
      KidApart(t, p[0], p[0], n);
    } else if q != [] {
      KidApart(t, q[0], q[0], n);
    }
  }

  /** Two leaf edges are the same handle exactly if no pair lies between them. */
  lemma SameEdgeSameGap(m: Mem, t: Tree, p: Path, e: Handle, q: Path, f: Handle)
    requires Holds(m, t) && LeafEdge(t, p, e) && LeafEdge(t, q, f)
    ensures e == f <==> Gap(t, p, e) == Gap(t, q, f)
  {
    if e == f { NodeAtOnePlace(t, p, q); }
    if Gap(t, p, e) == Gap(t, q, f) { GapOfOneEdge(t, p, e, q, f); }
  }
}
