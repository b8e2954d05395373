/** Ranges of leaf edges between two bounds, and walking them from both ends. */
module Ranges {
  import opened Nodes
  import opened Options
  import opened Trees
  import opened Memory
  import opened Edits
  import opened Places
  import opened Navigate
  import opened Search
  import opened Shapes

  /** A bound on the whole tree is, seen in the subtree at `p`, the bound `b`. */
  ghost predicate LowerIn(t: Tree, p: Path, comp: Comparator, b0: SearchBound, b: SearchBound) {
    && ValidPath(t, p) && Monotone(Flat(SubAt(t, p)), comp)
    && LowerCut(Flat(t), comp, b0) == |Before(t, p)| + LowerCut(Flat(SubAt(t, p)), comp, b)
  }

  ghost predicate UpperIn(t: Tree, p: Path, comp: Comparator, b0: SearchBound, b: SearchBound) {
    && ValidPath(t, p) && Monotone(Flat(SubAt(t, p)), comp)
    && UpperCut(Flat(t), comp, b0) == |Before(t, p)| + UpperCut(Flat(SubAt(t, p)), comp, b)
  }

  lemma LowerStep(t: Tree, p: Path, comp: Comparator, b0: SearchBound, b: SearchBound, i: nat, next: SearchBound)
    requires LowerIn(t, p, comp, b0, b) && Arity(SubAt(t, p)) && i <= |SubAt(t, p).kvs|
    requires var s := SubAt(t, p);
      Monotone(Under(s, i), comp) && LowerCut(Flat(s), comp, b) == |LeftOf(s, i)| + LowerCut(Under(s, i), comp, next)
    ensures SubAt(t, p).kids != [] ==> LowerIn(t, p + [i], comp, b0, next)
    ensures SubAt(t, p).kids == [] ==> LowerCut(Flat(t), comp, b0) == |Before(t, p)| + i
  {
    if SubAt(t, p).kids != [] { Step(t, p, i); }
  }

  lemma UpperStep(t: Tree, p: Path, comp: Comparator, b0: SearchBound, b: SearchBound, i: nat, next: SearchBound)
    requires UpperIn(t, p, comp, b0, b) && Arity(SubAt(t, p)) && i <= |SubAt(t, p).kvs|
    requires var s := SubAt(t, p);
      Monotone(Under(s, i), comp) && UpperCut(Flat(s), comp, b) == |LeftOf(s, i)| + UpperCut(Under(s, i), comp, next)
    ensures SubAt(t, p).kids != [] ==> UpperIn(t, p + [i], comp, b0, next)
    ensures SubAt(t, p).kids == [] ==> UpperCut(Flat(t), comp, b0) == |Before(t, p)| + i
  {
    if SubAt(t, p).kids != [] { Step(t, p, i); }
  }

  /** Edge `e` of the node at `p` is where the lower bound leads: at it in a leaf, or under it. */
  ghost predicate LowerEdge(t: Tree, p: Path, e: Handle, comp: Comparator, b0: SearchBound, next: SearchBound) {
    && At(t, p, e.node) && Arity(SubAt(t, p)) && e.idx <= |SubAt(t, p).kvs|
    && (SubAt(t, p).kids != [] ==> LowerIn(t, p + [e.idx], comp, b0, next))
    && (SubAt(t, p).kids == [] ==> Gap(t, p, e) == LowerCut(Flat(t), comp, b0))
  }

  ghost predicate UpperEdge(t: Tree, p: Path, e: Handle, comp: Comparator, b0: SearchBound, next: SearchBound) {
    && At(t, p, e.node) && Arity(SubAt(t, p)) && e.idx <= |SubAt(t, p).kvs|
    && (SubAt(t, p).kids != [] ==> UpperIn(t, p + [e.idx], comp, b0, next))
    && (SubAt(t, p).kids == [] ==> Gap(t, p, e) == UpperCut(Flat(t), comp, b0))
  }

  method FindLowerBoundEdge(node: Node, comp: Comparator, bound: SearchBound, pool: Pool, ghost t: Tree, ghost p: Path,
                            ghost b0: SearchBound)
    returns (edge: Handle, next: SearchBound)
    requires pool.Valid() && Holds(pool.Mem(), t) && At(t, p, node) && LowerIn(t, p, comp, b0, bound)
    ensures edge.node == node && LowerEdge(t, p, edge, comp, b0, next)
  {
    hide Holds, SubAt, ValidPath, Monotone, LowerCut, LeftOf, Under, Flat, Before, Pool.Mem, Pool.Valid;
    var i;
    i, next := FindLowerBoundIndex(node, comp, bound, pool, t, p);
    LowerStep(t, p, comp, b0, bound, i, next);
    edge := Handle(node, i);
  }

  method FindUpperBoundEdge(node: Node, comp: Comparator, bound: SearchBound, pool: Pool, ghost t: Tree, ghost p: Path,
                            ghost b0: SearchBound)
    returns (edge: Handle, next: SearchBound)
    requires pool.Valid() && Holds(pool.Mem(), t) && At(t, p, node) && UpperIn(t, p, comp, b0, bound)
    ensures edge.node == node && UpperEdge(t, p, edge, comp, b0, next)
  {
    hide Holds, SubAt, ValidPath, Monotone, UpperCut, Under, Flat, Before, Pool.Mem, Pool.Valid;
    var i;
    i, next := FindUpperBoundIndex(node, comp, bound, 0, pool, t, p);
    UpperFromStart(SubAt(t, p), comp, bound, i, next);
    UpperStep(t, p, comp, b0, bound, i, next);
    edge := Handle(node, i);
  }

  /** Nothing lies before the first edge of a node. */
  lemma UpperFromStart(s: Tree, comp: Comparator, bound: SearchBound, j: nat, next: SearchBound)
    requires UpperAt(s, comp, bound, 0, j, next)
    ensures UpperCut(Flat(s), comp, bound) == |LeftOf(s, j)| + UpperCut(Under(s, j), comp, next)
  {
    NodeParts(s, j);
  }

  /** The leaf edge at a lower bound. */
  method LowerBound(start: Node, comp: Comparator, b: SearchBound, pool: Pool, ghost t: Tree, ghost p: Path,
                    ghost b0: SearchBound)
    returns (edge: Handle, ghost q: Path)
    requires pool.Valid() && Holds(pool.Mem(), t) && At(t, p, start) && LowerIn(t, p, comp, b0, b)
    ensures LeafEdge(t, q, edge) && Gap(t, q, edge) == LowerCut(Flat(t), comp, b0)
  {
    hide Holds, SubAt, ValidPath, LowerCut, Flat, Before, LowerIn, Pool.Mem, Pool.Valid;
    var node, bound := start, b;
    q := p;
    while true
      invariant At(t, q, node) && LowerIn(t, q, comp, b0, bound)
      decreases SubAt(t, q)
    {
      edge, bound := FindLowerBoundEdge(node, comp, bound, pool, t, q, b0);
      var leaf := IsLeaf(node, pool, t, q);
      if leaf { return; }
      ChildArity(pool.Mem(), t, q);
      node := Descend(node, edge.idx, pool, t, q);
      q := q + [edge.idx];
    }
  }

  /** The leaf edge at an upper bound. */
  method UpperBound(start: Node, comp: Comparator, b: SearchBound, pool: Pool, ghost t: Tree, ghost p: Path,
                    ghost b0: SearchBound)
    returns (edge: Handle, ghost q: Path)
    requires pool.Valid() && Holds(pool.Mem(), t) && At(t, p, start) && UpperIn(t, p, comp, b0, b)
    ensures LeafEdge(t, q, edge) && Gap(t, q, edge) == UpperCut(Flat(t), comp, b0)
  {
    hide Holds, SubAt, ValidPath, UpperCut, Flat, Before, UpperIn, Pool.Mem, Pool.Valid;
    var node, bound := start, b;
    q := p;
    while true
      invariant At(t, q, node) && UpperIn(t, q, comp, b0, bound)
      decreases SubAt(t, q)
    {
      edge, bound := FindUpperBoundEdge(node, comp, bound, pool, t, q, b0);
      var leaf := IsLeaf(node, pool, t, q);
      if leaf { return; }
      ChildArity(pool.Mem(), t, q);
      node := Descend(node, edge.idx, pool, t, q);
      q := q + [edge.idx];
    }
  }

  // ----- Where two bounds part

  /** The upper bound lies before the lower one, and before everything in the subtree at `p`. */
  ghost predicate Crossed(t: Tree, p: Path, lower: Comparator, l0: SearchBound, upper: Comparator, u0: SearchBound,
                          u: SearchBound) {
    && ValidPath(t, p) && Monotone(Flat(SubAt(t, p)), upper)
    && UpperCut(Flat(t), upper, u0) <= LowerCut(Flat(t), lower, l0) && UpperCut(Flat(SubAt(t, p)), upper, u) == 0
  }

  ghost predicate BothIn(t: Tree, p: Path, lower: Comparator, l0: SearchBound, l: SearchBound,
                         upper: Comparator, u0: SearchBound, u: SearchBound) {
    LowerIn(t, p, lower, l0, l) && (UpperIn(t, p, upper, u0, u) || Crossed(t, p, lower, l0, upper, u0, u))
  }

  lemma PartedHere(t: Tree, p: Path, lower: Comparator, l0: SearchBound, l: SearchBound,
                   upper: Comparator, u0: SearchBound, u: SearchBound, i: nat, l': SearchBound, j: nat, u': SearchBound)
    requires BothIn(t, p, lower, l0, l, upper, u0, u) && Arity(SubAt(t, p)) && i < j <= |SubAt(t, p).kvs|
    requires var s := SubAt(t, p);
      LowerCut(Flat(s), lower, l) == |LeftOf(s, i)| + LowerCut(Under(s, i), lower, l') && UpperAt(s, upper, u, i, j, u')
    ensures UpperIn(t, p, upper, u0, u) && LowerCut(Flat(t), lower, l0) < UpperCut(Flat(t), upper, u0)
    ensures var s := SubAt(t, p); UpperCut(Flat(s), upper, u) == |LeftOf(s, j)| + UpperCut(Under(s, j), upper, u')
  {
    hide ValidPath, SubAt, Before, LowerCut, UpperCut, Monotone, Flat, LeftOf, Under;
    NodePart(SubAt(t, p), j);
    LeftOfGrows(SubAt(t, p), i, j);
  }

  lemma Parted(t: Tree, p: Path, lower: Comparator, l0: SearchBound, l: SearchBound,
               upper: Comparator, u0: SearchBound, u: SearchBound, i: nat, l': SearchBound, j: nat, u': SearchBound)
    requires BothIn(t, p, lower, l0, l, upper, u0, u) && Arity(SubAt(t, p)) && i <= |SubAt(t, p).kvs|
    requires var s := SubAt(t, p);
      && LowerCut(Flat(s), lower, l) == |LeftOf(s, i)| + LowerCut(Under(s, i), lower, l')
      && UpperAt(s, upper, u, i, j, u') && Monotone(Under(s, i), lower) && Monotone(Under(s, j), upper)
    ensures i < j ==> UpperIn(t, p, upper, u0, u) && LowerCut(Flat(t), lower, l0) < UpperCut(Flat(t), upper, u0)
    ensures i < j ==>
      var s := SubAt(t, p); UpperCut(Flat(s), upper, u) == |LeftOf(s, j)| + UpperCut(Under(s, j), upper, u')
    ensures i == j && SubAt(t, p).kids != [] ==> BothIn(t, p + [i], lower, l0, l', upper, u0, u')
    ensures i == j && SubAt(t, p).kids == [] ==> UpperCut(Flat(t), upper, u0) <= LowerCut(Flat(t), lower, l0)
  {
    hide ValidPath, SubAt, Before, LowerCut, UpperCut, Monotone, Flat, LeftOf, Under, Crossed;
    var s := SubAt(t, p);
    LowerStep(t, p, lower, l0, l, i, l');
    if i < j {
      PartedHere(t, p, lower, l0, l, upper, u0, u, i, l', j, u');
    } else if UpperIn(t, p, upper, u0, u) &&
              UpperCut(Flat(s), upper, u) == |LeftOf(s, j)| + UpperCut(Under(s, j), upper, u') {
      UpperStep(t, p, upper, u0, u, j, u');
    } else {
      StillCrossed(t, p, lower, l0, l, upper, u0, u, i, l', u');
    }
  }

  lemma NodePart(s: Tree, j: nat)
    requires Arity(s) && j <= |s.kvs|
    ensures |LeftOf(s, j)| <= |Flat(s)| && (j > 0 ==> |LeftOf(s, j)| > 0)
  {
    NodeParts(s, j);
  }

  lemma StillCrossed(t: Tree, p: Path, lower: Comparator, l0: SearchBound, l: SearchBound,
                     upper: Comparator, u0: SearchBound, u: SearchBound, i: nat, l': SearchBound, u': SearchBound)
    requires BothIn(t, p, lower, l0, l, upper, u0, u) && Arity(SubAt(t, p)) && i <= |SubAt(t, p).kvs|
    requires var s := SubAt(t, p);
      && LowerCut(Flat(s), lower, l) == |LeftOf(s, i)| + LowerCut(Under(s, i), lower, l')
      && UpperAt(s, upper, u, i, i, u') && Monotone(Under(s, i), upper)
    requires UpperIn(t, p, upper, u0, u)
      ==> UpperCut(Flat(SubAt(t, p)), upper, u) != |LeftOf(SubAt(t, p), i)| + UpperCut(Under(SubAt(t, p), i), upper, u')
    ensures SubAt(t, p).kids != [] ==> Crossed(t, p + [i], lower, l0, upper, u0, u')
    ensures UpperCut(Flat(t), upper, u0) <= LowerCut(Flat(t), lower, l0)
  {
    hide Before, LowerCut, UpperCut, Monotone, Flat, LeftOf;
    if SubAt(t, p).kids != [] { Step(t, p, i); }
  }

  lemma {:induction false} LeftOfGrows(s: Tree, i: nat, j: nat)
    requires Arity(s) && i < j <= |s.kvs|
    ensures |LeftOf(s, i)| + |Under(s, i)| < |LeftOf(s, j)|
    decreases j
  {
    NodeParts(s, j - 1);
    if i < j - 1 { LeftOfGrows(s, i, j - 1); }
  }

  /** A node where two bounds lie under different edges, and the bounds to go on with under them. */
  datatype Fork = Fork(node: Node, lowerIdx: nat, upperIdx: nat, lowerBound: SearchBound, upperBound: SearchBound)

  /** The two bounds lie under, or in a leaf at, the edges of the fork. */
  ghost predicate ForkAt(t: Tree, q: Path, fork: Fork, lower: Comparator, l0: SearchBound, upper: Comparator,
                         u0: SearchBound) {
    && LowerEdge(t, q, Handle(fork.node, fork.lowerIdx), lower, l0, fork.lowerBound)
    && UpperEdge(t, q, Handle(fork.node, fork.upperIdx), upper, u0, fork.upperBound)
  }

  /** Where the bounds part, or the leaf edge at both if they never do. */
  datatype Bifurcation = Forked(fork: Fork) | Common(edge: Handle)

  /** Descends to the node where the two bounds part. If no pair lies between them, gives the leaf edge at the lower. */
  method SearchTreeForBifurcation(start: Node, lower: Comparator, l0: SearchBound, upper: Comparator, u0: SearchBound,
                                  pool: Pool, ghost t: Tree)
    returns (found: Bifurcation, ghost q: Path)
    requires pool.Valid() && Holds(pool.Mem(), t) && t.node == start && Monotone(Flat(t), lower)
    requires Monotone(Flat(t), upper)
    ensures found.Forked? <==> LowerCut(Flat(t), lower, l0) < UpperCut(Flat(t), upper, u0)
    ensures found.Forked? ==> ForkAt(t, q, found.fork, lower, l0, upper, u0)
    ensures found.Common? ==> LeafEdge(t, q, found.edge) && Gap(t, q, found.edge) == LowerCut(Flat(t), lower, l0)
  {
    hide Holds, SubAt, ValidPath, LowerCut, UpperCut, Flat, Before, LowerIn, UpperIn, BothIn, Monotone, LeftOf, Under,
         Pool.Mem, Pool.Valid;
    var node, l, u := start, l0, u0;
    q := [];
    BothInRoot(t, q, lower, l0, upper, u0);
    while true
      invariant At(t, q, node) && BothIn(t, q, lower, l0, l, upper, u0, u)
      decreases SubAt(t, q)
    {
      BothMonotone(t, q, lower, l0, l, upper, u0, u);
      var i, l' := FindLowerBoundIndex(node, lower, l, pool, t, q);
      var j, u' := FindUpperBoundIndex(node, upper, u, i, pool, t, q);
      Parted(t, q, lower, l0, l, upper, u0, u, i, l', j, u');
      if i < j {
        ForkFound(t, q, lower, l0, l, upper, u0, u, Fork(node, i, j, l', u'));
        return Forked(Fork(node, i, j, l', u')), q;
      }
      var leaf := IsLeaf(node, pool, t, q);
      if leaf {
        CommonFound(t, q, lower, l0, l, Handle(node, i), l');
        return Common(Handle(node, i)), q;
      }
      ChildArity(pool.Mem(), t, q);
      node := Descend(node, i, pool, t, q);
      q, l, u := q + [i], l', u';
    }
  }

  lemma BothInRoot(t: Tree, p: Path, lower: Comparator, l0: SearchBound, upper: Comparator, u0: SearchBound)
    requires p == [] && Monotone(Flat(t), lower) && Monotone(Flat(t), upper)
    ensures BothIn(t, p, lower, l0, l0, upper, u0, u0) && At(t, p, t.node)
  {
  }

  lemma BothMonotone(t: Tree, p: Path, lower: Comparator, l0: SearchBound, l: SearchBound,
                     upper: Comparator, u0: SearchBound, u: SearchBound)
    requires BothIn(t, p, lower, l0, l, upper, u0, u)
    ensures LowerIn(t, p, lower, l0, l) && Monotone(Flat(SubAt(t, p)), lower) && Monotone(Flat(SubAt(t, p)), upper)
  {
  }

  lemma CommonFound(t: Tree, q: Path, lower: Comparator, l0: SearchBound, l: SearchBound, e: Handle, next: SearchBound)
    requires LowerIn(t, q, lower, l0, l) && At(t, q, e.node) && SubAt(t, q).kids == []
    requires var s := SubAt(t, q);
      && Arity(s) && e.idx <= |s.kvs| && Monotone(Under(s, e.idx), lower)
      && LowerCut(Flat(s), lower, l) == |LeftOf(s, e.idx)| + LowerCut(Under(s, e.idx), lower, next)
    ensures LeafEdge(t, q, e) && Gap(t, q, e) == LowerCut(Flat(t), lower, l0)
  {
    LowerStep(t, q, lower, l0, l, e.idx, next);
  }

  lemma ForkFound(t: Tree, q: Path, lower: Comparator, l0: SearchBound, l: SearchBound,
                  upper: Comparator, u0: SearchBound, u: SearchBound, fork: Fork)
    requires LowerIn(t, q, lower, l0, l) && UpperIn(t, q, upper, u0, u) && At(t, q, fork.node)
    requires var (s, i, j) := (SubAt(t, q), fork.lowerIdx, fork.upperIdx);
      && Arity(s) && i <= |s.kvs| && j <= |s.kvs| && Monotone(Under(s, i), lower) && Monotone(Under(s, j), upper)
      && LowerCut(Flat(s), lower, l) == |LeftOf(s, i)| + LowerCut(Under(s, i), lower, fork.lowerBound)
      && UpperCut(Flat(s), upper, u) == |LeftOf(s, j)| + UpperCut(Under(s, j), upper, fork.upperBound)
    ensures ForkAt(t, q, fork, lower, l0, upper, u0)
  {
    LowerStep(t, q, lower, l0, l, fork.lowerIdx, fork.lowerBound);
    UpperStep(t, q, upper, u0, u, fork.upperIdx, fork.upperBound);
  }

  lemma SameDepth(t: Tree, h: nat, p: Path, q: Path)
    requires Balanced(t, h) && ValidPath(t, p) && ValidPath(t, q) && |p| == |q|
    ensures SubAt(t, p).kids == [] <==> SubAt(t, q).kids == []
    ensures |p| <= h && (SubAt(t, p).kids == [] <==> |p| == h)
  {
    FullSub(t, h, if h == 0 then 0 else 1, p);
    FullSub(t, h, if h == 0 then 0 else 1, q);
  }

  /** A range between two leaf edges; or no edges, if it holds no pair. */
  datatype Edges = NoEdges | Edges(front: Handle, back: Handle)

  /** The leaf edges at two bounds, if pairs lie between them. */
  method FindLeafEdgesSpanningRange(start: Node, lower: Comparator, l0: SearchBound, upper: Comparator, u0: SearchBound,
                                    pool: Pool, ghost t: Tree, ghost h: nat)
    returns (edges: Edges, ghost p: Path, ghost q: Path)
    requires pool.Valid() && Holds(pool.Mem(), t) && t.node == start && Balanced(t, h)
    requires Monotone(Flat(t), lower) && Monotone(Flat(t), upper)
    ensures edges.Edges? <==> LowerCut(Flat(t), lower, l0) < UpperCut(Flat(t), upper, u0)
    ensures edges.Edges? ==> LeafEdge(t, p, edges.front) && Gap(t, p, edges.front) == LowerCut(Flat(t), lower, l0)
    ensures edges.Edges? ==> LeafEdge(t, q, edges.back) && Gap(t, q, edges.back) == UpperCut(Flat(t), upper, u0)
  {
    hide Holds, SubAt, ValidPath, LowerCut, UpperCut, Flat, Before, LowerIn, UpperIn, Monotone, Full, LowerEdge,
         UpperEdge, Gap, At, Pool.Mem, Pool.Valid;
    var found;
    found, p := SearchTreeForBifurcation(start, lower, l0, upper, u0, pool, t);
    q := p;
    if found.Common? { return NoEdges, p, q; }
    var fork := found.fork;
    var front, back := Handle(fork.node, fork.lowerIdx), Handle(fork.node, fork.upperIdx);
    var l, u := fork.lowerBound, fork.upperBound;
    while true
      invariant LowerEdge(t, p, front, lower, l0, l) && UpperEdge(t, q, back, upper, u0, u) && |p| == |q|
      decreases h - |p|
    {
      EdgesThere(t, p, front, lower, l0, l, q, back, upper, u0, u);
      SameDepth(t, h, p, q);
      var leaf := IsLeaf(front.node, pool, t, p);
      if leaf { return Edges(front, back), p, q; }
      p, front, l, q, back, u := DescendBoth(front, lower, l0, l, back, upper, u0, u, pool, t, p, q);
    }
  }

  lemma EdgesThere(t: Tree, p: Path, f: Handle, lower: Comparator, l0: SearchBound, l: SearchBound,
                   q: Path, b: Handle, upper: Comparator, u0: SearchBound, u: SearchBound)
    requires LowerEdge(t, p, f, lower, l0, l) && UpperEdge(t, q, b, upper, u0, u)
    ensures At(t, p, f.node) && Arity(SubAt(t, p)) && f.idx <= |SubAt(t, p).kvs|
    ensures At(t, q, b.node) && Arity(SubAt(t, q)) && b.idx <= |SubAt(t, q).kvs|
    ensures SubAt(t, p).kids == [] ==> LeafEdge(t, p, f) && Gap(t, p, f) == LowerCut(Flat(t), lower, l0)
    ensures SubAt(t, q).kids == [] ==> LeafEdge(t, q, b) && Gap(t, q, b) == UpperCut(Flat(t), upper, u0)
    ensures SubAt(t, p).kids != [] ==> LowerIn(t, p + [f.idx], lower, l0, l)
    ensures SubAt(t, q).kids != [] ==> UpperIn(t, q + [b.idx], upper, u0, u)
  {
  }

  method DescendBoth(front: Handle, lower: Comparator, ghost l0: SearchBound, l: SearchBound,
                     back: Handle, upper: Comparator, ghost u0: SearchBound, u: SearchBound,
                     pool: Pool, ghost t: Tree, ghost p: Path, ghost q: Path)
    returns (ghost p': Path, front': Handle, l': SearchBound, ghost q': Path, back': Handle, u': SearchBound)
    requires pool.Valid() && Holds(pool.Mem(), t)
    requires LowerEdge(t, p, front, lower, l0, l) && UpperEdge(t, q, back, upper, u0, u)
    requires SubAt(t, p).kids != [] && SubAt(t, q).kids != []
    ensures LowerEdge(t, p', front', lower, l0, l') && |p'| == |p| + 1
    ensures UpperEdge(t, q', back', upper, u0, u') && |q'| == |q| + 1
  {
    hide Holds, SubAt, ValidPath, LowerIn, UpperIn, LowerCut, UpperCut, Flat, Before, Pool.Mem, Pool.Valid;
    p', q' := p + [front.idx], q + [back.idx];
    var f := Descend(front.node, front.idx, pool, t, p);
    front', l' := FindLowerBoundEdge(f, lower, l, pool, t, p', l0);
    var b := Descend(back.node, back.idx, pool, t, q);
    back', u' := FindUpperBoundEdge(b, upper, u, pool, t, q', u0);
  }

  /** A range of leaf edges, walked from both ends: both edges are there, or neither, as in a map without a tree. */
  class LeafRange {
    var front: Option<Handle>
    var back: Option<Handle>
    ghost var p: Path
    ghost var q: Path

    /** The range lies in the tree, if there is one. */
    ghost predicate In(t: Option<Tree>)
      reads this
    {
      && (front.None? <==> back.None?)
      && (front.Some? ==> t.Some? && LeafEdge(t.value, p, front.value) && LeafEdge(t.value, q, back.value)
                          && Gap(t.value, p, front.value) <= Gap(t.value, q, back.value) <= |Flat(t.value)|)
    }

    /** The pairs not walked over yet. */
    ghost function Rest(t: Option<Tree>): seq<KV>
      requires In(t)
      reads this
    {
      if front.None? then [] else Flat(t.value)[Gap(t.value, p, front.value)..Gap(t.value, q, back.value)]
    }

    constructor (edges: Edges, ghost t: Tree, ghost p: Path, ghost q: Path)
      requires edges.Edges? ==> LeafEdge(t, p, edges.front) && LeafEdge(t, q, edges.back)
      requires edges.Edges? ==> Gap(t, p, edges.front) <= Gap(t, q, edges.back)
      ensures In(Some(t)) && (edges.NoEdges? ==> front.None?)
      ensures edges.Edges? ==> front == Some(edges.front) && back == Some(edges.back) && this.p == p && this.q == q
    {
      front := if edges.NoEdges? then None else Some(edges.front);
      back := if edges.NoEdges? then None else Some(edges.back);
      this.p, this.q := p, q;
      new;
      if edges.Edges? { GapWithin(t, q, edges.back); }
    }

    constructor Empty()
      ensures In(None) && Rest(None) == []
    {
      front, back, p, q := None, None, [], [];
    }

    method IsEmpty(ghost m: Mem, ghost t: Option<Tree>) returns (empty: bool)
      requires In(t) && (t.Some? ==> Holds(m, t.value))
      ensures empty <==> Rest(t) == []
    {
      empty := front == back;
      if front.Some? { SameEdgeSameGap(m, t.value, p, front.value, q, back.value); }
    }

    /** The next pair from the front, if any is left. */
    method NextChecked(pool: Pool, ghost t: Option<Tree>) returns (kv: Option<KV>)
      requires pool.Valid() && In(t) && (t.Some? ==> Holds(pool.Mem(), t.value))
      modifies this
      ensures In(t)
      ensures kv == if old(Rest(t)) == [] then None else Some(old(Rest(t))[0])
      ensures Rest(t) == if old(Rest(t)) == [] then [] else old(Rest(t))[1..]
    {
      hide Holds, SubAt, ValidPath, Before, Flat, Pool.Mem, Pool.Valid;
      var empty := IsEmpty(pool.Mem(), t);
      if empty { return None; }
      var pair, edge; ghost var p';
      pair, edge, p' := NextUnchecked(front.value, pool, t.value, p);
      ghost var f, lo, hi := Flat(t.value), Gap(t.value, p, front.value), Gap(t.value, q, back.value);
      assert f[lo..hi][1..] == f[lo + 1..hi];
      kv, front, p := Some(pair), Some(edge), p';
    }

    method NextBackChecked(pool: Pool, ghost t: Option<Tree>) returns (kv: Option<KV>)
      requires pool.Valid() && In(t) && (t.Some? ==> Holds(pool.Mem(), t.value))
      modifies this
      ensures In(t)
      ensures kv == if old(Rest(t)) == [] then None else Some(old(Rest(t))[|old(Rest(t))| - 1])
      ensures Rest(t) == if old(Rest(t)) == [] then [] else old(Rest(t))[..|old(Rest(t))| - 1]
    {
      hide Holds, SubAt, ValidPath, Before, Flat, Pool.Mem, Pool.Valid;
      var empty := IsEmpty(pool.Mem(), t);
      if empty { return None; }
      var pair, edge; ghost var q';
      pair, edge, q' := NextBackUnchecked(back.value, pool, t.value, q);
      ghost var f, lo, hi := Flat(t.value), Gap(t.value, p, front.value), Gap(t.value, q, back.value);
      assert f[lo..hi][..hi - lo - 1] == f[lo..hi - 1];
      kv, back, q := Some(pair), Some(edge), q';
    }
  }

  /** The pairs of `f` behind a lower and before an upper bound. */
  ghost function Between(f: seq<KV>, lower: Comparator, l0: SearchBound, upper: Comparator, u0: SearchBound): seq<KV> {
    var (lo, hi) := (LowerCut(f, lower, l0), UpperCut(f, upper, u0));
    if lo < hi then f[lo..hi] else []
  }

  /** The range between two bounds: the pairs behind the lower and before the upper one, none if they cross. */
  method RangeSearch(start: Node, lower: Comparator, l0: SearchBound, upper: Comparator, u0: SearchBound,
                     pool: Pool, ghost t: Tree, ghost h: nat)
    returns (range: LeafRange)
    requires pool.Valid() && Holds(pool.Mem(), t) && t.node == start && Balanced(t, h)
    requires Monotone(Flat(t), lower) && Monotone(Flat(t), upper)
    ensures fresh(range) && range.In(Some(t)) && range.Rest(Some(t)) == Between(Flat(t), lower, l0, upper, u0)
  {
    hide Holds, SubAt, ValidPath, LowerCut, UpperCut, Flat, Before, Monotone, Balanced, Pool.Mem, Pool.Valid;
    var edges; ghost var p, q;
    edges, p, q := FindLeafEdgesSpanningRange(start, lower, l0, upper, u0, pool, t, h);
    range := new LeafRange(edges, t, p, q);
  }

  /** Moves a leaf edge that is not the last one over the pair behind it. */
  method NextUnchecked(edge: Handle, pool: Pool, ghost t: Tree, ghost p: Path)
    returns (kv: KV, next: Handle, ghost q: Path)
    requires pool.Valid() && Holds(pool.Mem(), t) && LeafEdge(t, p, edge) && Gap(t, p, edge) < |Flat(t)|
    ensures LeafEdge(t, q, next) && Gap(t, q, next) == Gap(t, p, edge) + 1 && kv == Flat(t)[Gap(t, p, edge)]
  {
    hide Holds, SubAt, ValidPath, Before, Flat, Pool.Mem, Pool.Valid;
    var found;
    found, q := NextKv(edge, pool, t, p);
    PairAfterEdge(t, q, found.value.idx);
    kv := KvAt(found.value.node, found.value.idx, pool, t, q);
    next, q := NextLeafEdge(found.value, pool, t, q);
  }

  method NextBackUnchecked(edge: Handle, pool: Pool, ghost t: Tree, ghost p: Path)
    returns (kv: KV, next: Handle, ghost q: Path)
    requires pool.Valid() && Holds(pool.Mem(), t) && LeafEdge(t, p, edge) && Gap(t, p, edge) > 0
    ensures LeafEdge(t, q, next) && Gap(t, q, next) + 1 == Gap(t, p, edge) <= |Flat(t)|
    ensures kv == Flat(t)[Gap(t, q, next)]
  {
    hide Holds, SubAt, ValidPath, Before, Flat, Pool.Mem, Pool.Valid;
    GapWithin(t, p, edge);
    var found;
    found, q := NextBackKv(edge, pool, t, p);
    PairAfterEdge(t, q, found.value.idx);
    kv := KvAt(found.value.node, found.value.idx, pool, t, q);
    next, q := NextBackLeafEdge(found.value, pool, t, q);
  }
}
