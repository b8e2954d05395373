/** Building a tree by pushing pairs at its end. Every node off the right border is filled to capacity, so that
    the border can be stocked up in one pass when all pairs are in. */
module BulkPush {
  import opened Nodes
  import opened Options
  import opened Trees
  import opened Memory
  import opened Edits
  import opened Shapes
  import opened Places
  import opened Navigate
  import opened Rebuild
  import opened Roots
  import opened Fix
  import opened Borders
  import opened SplitOff

  // ----- Trees filled up

  /** What nodes must have at least for up to MIN_LEN of their pairs to be stolen. Pushing itself fills nodes to
      CAPACITY. */
  type Fill = n: nat | 2 * MIN_LEN <= n <= CAPACITY witness CAPACITY

  /** Every node has `fill` pairs or more. */
  ghost predicate Stuffed(t: Tree, h: nat, fill: Fill)
    decreases h, 0
  {
    && fill <= |t.kvs| <= CAPACITY
    && if h == 0 then t.kids == [] else |t.kids| == |t.kvs| + 1 && StuffedKids(t.kids, h - 1, fill)
  }

  ghost predicate StuffedKids(kids: seq<Tree>, h: nat, fill: Fill)
    decreases h, 1
  {
    forall i :: 0 <= i < |kids| ==> Stuffed(kids[i], h, fill)
  }

  /** Nodes on the right border may have any number of pairs; all others have `fill` or more. */
  ghost predicate RightStuffed(t: Tree, h: nat, fill: Fill)
    decreases h
  {
    && |t.kvs| <= CAPACITY
    && if h == 0 then t.kids == []
       else |t.kids| == |t.kvs| + 1 && StuffedKids(t.kids[..|t.kvs|], h - 1, fill)
            && RightStuffed(t.kids[|t.kvs|], h - 1, fill)
  }

  /** A tree that pairs can be pushed to: an internal root is not empty. */
  ghost predicate Pushable(t: Tree, h: nat, fill: Fill) { RightStuffed(t, h, fill) && (h > 0 ==> t.kvs != []) }

  lemma {:induction false} StuffedFull(t: Tree, h: nat, fill: Fill)
    requires Stuffed(t, h, fill)
    ensures Full(t, h, MIN_LEN)
    decreases h
  {
    if h > 0 {
      forall i | 0 <= i < |t.kids| ensures Full(t.kids[i], h - 1, MIN_LEN) { StuffedFull(t.kids[i], h - 1, fill); }
    }
  }

  lemma StuffedIsRight(t: Tree, h: nat, fill: Fill)
    requires RightStuffed(t, h, fill) && fill <= |t.kvs| && (h > 0 ==> Stuffed(t.kids[|t.kvs|], h - 1, fill))
    ensures Stuffed(t, h, fill)
  {
    if h > 0 {
      forall i | 0 <= i < |t.kids| ensures Stuffed(t.kids[i], h - 1, fill) {
        if i < |t.kvs| { assert t.kids[i] == t.kids[..|t.kvs|][i]; }
      }
    }
  }

  lemma {:induction false} PillarStuffed(t: Tree, h: nat, fill: Fill)
    requires Pillar(t, h)
    ensures RightStuffed(t, h, fill)
    decreases h
  {
    if h > 0 { PillarStuffed(t.kids[0], h - 1, fill); }
  }

  /** The path keeps to the last edges of a tree that pairs can be pushed to. */
  ghost predicate Along(t: Tree, h: nat, p: Path, fill: Fill)
    decreases |p|
  {
    p == [] || (h > 0 && |t.kvs| <= CAPACITY && |t.kids| == |t.kvs| + 1 && p[0] == |t.kvs|
                && StuffedKids(t.kids[..p[0]], h - 1, fill) && Along(t.kids[p[0]], h - 1, p[1..], fill))
  }

  lemma {:induction false} AlongSet(t: Tree, h: nat, p: Path, s: Tree, fill: Fill)
    requires Along(t, h, p, fill)
    ensures ValidPath(t, p) && |p| <= h && After(t, p) == [] && Along(SetAt(t, p, s), h, p, fill)
    ensures RightStuffed(s, h - |p|, fill) ==> RightStuffed(SetAt(t, p, s), h, fill)
    ensures RightStuffed(t, h, fill) ==> RightStuffed(SubAt(t, p), h - |p|, fill)
    ensures p != [] ==> SetAt(t, p, s).kvs == t.kvs
    decreases |p|
  {
    if p != [] {
      AlongSet(t.kids[p[0]], h - 1, p[1..], s, fill);
      var k := SetAt(t.kids[p[0]], p[1..], s);
      assert t.kids[p[0] := k][..p[0]] == t.kids[..p[0]];
    }
  }

  lemma {:induction false} AlongUp(t: Tree, h: nat, q: Path, i: nat, fill: Fill)
    requires Along(t, h, q + [i], fill)
    ensures Along(t, h, q, fill) && ValidPath(t, q) && |q| < h && i == |SubAt(t, q).kvs|
    decreases |q|
  {
    var p := q + [i];
    if q != [] {
      assert p[0] == q[0] && p[1..] == q[1..] + [i];
      AlongUp(t.kids[q[0]], h - 1, q[1..], i, fill);
    }
  }

  // ----- One push

  /** The rightmost leaf, of a tree that pairs can be pushed to. */
  ghost predicate AtEnd(t: Tree, h: nat, p: Path, leaf: Node, fill: Fill) {
    Pushable(t, h, fill) && Along(t, h, p, fill) && |p| == h && At(t, p, leaf)
  }

  /** The node at `q` is filled, and so is everything below it. */
  ghost predicate FilledUp(t: Tree, h: nat, q: Path, node: Node, fill: Fill) {
    && Pushable(t, h, fill) && Along(t, h, q, fill) && |q| <= h && At(t, q, node) && Stuffed(SubAt(t, q), h - |q|, fill)
  }

  lemma EndLeaf(t: Tree, h: nat, p: Path, leaf: Node, fill: Fill)
    requires AtEnd(t, h, p, leaf, fill)
    ensures SubAt(t, p).kids == [] && |SubAt(t, p).kvs| <= CAPACITY && After(t, p) == []
    ensures |SubAt(t, p).kvs| == CAPACITY ==> FilledUp(t, h, p, leaf, fill)
  {
    AlongSet(t, h, p, SubAt(t, p), fill);
  }

  lemma LeafPushed(t: Tree, h: nat, p: Path, leaf: Node, kv: KV, fill: Fill)
    requires AtEnd(t, h, p, leaf, fill) && |SubAt(t, p).kvs| < CAPACITY
    ensures var t' := SetKvs(t, p, Put(SubAt(t, p).kvs, |SubAt(t, p).kvs|, kv));
      AtEnd(t', h, p, leaf, fill) && Flat(t') == Flat(t) + [kv] && t'.node == t.node
  {
    EndLeaf(t, h, p, leaf, fill);
    var s := SubAt(t, p);
    var w := s.(kvs := Put(s.kvs, |s.kvs|, kv));
    assert w.kvs == s.kvs + [kv];
    AlongSet(t, h, p, w, fill);
    SetAtPlace(t, p, w);
    SetAtFlat(t, p, w);
    FlatAt(t, p);
    SetAtNode(t, p, w);
  }

  /** If its parent is filled too, everything below the parent is. */
  lemma FilledAbove(t: Tree, h: nat, q: Path, node: Node, parent: Node, i: nat, fill: Fill)
    requires FilledUp(t, h, q, node, fill) && Above(t, q, parent, i)
    ensures var r := q[..|q| - 1];
      && Along(t, h, r, fill) && |r| < h && i == |SubAt(t, r).kvs| <= CAPACITY
      && |SubAt(t, r).kids| == |SubAt(t, r).kvs| + 1
      && RightStuffed(SubAt(t, r), h - |r|, fill) && Stuffed(SubAt(t, r).kids[i], h - |r| - 1, fill)
      && (|SubAt(t, r).kvs| == CAPACITY ==> FilledUp(t, h, r, parent, fill))
  {
    var r := q[..|q| - 1];
    AlongUp(t, h, r, i, fill);
    AlongSet(t, h, r, SubAt(t, r), fill);
    if |SubAt(t, r).kvs| == CAPACITY { StuffedIsRight(SubAt(t, r), h - |r|, fill); }
  }

  /** A node whose last child is filled up, with a pair and a pillar put behind that child. */
  lemma OpenPushed(s: Tree, h: nat, kv: KV, u: Tree, fill: Fill)
    requires h > 0 && |s.kids| == |s.kvs| + 1 && |s.kvs| < CAPACITY && RightStuffed(s, h, fill)
    requires Stuffed(s.kids[|s.kvs|], h - 1, fill)
    requires Pillar(u, h - 1)
    ensures var w := WithChild(s, |s.kvs|, kv, u); RightStuffed(w, h, fill) && Flat(w) == Flat(s) + [kv]
  {
    var n := |s.kvs|;
    var w := WithChild(s, n, kv, u);
    assert w.kids == s.kids + [u] && w.kvs == s.kvs + [kv];
    assert w.kids[..n + 1] == s.kids;
    PillarStuffed(u, h - 1, fill);
    PillarEmpty(u, h - 1);
    WeaveJoin(s.kids, s.kvs, kv, [u], []);
    assert Weave([u], []) == Flat(u) && s.kvs + [kv] + [] == w.kvs;
    assert StuffedKids(s.kids, h - 1, fill) by {
      forall i | 0 <= i < |s.kids| ensures Stuffed(s.kids[i], h - 1, fill) {
        if i < n { assert s.kids[i] == s.kids[..n][i]; }
      }
    }
  }

  /** A node with room, whose last child is filled up: where the next pair goes. */
  ghost predicate OpenAt(t: Tree, h: nat, q: Path, open: Node, height: nat, fill: Fill) {
    && RightStuffed(t, h, fill) && Along(t, h, q, fill) && At(t, q, open) && |q| < h && height + |q| == h
    && (q != [] ==> t.kvs != [])
    && var s := SubAt(t, q);
    && |s.kvs| < CAPACITY && |s.kids| == |s.kvs| + 1 && RightStuffed(s, height, fill)
    && Stuffed(s.kids[|s.kvs|], height - 1, fill)
  }

  lemma OpenParent(t: Tree, h: nat, q: Path, node: Node, parent: Node, i: nat, height: nat, fill: Fill)
    requires FilledUp(t, h, q, node, fill) && Above(t, q, parent, i) && height + |q| == h
    requires |SubAt(t, q[..|q| - 1]).kvs| < CAPACITY
    ensures OpenAt(t, h, q[..|q| - 1], parent, height + 1, fill)
  {
    FilledAbove(t, h, q, node, parent, i, fill);
  }

  lemma OpenTop(t: Tree, h: nat, q: Path, node: Node, top: Node, fill: Fill)
    requires FilledUp(t, h, q, node, fill) && q == []
    ensures OpenAt(Raised(top, t), h + 1, [], top, h + 1, fill) && Flat(Raised(top, t)) == Flat(t)
  {
    var r := Raised(top, t);
    assert r.kids[..|r.kvs|] == [];
    RaisedSame(top, t);
    StuffedRight(t, h, fill);
  }

  lemma {:induction false} StuffedRight(t: Tree, h: nat, fill: Fill)
    requires Stuffed(t, h, fill)
    ensures RightStuffed(t, h, fill)
    decreases h
  {
    if h > 0 {
      assert t.kids[|t.kvs|] in t.kids;
      StuffedRight(t.kids[|t.kvs|], h - 1, fill);
    }
  }

  /** From a filled leaf, goes up to the nearest node with room; none if all nodes above are filled. */
  method Climb(leaf: Node, pool: Pool, ghost t: Tree, ghost h: nat, ghost p: Path, ghost fill: Fill)
    returns (open: Option<Node>, height: nat, ghost q: Path)
    requires pool.Valid() && Holds(pool.Mem(), t) && FilledUp(t, h, p, leaf, fill) && |p| == h
    ensures open.Some? ==> OpenAt(t, h, q, open.value, height, fill)
    ensures open.None? ==> FilledUp(t, h, q, t.node, fill) && q == []
  {
    hide Holds, SubAt, ValidPath, FilledUp, OpenAt, Above, Flat, Pool.Mem, Pool.Valid;
    var testNode: Node := leaf;
    height, q := 0, p;
    while true
      invariant FilledUp(t, h, q, testNode, fill) && height + |q| == h
      decreases |q|
    {
      FilledAt(t, h, q, testNode, fill);
      var parent, i := Ascend(testNode, pool, t, q);
      if parent == null {
        FilledRoot(t, h, q, testNode, fill);
        return None, height, q;
      }
      FilledAbove(t, h, q, testNode, parent, i, fill);
      AboveParent(t, q, parent, i);
      var len := Len(parent, pool, t, q[..|q| - 1]);
      if len < CAPACITY {
        OpenParent(t, h, q, testNode, parent, i, height, fill);
        return Some(parent), height + 1, q[..|q| - 1];
      }
      testNode, height, q := parent, height + 1, q[..|q| - 1];
    }
  }

  lemma FilledRoot(t: Tree, h: nat, q: Path, node: Node, fill: Fill)
    requires FilledUp(t, h, q, node, fill) && q == []
    ensures FilledUp(t, h, q, t.node, fill)
  {
  }

  /** The node to push a pair to above a filled leaf, a new root if need be. */
  method FindOpen(leaf: Node, root: Root, pool: Pool, ghost m0: Mem, ghost t0: Tree, ghost t: Tree, ghost p: Path,
                  ghost fill: Fill)
    returns (open: Node, height: nat, ghost t': Tree, ghost q: Path)
    requires pool.Valid() && Becomes(m0, pool.Mem(), t0, t) && t.node == root.node
    requires FilledUp(t, root.height, p, leaf, fill) && |p| == root.height
    modifies root, pool, pool.nodes, pool.kvBuffers, pool.edgeBuffers
    ensures pool.Valid() && fresh(pool.Repr() - old(pool.Repr())) && Becomes(m0, pool.Mem(), t0, t')
    ensures t'.node == root.node && OpenAt(t', root.height, q, open, height, fill) && Flat(t') == Flat(t)
  {
    hide Holds, Becomes, FilledUp, OpenAt, Flat, Pool.Mem, Pool.Valid;
    BecomesHolds(m0, pool.Mem(), t0, t);
    var found;
    found, height, q := Climb(leaf, pool, t, root.height, p, fill);
    if found.Some? {
      open, t' := found.value, t;
    } else {
      open, t' := NewTop(root, pool, m0, t0, t, q, root.node, fill);
      height := root.height;
    }
  }

  lemma FilledAt(t: Tree, h: nat, q: Path, node: Node, fill: Fill)
    requires FilledUp(t, h, q, node, fill)
    ensures At(t, q, node)
  {
  }

  lemma AboveParent(t: Tree, q: Path, parent: Node, i: nat)
    requires Above(t, q, parent, i)
    ensures |q| > 0 && At(t, q[..|q| - 1], parent)
  {
  }

  method NewTop(root: Root, pool: Pool, ghost m0: Mem, ghost t0: Tree, ghost t: Tree, ghost q: Path, ghost node: Node,
                ghost fill: Fill)
    returns (open: Node, ghost t': Tree)
    requires pool.Valid() && Becomes(m0, pool.Mem(), t0, t) && t.node == root.node
    requires FilledUp(t, root.height, q, node, fill) && q == []
    modifies root, pool, pool.nodes, pool.kvBuffers, pool.edgeBuffers
    ensures pool.Valid() && fresh(pool.Repr() - old(pool.Repr())) && Becomes(m0, pool.Mem(), t0, t')
    ensures open == root.node == t'.node && OpenAt(t', root.height, [], open, root.height, fill) && Flat(t') == Flat(t)
  {
    hide Holds, Becomes, FilledUp, OpenAt, Pool.Mem, Pool.Valid;
    ghost var m := pool.Mem();
    BecomesHolds(m0, m, t0, t);
    t' := root.PushInternalLevel(pool, t);
    open := root.node;
    OpenTop(t, root.height - 1, q, node, open, fill);
    BecomesTrans(m0, m, pool.Mem(), t0, t, t');
  }

  lemma OpenPut(t: Tree, h: nat, q: Path, open: Node, height: nat, kv: KV, u: Tree, fill: Fill)
    requires OpenAt(t, h, q, open, height, fill) && height > 0 && Pillar(u, height - 1)
    ensures var w := WithChild(SubAt(t, q), |SubAt(t, q).kvs|, kv, u);
      var t' := SetAt(t, q, w);
      && Pushable(t', h, fill) && Along(t', h, q, fill) && At(t', q, open) && |q| < h
      && Flat(t') == Flat(t) + [kv] && t'.node == t.node
  {
    var s := SubAt(t, q);
    var w := WithChild(s, |s.kvs|, kv, u);
    OpenPushed(s, height, kv, u, fill);
    AlongSet(t, h, q, w, fill);
    SetAtPlace(t, q, w);
    SetAtFlat(t, q, w);
    FlatAt(t, q);
    SetAtNode(t, q, w);
  }

  /** Puts a pair and a new right subtree of empty nodes into a node with room. */
  method PushAbove(open: Node, height: nat, kv: KV, root: Root, pool: Pool, ghost m0: Mem, ghost t0: Tree,
                   ghost t: Tree, ghost q: Path, ghost fill: Fill)
    returns (ghost t': Tree)
    requires pool.Valid() && Becomes(m0, pool.Mem(), t0, t) && t.node == root.node
    requires OpenAt(t, root.height, q, open, height, fill)
    modifies pool, pool.nodes, pool.kvBuffers, pool.edgeBuffers
    ensures pool.Valid() && fresh(pool.Repr() - old(pool.Repr())) && Becomes(m0, pool.Mem(), t0, t')
    ensures t'.node == root.node && Flat(t') == Flat(t) + [kv]
    ensures Pushable(t', root.height, fill) && Along(t', root.height, q, fill) && At(t', q, open) && |q| < root.height
  {
    hide Holds, Becomes, Divides, HoldsBoth, Unites, Created, SubAt, ValidPath, OpenAt, Pillar, Pushable, Along, Flat,
         Pool.Mem, Pool.Valid;
    ghost var m := pool.Mem();
    BecomesHolds(m0, m, t0, t);
    OpenParts(t, root.height, q, open, height, fill);
    var len := Len(open, pool, t, q);
    var rightTree; ghost var u;
    rightTree, u := NewPillar(height - 1, pool);
    ghost var m1 := pool.Mem();
    CreatedBeside(m, m1, t, u);
    DividesHolds(m, m1, t, t, u);
    OpenPut(t, root.height, q, open, height, kv, u, fill);
    t' := HangAt(open, len, kv, rightTree.node, pool, t, q, u);
    DividesUnites(m, m1, pool.Mem(), t, t, u, t');
    BecomesTrans(m0, m, pool.Mem(), t0, t, t');
  }

  lemma OpenParts(t: Tree, h: nat, q: Path, open: Node, height: nat, fill: Fill)
    requires OpenAt(t, h, q, open, height, fill)
    ensures height > 0 && At(t, q, open)
    ensures var s := SubAt(t, q); |s.kvs| < CAPACITY && |s.kids| == |s.kvs| + 1
  {
  }

  lemma {:induction false} AlongRightmost(t: Tree, h: nat, p: Path, w: Path, fill: Fill)
    requires RightStuffed(t, h, fill) && Along(t, h, p, fill) && ValidPath(t, p) && Rightmost(SubAt(t, p), w)
    ensures Along(t, h, p + w, fill)
    decreases |p|
  {
    if p == [] {
      assert p + w == w;
      RightmostAlong(t, h, w, fill);
    } else {
      assert (p + w)[1..] == p[1..] + w;
      AlongRightmost(t.kids[p[0]], h - 1, p[1..], w, fill);
    }
  }

  lemma {:induction false} RightmostAlong(t: Tree, h: nat, w: Path, fill: Fill)
    requires RightStuffed(t, h, fill) && Rightmost(t, w)
    ensures Along(t, h, w, fill)
    decreases |w|
  {
    if w != [] { RightmostAlong(t.kids[w[0]], h - 1, w[1..], fill); }
  }

  lemma AtEndOf(t: Tree, h: nat, p: Path, w: Path, e: Handle, fill: Fill)
    requires Pushable(t, h, fill) && Along(t, h, p, fill) && ValidPath(t, p) && Rightmost(SubAt(t, p), w)
    requires LeafEdge(t, p + w, e)
    ensures AtEnd(t, h, p + w, e.node, fill)
  {
    AlongRightmost(t, h, p, w, fill);
    AlongSet(t, h, p + w, SubAt(t, p + w), fill);
  }

  /** The rightmost leaf under a node on the right border. */
  method LastLeaf(node: Node, pool: Pool, ghost m0: Mem, ghost t0: Tree, ghost t: Tree, ghost h: nat, ghost q: Path,
                  ghost fill: Fill)
    returns (leaf: Node, ghost p: Path)
    requires pool.Valid() && Becomes(m0, pool.Mem(), t0, t) && Pushable(t, h, fill) && Along(t, h, q, fill)
    requires At(t, q, node)
    ensures AtEnd(t, h, p, leaf, fill)
  {
    hide Holds, Becomes, SubAt, ValidPath, Pushable, Along, Rightmost, AtEnd, Pool.Mem, Pool.Valid;
    BecomesHolds(m0, pool.Mem(), t0, t);
    var edge; ghost var w;
    edge, w := LastLeafEdge(node, pool, t, q);
    AtEndOf(t, h, q, w, edge, fill);
    leaf, p := edge.node, q + w;
  }

  /** Pushes one pair at the end of the tree. */
  method PushLast(cur: Node, kv: KV, root: Root, pool: Pool, ghost m0: Mem, ghost t0: Tree, ghost t: Tree,
                  ghost p: Path, ghost fill: Fill)
    returns (next: Node, ghost t': Tree, ghost p': Path)
    requires pool.Valid() && Becomes(m0, pool.Mem(), t0, t) && t.node == root.node
    requires AtEnd(t, root.height, p, cur, fill)
    modifies root, pool, pool.nodes, pool.kvBuffers, pool.edgeBuffers
    ensures pool.Valid() && fresh(pool.Repr() - old(pool.Repr())) && Becomes(m0, pool.Mem(), t0, t')
    ensures t'.node == root.node && AtEnd(t', root.height, p', next, fill) && Flat(t') == Flat(t) + [kv]
  {
    hide Holds, Becomes, SubAt, ValidPath, AtEnd, OpenAt, FilledUp, Pushable, Along, Flat, Pool.Mem, Pool.Valid;
    BecomesHolds(m0, pool.Mem(), t0, t);
    EndLeaf(t, root.height, p, cur, fill);
    AtEndAt(t, root.height, p, cur, fill);
    var len := Len(cur, pool, t, p);
    if len < CAPACITY {
      t' := PushLeaf(cur, len, kv, pool, m0, t0, t, root.height, p, fill);
      next, p' := cur, p;
    } else {
      next, t', p' := PushHigher(cur, kv, root, pool, m0, t0, t, p, fill);
    }
  }

  method PushHigher(cur: Node, kv: KV, root: Root, pool: Pool, ghost m0: Mem, ghost t0: Tree, ghost t: Tree,
                    ghost p: Path, ghost fill: Fill)
    returns (next: Node, ghost t': Tree, ghost p': Path)
    requires pool.Valid() && Becomes(m0, pool.Mem(), t0, t) && t.node == root.node
    requires FilledUp(t, root.height, p, cur, fill) && |p| == root.height
    modifies root, pool, pool.nodes, pool.kvBuffers, pool.edgeBuffers
    ensures pool.Valid() && fresh(pool.Repr() - old(pool.Repr())) && Becomes(m0, pool.Mem(), t0, t')
    ensures t'.node == root.node && AtEnd(t', root.height, p', next, fill) && Flat(t') == Flat(t) + [kv]
  {
    hide Holds, Becomes, SubAt, ValidPath, AtEnd, OpenAt, FilledUp, Pushable, Along, Flat, Pool.Mem, Pool.Valid;
    var open, height; ghost var q;
    open, height, t', q := FindOpen(cur, root, pool, m0, t0, t, p, fill);
    t' := PushAbove(open, height, kv, root, pool, m0, t0, t', q, fill);
    next, p' := LastLeaf(open, pool, m0, t0, t', root.height, q, fill);
  }

  lemma AtEndAt(t: Tree, h: nat, p: Path, leaf: Node, fill: Fill)
    requires AtEnd(t, h, p, leaf, fill)
    ensures At(t, p, leaf) && |p| == h
  {
  }

  method PushLeaf(cur: Node, len: nat, kv: KV, pool: Pool, ghost m0: Mem, ghost t0: Tree, ghost t: Tree, ghost h: nat,
                  ghost p: Path, ghost fill: Fill)
    returns (ghost t': Tree)
    requires pool.Valid() && Becomes(m0, pool.Mem(), t0, t) && AtEnd(t, h, p, cur, fill)
    requires ValidPath(t, p) && len == |SubAt(t, p).kvs| < CAPACITY
    modifies pool.nodes, pool.kvBuffers, pool.edgeBuffers
    ensures pool.Valid() && Becomes(m0, pool.Mem(), t0, t')
    ensures t'.node == t.node && AtEnd(t', h, p, cur, fill) && Flat(t') == Flat(t) + [kv]
  {
    hide Holds, Becomes, SubAt, ValidPath, AtEnd, Flat, Pool.Mem, Pool.Valid;
    ghost var m := pool.Mem();
    BecomesHolds(m0, m, t0, t);
    EndLeaf(t, h, p, cur, fill);
    AtEndAt(t, h, p, cur, fill);
    LeafPushed(t, h, p, cur, kv, fill);
    t' := InsertInLeaf(cur, len, kv, pool, t, p);
    BecomesTrans(m0, m, pool.Mem(), t0, t, t');
  }

  // ----- Stocking up the right border

  /** The right border is stocked up down to the node at `p`. */
  ghost predicate StockedTo(t: Tree, h: nat, p: Path, fill: Fill) {
    && ValidPath(t, p) && |p| <= h && FullAround(t, h, if h == 0 then 0 else 1, p)
    && RightStuffed(SubAt(t, p), h - |p|, fill) && (|p| < h || p != [] ==> Least(1, p) <= |SubAt(t, p).kvs|)
  }

  lemma StuffedKidsFull(kids: seq<Tree>, h: nat, fill: Fill)
    requires StuffedKids(kids, h, fill)
    ensures FullKids(kids, h)
  {
    forall i | 0 <= i < |kids| ensures Full(kids[i], h, MIN_LEN) { StuffedFull(kids[i], h, fill); }
  }

  lemma StockStart(t: Tree, h: nat, fill: Fill)
    requires Pushable(t, h, fill)
    ensures StockedTo(t, h, [], fill)
  {
  }

  lemma StockEnd(t: Tree, h: nat, p: Path, fill: Fill)
    requires StockedTo(t, h, p, fill) && SubAt(t, p).kids == []
    ensures Balanced(t, h)
  {
    var lo := if h == 0 then 0 else 1;
    FullSet(t, h, lo, p, SubAt(t, p));
    SetSame(t, p);
  }

  /** The last two children of a node on the right border: the left one is filled. */
  lemma StuffedPair(s: Tree, h: nat, lo: nat, fill: Fill)
    requires h > 0 && RightStuffed(s, h, fill) && 0 < |s.kvs| && lo <= |s.kvs|
    ensures var i := |s.kvs| - 1;
      && Pair(s, i) && FullButPair(s, h, lo, i) && Stuffed(s.kids[i], h - 1, fill)
      && RightStuffed(s.kids[i + 1], h - 1, fill)
  {
    var i := |s.kvs| - 1;
    assert s.kids[i] == s.kids[..|s.kvs|][i];
    assert s.kids[..i] == s.kids[..|s.kvs|][..i] && s.kids[i + 2..] == [];
    StuffedKidsFull(s.kids[..i], h - 1, fill);
    StuffedFull(s.kids[i], h - 1, fill);
    FullArity(s.kids[i], h - 1, MIN_LEN);
    RightStuffedArity(s.kids[i + 1], h - 1, fill);
  }

  lemma RightStuffedArity(t: Tree, h: nat, fill: Fill)
    requires RightStuffed(t, h, fill)
    ensures Arity(t) && (t.kids == [] <==> h == 0)
  {
  }

  lemma StockedNode(s: Tree, h: nat, lo: nat, i: nat, n: nat, fill: Fill)
    requires h > 0 && RightStuffed(s, h, fill) && lo <= |s.kvs| && i + 1 == |s.kvs| && Pair(s, i)
    requires |s.kids[i + 1].kvs| < MIN_LEN && n + (MIN_LEN - |s.kids[i + 1].kvs|) == |s.kids[i].kvs|
    ensures var w := StolenLeft(s, i, n);
      FullBut(w, h, lo, i + 1) && RightStuffed(w.kids[i + 1], h - 1, fill) && MIN_LEN <= |w.kids[i + 1].kvs|
  {
    hide RightStuffed, FullKids, Full, FullBut, FullButPair, Stuffed, Head, Tail;
    StuffedPair(s, h, lo, fill);
    var l, r := s.kids[i], s.kids[i + 1];
    StuffedHead(l, h - 1, n, fill);
    var j := Join(r.node, Tail(r.node, l, n + 1), s.kvs[i], r);
    StuffedTail(l, s.kvs[i], r, h - 1, n + 1, fill);
    FullRegroup(s, h, lo, i, Head(l, n), l.kvs[n], j);
    assert StolenLeft(s, i, n).kids[i + 1] == j;
  }

  lemma StuffedHead(l: Tree, h: nat, n: nat, fill: Fill)
    requires Stuffed(l, h, fill) && MIN_LEN <= n < |l.kvs|
    ensures Arity(l) && Full(Head(l, n), h, MIN_LEN)
  {
    StuffedFull(l, h, fill);
    FullFrom(l, h, MIN_LEN, 0);
    FullHead(l, n, h);
    FullFrom(Head(l, n), h, n, MIN_LEN);
  }

  lemma StuffedTail(l: Tree, kv: KV, r: Tree, h: nat, n: nat, fill: Fill)
    requires Stuffed(l, h, fill) && RightStuffed(r, h, fill) && n <= |l.kvs| && Arity(l)
    requires |l.kvs| - n + 1 + |r.kvs| <= CAPACITY
    ensures RightStuffed(Join(r.node, Tail(r.node, l, n), kv, r), h, fill)
    ensures |Join(r.node, Tail(r.node, l, n), kv, r).kvs| == |l.kvs| - n + 1 + |r.kvs|
  {
    if h > 0 {
      var j := Join(r.node, Tail(r.node, l, n), kv, r);
      assert j.kids[..|j.kvs|] == l.kids[n..] + r.kids[..|r.kvs|];
    }
  }

  lemma StockFurther(t: Tree, h: nat, p: Path, w: Tree, i: nat, fill: Fill)
    requires ValidPath(t, p) && |p| < h && FullAround(t, h, 1, p)
    requires FullBut(w, h - |p|, Least(1, p), i) && RightStuffed(w.kids[i], h - |p| - 1, fill)
    requires MIN_LEN <= |w.kids[i].kvs|
    ensures StockedTo(SetAt(t, p, w), h, p + [i], fill)
  {
    hide FullAround, RightStuffed, SubAt, ValidPath, SetAt, Before, After, Left, Right, FullKids;
    assert |p + [i]| == |p| + 1;
    FullSet(t, h, 1, p, w);
    SetAtPlace(t, p, w);
    FullStep(SetAt(t, p, w), h, 1, p, i);
    Step(SetAt(t, p, w), p, i);
  }

  lemma StockSteal(t: Tree, h: nat, p: Path, i: nat, n: nat, fill: Fill)
    requires StockedTo(t, h, p, fill) && |p| < h && i + 1 == |SubAt(t, p).kvs|
    requires var s := SubAt(t, p);
      && i + 1 < |s.kids| && |s.kids[i + 1].kvs| < MIN_LEN && |s.kids[i].kvs| == n + (MIN_LEN - |s.kids[i + 1].kvs|)
    ensures Pair(SubAt(t, p), i) && n < |SubAt(t, p).kids[i].kvs|
    ensures var t' := SetAt(t, p, StolenLeft(SubAt(t, p), i, n));
      StockedTo(t', h, p + [i + 1], fill) && SamePairs(t, t', false)
  {
    hide FullAround, RightStuffed, ValidPath, FullBut, FullButPair, Full, Stuffed;
    var s, hs := SubAt(t, p), h - |p|;
    StuffedPair(s, hs, Least(1, p), fill);
    StuffedLen(s.kids[i], hs - 1, fill);
    StockedNode(s, hs, Least(1, p), i, n, fill);
    StockFurther(t, h, p, StolenLeft(s, i, n), i + 1, fill);
    FlatStolenLeft(s, i, n);
    SetAtSameFlat(t, p, StolenLeft(s, i, n));
    SetAtNode(t, p, StolenLeft(s, i, n));
  }

  lemma StuffedLen(t: Tree, h: nat, fill: Fill)
    requires Stuffed(t, h, fill)
    ensures 2 * MIN_LEN <= |t.kvs| <= CAPACITY
  {
  }

  lemma StockKept(t: Tree, h: nat, p: Path, i: nat, fill: Fill)
    requires StockedTo(t, h, p, fill) && |p| < h && i + 1 == |SubAt(t, p).kvs|
    requires i + 1 < |SubAt(t, p).kids| && MIN_LEN <= |SubAt(t, p).kids[i + 1].kvs|
    ensures StockedTo(t, h, p + [i + 1], fill)
  {
    var s := SubAt(t, p);
    assert s.kids[i + 2..] == [];
    StuffedKidsFull(s.kids[..|s.kvs|], h - |p| - 1, fill);
    StockFurther(t, h, p, s, i + 1, fill);
    SetSame(t, p);
  }

  lemma StockPair(t: Tree, h: nat, p: Path, fill: Fill)
    requires StockedTo(t, h, p, fill) && SubAt(t, p).kids != []
    ensures |p| < h
    ensures var s := SubAt(t, p);
      |s.kvs| > 0 && |s.kids| == |s.kvs| + 1 && Pair(s, |s.kvs| - 1) && 2 * MIN_LEN <= |s.kids[|s.kvs| - 1].kvs|
  {
    RightStuffedArity(SubAt(t, p), h - |p|, fill);
    StuffedPair(SubAt(t, p), h - |p|, Least(1, p), fill);
  }

  /** Stocks up the last child of a node and goes on to it. */
  method StockChild(node: Node, pool: Pool, ghost m0: Mem, ghost t0: Tree, ghost t: Tree, ghost h: nat, ghost p: Path,
                    ghost fill: Fill)
    returns (child: Node, ghost t': Tree, ghost p': Path)
    requires pool.Valid() && Becomes(m0, pool.Mem(), t0, t) && At(t, p, node) && StockedTo(t, h, p, fill)
    requires SubAt(t, p).kids != []
    modifies pool.nodes, pool.kvBuffers, pool.edgeBuffers
    ensures pool.Valid() && Becomes(m0, pool.Mem(), t0, t') && SamePairs(t, t', false)
    ensures At(t', p', child) && StockedTo(t', h, p', fill) && |p| < |p'| <= h
  {
    hide Holds, Becomes, SubAt, ValidPath, StockedTo, SamePairs, Pool.Mem, Pool.Valid;
    ghost var m := pool.Mem();
    BecomesHolds(m0, m, t0, t);
    StockPair(t, h, p, fill);
    var len := Len(node, pool, t, p);
    child := Descend(node, len, pool, t, p);
    var rightLen := ChildLen(node, len, pool, t, p);
    p' := p + [len];
    if rightLen < MIN_LEN {
      t' := StockBySteal(node, len - 1, rightLen, pool, t, h, p, fill);
      BecomesTrans(m0, m, pool.Mem(), t0, t, t');
    } else {
      t' := t;
      StockKept(t, h, p, len - 1, fill);
      SameItself(t);
    }
    StockedLen(t', h, p', fill);
  }

  lemma SameItself(t: Tree)
    ensures SamePairs(t, t, false)
  {
  }

  lemma StockedLen(t: Tree, h: nat, p: Path, fill: Fill)
    requires StockedTo(t, h, p, fill)
    ensures |p| <= h
  {
  }

  method StockBySteal(node: Node, i: nat, rightLen: nat, pool: Pool, ghost t: Tree, ghost h: nat, ghost p: Path,
                      ghost fill: Fill)
    returns (ghost t': Tree)
    requires pool.Valid() && Holds(pool.Mem(), t) && At(t, p, node) && StockedTo(t, h, p, fill) && |p| < h
    requires var s := SubAt(t, p);
      i + 1 == |s.kvs| && Pair(s, i) && 2 * MIN_LEN <= |s.kids[i].kvs| && rightLen == |s.kids[i + 1].kvs| < MIN_LEN
    modifies pool.nodes, pool.kvBuffers, pool.edgeBuffers
    ensures pool.Valid() && Becomes(old(pool.Mem()), pool.Mem(), t, t') && SamePairs(t, t', false)
    ensures StockedTo(t', h, p + [i + 1], fill) && At(t', p + [i + 1], SubAt(t, p).kids[i + 1].node)
  {
    hide Holds, Becomes, SubAt, ValidPath, StockedTo, Pool.Mem, Pool.Valid;
    ghost var n;
    t', n := StealLeft(node, i, MIN_LEN - rightLen, pool, t, p);
    StockSteal(t, h, p, i, n, fill);
    StolenChild(t, p, i, n);
  }

  /** Stocks up the underfull nodes on the right border from their left siblings, which have pairs to spare. */
  method FixRightBorderOfPlentiful(root: Root, pool: Pool, ghost m0: Mem, ghost t0: Tree, ghost t1: Tree,
                                   ghost fill: Fill)
    returns (ghost t: Tree)
    requires pool.Valid() && Becomes(m0, pool.Mem(), t0, t1) && t1.node == root.node && Pushable(t1, root.height, fill)
    modifies pool.nodes, pool.kvBuffers, pool.edgeBuffers
    ensures pool.Valid() && Becomes(m0, pool.Mem(), t0, t) && t.node == root.node
    ensures Balanced(t, root.height) && Flat(t) == Flat(t1)
  {
    hide Holds, Becomes, SubAt, ValidPath, StockedTo, Pushable, Balanced, Pool.Mem, Pool.Valid;
    var cur := root.node;
    ghost var p: Path, h := [], root.height;
    t := t1;
    AtRoot(t);
    StockStart(t, h, fill);
    while true
      invariant pool.Valid() && Becomes(m0, pool.Mem(), t0, t)
      invariant At(t, p, cur) && StockedTo(t, h, p, fill) && SamePairs(t1, t, false)
      decreases h - |p|
    {
      BecomesHolds(m0, pool.Mem(), t0, t);
      var leaf := IsLeaf(cur, pool, t, p);
      if leaf {
        StockEnd(t, h, p, fill);
        return;
      }
      cur, t, p := StockChild(cur, pool, m0, t0, t, h, p, fill);
    }
  }
}
