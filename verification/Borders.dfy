/** Restoring the fullness of nodes along the right or the left border of a tree, top-down. */
module Borders {
  import opened Nodes
  import opened Trees
  import opened Memory
  import opened Edits
  import opened Shapes
  import opened Places
  import opened Navigate
  import opened Roots
  import opened Fix

  // ----- The top

  /** Every level on top has its one edge. */
  ghost predicate Chain(t: Tree, h: nat)
    decreases h
  {
    h > 0 ==> |t.kids| == |t.kvs| + 1 && (t.kvs == [] ==> Chain(t.kids[0], h - 1))
  }

  /** The tree without the empty levels on top. */
  ghost function Topped(t: Tree, h: nat): Tree
    requires Chain(t, h)
    decreases h
  {
    if h > 0 && t.kvs == [] then Topped(t.kids[0], h - 1) else t
  }

  ghost function ToppedHeight(t: Tree, h: nat): nat
    requires Chain(t, h)
    decreases h
  {
    if h > 0 && t.kvs == [] then ToppedHeight(t.kids[0], h - 1) else h
  }

  lemma {:induction false} ToppedSame(t: Tree, h: nat)
    requires Chain(t, h)
    ensures Flat(Topped(t, h)) == Flat(t) && (ToppedHeight(t, h) == 0 || Topped(t, h).kvs != [])
    ensures ToppedHeight(t, h) <= h
    decreases h
  {
    if h > 0 && t.kvs == [] { ToppedSame(t.kids[0], h - 1); }
  }

  /** Removes empty levels on the top, but keeps an empty leaf. */
  method FixTop(root: Root, pool: Pool, ghost t: Tree) returns (ghost t': Tree)
    requires pool.Valid() && Holds(pool.Mem(), t) && t.node == root.node && Chain(t, root.height)
    modifies root, pool, pool.nodes, pool.kvBuffers, pool.edgeBuffers
    ensures pool.Valid() && pool.Repr() <= old(pool.Repr()) && Becomes(old(pool.Mem()), pool.Mem(), t, t')
    ensures t' == Topped(t, old(root.height)) && root.height == ToppedHeight(t, old(root.height))
    ensures t'.node == root.node
  {
    hide Holds, Becomes, Pool.Mem, Pool.Valid;
    t' := t;
    BecomesNothing(pool.Mem(), t);
    while true
      invariant pool.Valid() && pool.Repr() <= old(pool.Repr()) && Becomes(old(pool.Mem()), pool.Mem(), t, t')
      invariant t'.node == root.node && Chain(t', root.height)
      invariant Topped(t', root.height) == Topped(t, old(root.height))
      invariant ToppedHeight(t', root.height) == ToppedHeight(t, old(root.height))
      decreases root.height
    {
      var more;
      more, t' := PopEmpty(root, pool, old(pool.Mem()), t, t');
      if !more { return; }
    }
  }

  method PopEmpty(root: Root, pool: Pool, ghost m0: Mem, ghost t0: Tree, ghost t: Tree)
    returns (popped: bool, ghost t': Tree)
    requires pool.Valid() && Becomes(m0, pool.Mem(), t0, t) && t.node == root.node && Chain(t, root.height)
    modifies root, pool, pool.nodes, pool.kvBuffers, pool.edgeBuffers
    ensures pool.Valid() && pool.Repr() <= old(pool.Repr()) && Becomes(m0, pool.Mem(), t0, t')
    ensures popped <==> old(root.height) > 0 && t.kvs == []
    ensures popped ==> root.height == old(root.height) - 1 && t' == t.kids[0]
    ensures !popped ==> root.height == old(root.height) && t' == t
    ensures t'.node == root.node
  {
    hide Holds, Becomes, Pool.Mem, Pool.Valid;
    ghost var m := pool.Mem();
    BecomesHolds(m0, m, t0, t);
    AtRoot(t);
    var len := Len(root.node, pool, t, []);
    popped, t' := root.height > 0 && len == 0, t;
    if popped {
      root.PopInternalLevel(pool, t);
      t' := t.kids[0];
      BecomesTrans(m0, m, pool.Mem(), t0, t, t');
    }
  }

  // ----- Loose borders

  /** Nodes on the right border may be underfull or empty; all others are full. */
  ghost predicate RightLoose(t: Tree, h: nat)
    decreases h
  {
    && |t.kvs| <= CAPACITY
    && if h == 0 then t.kids == []
       else |t.kids| == |t.kvs| + 1 && FullKids(t.kids[..|t.kvs|], h - 1) && RightLoose(t.kids[|t.kvs|], h - 1)
  }

  ghost predicate LeftLoose(t: Tree, h: nat)
    decreases h
  {
    && |t.kvs| <= CAPACITY
    && if h == 0 then t.kids == []
       else |t.kids| == |t.kvs| + 1 && FullKids(t.kids[1..], h - 1) && LeftLoose(t.kids[0], h - 1)
  }

  lemma {:induction false} RightLooseTop(t: Tree, h: nat)
    requires RightLoose(t, h)
    ensures Chain(t, h) && RightLoose(Topped(t, h), ToppedHeight(t, h))
    decreases h
  {
    if h > 0 && t.kvs == [] { RightLooseTop(t.kids[0], h - 1); }
  }

  lemma {:induction false} LeftLooseTop(t: Tree, h: nat)
    requires LeftLoose(t, h)
    ensures Chain(t, h) && LeftLoose(Topped(t, h), ToppedHeight(t, h))
    decreases h
  {
    if h > 0 && t.kvs == [] { LeftLooseTop(t.kids[0], h - 1); }
  }

  lemma RightLooseArity(t: Tree, h: nat)
    requires RightLoose(t, h)
    ensures Arity(t) && (t.kids == [] <==> h == 0)
  {
  }

  lemma LeftLooseArity(t: Tree, h: nat)
    requires LeftLoose(t, h)
    ensures Arity(t) && (t.kids == [] <==> h == 0)
  {
  }

  lemma RightLooseJoin(node: Node, l: Tree, kv: KV, r: Tree, h: nat)
    requires Full(l, h, 0) && RightLoose(r, h) && |l.kvs| + 1 + |r.kvs| <= CAPACITY
    ensures SameKind(l, r) && RightLoose(Join(node, l, kv, r), h)
  {
    if h > 0 {
      var j := Join(node, l, kv, r);
      assert j.kids[..|j.kvs|] == l.kids + r.kids[..|r.kvs|];
      FullKidsConcat(l.kids, r.kids[..|r.kvs|], h - 1);
    }
  }

  lemma LeftLooseJoin(node: Node, l: Tree, kv: KV, r: Tree, h: nat)
    requires LeftLoose(l, h) && Full(r, h, 0) && |l.kvs| + 1 + |r.kvs| <= CAPACITY
    ensures SameKind(l, r) && LeftLoose(Join(node, l, kv, r), h)
  {
    if h > 0 {
      var j := Join(node, l, kv, r);
      assert j.kids[1..] == l.kids[1..] + r.kids;
      FullKidsConcat(l.kids[1..], r.kids, h - 1);
    }
  }

  /** The right border is fixed down to the node at `p`, which has a pair to spare if it is not the root. */
  ghost predicate RightFixed(t: Tree, h: nat, p: Path) {
    && ValidPath(t, p) && |p| <= h && FullAround(t, h, 0, p) && RightLoose(SubAt(t, p), h - |p|)
    && (if p == [] then 1 else MIN_LEN + 1) <= |SubAt(t, p).kvs|
  }

  ghost predicate LeftFixed(t: Tree, h: nat, p: Path) {
    && ValidPath(t, p) && |p| <= h && FullAround(t, h, 0, p) && LeftLoose(SubAt(t, p), h - |p|)
    && (if p == [] then 1 else MIN_LEN + 1) <= |SubAt(t, p).kvs|
  }

  /** At a leaf, all is done. */
  lemma RightDone(t: Tree, h: nat, p: Path)
    requires RightFixed(t, h, p) && SubAt(t, p).kids == []
    ensures Full(t, h, 0)
  {
    FullSet(t, h, 0, p, SubAt(t, p));
    SetSame(t, p);
  }

  lemma LeftDone(t: Tree, h: nat, p: Path)
    requires LeftFixed(t, h, p) && SubAt(t, p).kids == []
    ensures Full(t, h, 0)
  {
    FullSet(t, h, 0, p, SubAt(t, p));
    SetSame(t, p);
  }

  /** The node at `p` replaced by one whose child `i`, with a pair to spare, is where to go on. */
  lemma RightFurther(t: Tree, h: nat, p: Path, w: Tree, i: nat)
    requires ValidPath(t, p) && |p| < h && FullAround(t, h, 0, p)
    requires FullBut(w, h - |p|, Least(0, p), i) && RightLoose(w.kids[i], h - |p| - 1) && MIN_LEN + 1 <= |w.kids[i].kvs|
    ensures RightFixed(SetAt(t, p, w), h, p + [i])
  {
    hide FullAround, RightLoose, SubAt, ValidPath, SetAt, Before, After, Left, Right, FullKids;
    assert |p + [i]| == |p| + 1;
    FullSet(t, h, 0, p, w);
    SetAtPlace(t, p, w);
    FullStep(SetAt(t, p, w), h, 0, p, i);
    Step(SetAt(t, p, w), p, i);
  }

  lemma LeftFurther(t: Tree, h: nat, p: Path, w: Tree, i: nat)
    requires ValidPath(t, p) && |p| < h && FullAround(t, h, 0, p)
    requires FullBut(w, h - |p|, Least(0, p), i) && LeftLoose(w.kids[i], h - |p| - 1) && MIN_LEN + 1 <= |w.kids[i].kvs|
    ensures LeftFixed(SetAt(t, p, w), h, p + [i])
  {
    hide FullAround, LeftLoose, SubAt, ValidPath, SetAt, Before, After, Left, Right, FullKids;
    assert |p + [i]| == |p| + 1;
    FullSet(t, h, 0, p, w);
    SetAtPlace(t, p, w);
    FullStep(SetAt(t, p, w), h, 0, p, i);
    Step(SetAt(t, p, w), p, i);
  }

  /** The last two children of a node on the right border. */
  lemma RightPair(s: Tree, h: nat, lo: nat)
    requires h > 0 && RightLoose(s, h) && lo < |s.kvs|
    ensures var i := |s.kvs| - 1;
      && Pair(s, i) && FullButPair(s, h, lo + 1, i) && Full(s.kids[i], h - 1, MIN_LEN)
      && RightLoose(s.kids[i + 1], h - 1)
  {
    var i := |s.kvs| - 1;
    RightLooseArity(s.kids[i + 1], h - 1);
    assert s.kids[i] == s.kids[..|s.kvs|][i];
    FullArity(s.kids[i], h - 1, MIN_LEN);
    assert s.kids[..i] == s.kids[..|s.kvs|][..i] && s.kids[i + 2..] == [];
  }

  lemma LeftPair(s: Tree, h: nat, lo: nat)
    requires h > 0 && LeftLoose(s, h) && lo < |s.kvs|
    ensures Pair(s, 0) && FullButPair(s, h, lo + 1, 0) && LeftLoose(s.kids[0], h - 1) && Full(s.kids[1], h - 1, MIN_LEN)
  {
    LeftLooseArity(s.kids[0], h - 1);
    assert s.kids[1] == s.kids[1..][0];
    FullArity(s.kids[1], h - 1, MIN_LEN);
    assert s.kids[2..] == s.kids[1..][1..] && s.kids[..0] == [];
  }

  lemma LastIndex(t: Tree, h: nat, p: Path)
    requires RightFixed(t, h, p) && |p| < h
    ensures var s := SubAt(t, p); |s.kvs| > 0 && Pair(s, |s.kvs| - 1) && |s.kvs| - 1 < |s.kids|
  {
    RightPair(SubAt(t, p), h - |p|, Least(0, p));
  }

  lemma RightMerged(t: Tree, h: nat, p: Path, i: nat)
    requires RightFixed(t, h, p) && |p| < h && i + 1 == |SubAt(t, p).kvs|
    requires var s := SubAt(t, p); i + 1 < |s.kids| && |s.kids[i].kvs| + 1 + |s.kids[i + 1].kvs| <= CAPACITY
    ensures Pair(SubAt(t, p), i)
    ensures var t' := SetAt(t, p, Merged(SubAt(t, p), i)); RightFixed(t', h, p + [i]) && SamePairs(t, t', false)
  {
    hide FullAround, RightLoose, ValidPath, FullBut, FullButPair, Full;
    var s, hs := SubAt(t, p), h - |p|;
    RightPair(s, hs, Least(0, p));
    RightMergedNode(s, hs, Least(0, p), i);
    RightFurther(t, h, p, Merged(s, i), i);
    FlatMerged(s, i);
    SetAtSameFlat(t, p, Merged(s, i));
    SetAtNode(t, p, Merged(s, i));
  }

  lemma RightMergedNode(s: Tree, h: nat, lo: nat, i: nat)
    requires h > 0 && RightLoose(s, h) && lo < |s.kvs| && i + 1 == |s.kvs| && Pair(s, i)
    requires |s.kids[i].kvs| + 1 + |s.kids[i + 1].kvs| <= CAPACITY
    ensures var w := Merged(s, i);
      FullBut(w, h, lo, i) && RightLoose(w.kids[i], h - 1) && MIN_LEN + 1 <= |w.kids[i].kvs|
  {
    RightPair(s, h, lo);
    var l, r := s.kids[i], s.kids[i + 1];
    FullFrom(l, h - 1, MIN_LEN, 0);
    RightLooseJoin(l.node, l, s.kvs[i], r, h - 1);
    FullContract(s, h, lo + 1, i, Join(l.node, l, s.kvs[i], r));
    assert Merged(s, i).kids[i] == Join(l.node, l, s.kvs[i], r);
  }

  lemma RightStolen(t: Tree, h: nat, p: Path, i: nat, n: nat)
    requires RightFixed(t, h, p) && |p| < h && i + 1 == |SubAt(t, p).kvs|
    requires var s := SubAt(t, p);
      && i + 1 < |s.kids| && |s.kids[i].kvs| + 1 + |s.kids[i + 1].kvs| > CAPACITY
      && |s.kids[i + 1].kvs| <= MIN_LEN && |s.kids[i].kvs| + |s.kids[i + 1].kvs| == n + (MIN_LEN + 1)
    ensures Pair(SubAt(t, p), i) && n < |SubAt(t, p).kids[i].kvs|
    ensures var t' := SetAt(t, p, StolenLeft(SubAt(t, p), i, n));
      RightFixed(t', h, p + [i + 1]) && SamePairs(t, t', false)
  {
    hide FullAround, RightLoose, ValidPath, FullBut, FullButPair, Full;
    var s, hs := SubAt(t, p), h - |p|;
    RightPair(s, hs, Least(0, p));
    RightStolenNode(s, hs, Least(0, p), i, n);
    RightFurther(t, h, p, StolenLeft(s, i, n), i + 1);
    FlatStolenLeft(s, i, n);
    SetAtSameFlat(t, p, StolenLeft(s, i, n));
    SetAtNode(t, p, StolenLeft(s, i, n));
  }

  /** The parts of a left sibling cut at pair `n`. */
  lemma CutSibling(l: Tree, h: nat, n: nat, node: Node)
    requires Full(l, h, MIN_LEN) && n < |l.kvs|
    ensures |Head(l, n).kvs| == n && |Tail(node, l, n + 1).kvs| == |l.kvs| - n - 1
    ensures Full(Head(l, n), h, 0) && Full(Tail(node, l, n + 1), h, 0)
    ensures n >= MIN_LEN ==> Full(Head(l, n), h, MIN_LEN)
    ensures |l.kvs| - n - 1 >= MIN_LEN ==> Full(Tail(node, l, n + 1), h, MIN_LEN)
  {
    FullFrom(l, h, MIN_LEN, 0);
    FullHead(l, n, h);
    FullFrom(Head(l, n), h, n, 0);
    FullTail(node, l, n + 1, h);
    FullFrom(Tail(node, l, n + 1), h, |l.kvs| - (n + 1), 0);
    if n >= MIN_LEN { FullFrom(Head(l, n), h, n, MIN_LEN); }
    if |l.kvs| - n - 1 >= MIN_LEN { FullFrom(Tail(node, l, n + 1), h, |l.kvs| - (n + 1), MIN_LEN); }
  }

  lemma RightStolenNode(s: Tree, h: nat, lo: nat, i: nat, n: nat)
    requires h > 0 && RightLoose(s, h) && lo < |s.kvs| && i + 1 == |s.kvs| && Pair(s, i)
    requires MIN_LEN <= n < |s.kids[i].kvs| && |s.kids[i].kvs| + |s.kids[i + 1].kvs| == n + (MIN_LEN + 1)
    ensures var w := StolenLeft(s, i, n);
      FullBut(w, h, lo, i + 1) && RightLoose(w.kids[i + 1], h - 1) && MIN_LEN + 1 <= |w.kids[i + 1].kvs|
  {
    hide RightLoose, FullKids, Full, FullBut, FullButPair, Head, Tail;
    RightPair(s, h, lo);
    var l, r := s.kids[i], s.kids[i + 1];
    CutSibling(l, h - 1, n, r.node);
    var j := Join(r.node, Tail(r.node, l, n + 1), s.kvs[i], r);
    RightLooseJoin(r.node, Tail(r.node, l, n + 1), s.kvs[i], r, h - 1);
    FullButMore(s, h, lo, i);
    FullRegroup(s, h, lo, i, Head(l, n), l.kvs[n], j);
    assert StolenLeft(s, i, n).kids[i + 1] == j;
  }

  lemma FullButMore(s: Tree, h: nat, lo: nat, i: nat)
    requires h > 0 && FullButPair(s, h, lo + 1, i)
    ensures FullButPair(s, h, lo, i)
  {
  }

  lemma RightKept(t: Tree, h: nat, p: Path, i: nat)
    requires RightFixed(t, h, p) && |p| < h && i + 1 == |SubAt(t, p).kvs|
    requires i + 1 < |SubAt(t, p).kids| && MIN_LEN < |SubAt(t, p).kids[i + 1].kvs|
    ensures RightFixed(t, h, p + [i + 1])
  {
    var s := SubAt(t, p);
    assert s.kids[i + 2..] == [];
    RightFurther(t, h, p, s, i + 1);
    SetSame(t, p);
  }

  /** Stocks up the right child of the last pair, with a pair to spare, and returns where it ended up. */
  method FixRightChild(parent: Node, i: nat, pool: Pool, ghost t: Tree, ghost h: nat, ghost p: Path)
    returns (child: Node, ghost t': Tree, ghost p': Path)
    requires pool.Valid() && Holds(pool.Mem(), t) && At(t, p, parent) && RightFixed(t, h, p) && |p| < h
    requires i + 1 == |SubAt(t, p).kvs|
    modifies pool, pool.nodes, pool.kvBuffers, pool.edgeBuffers
    ensures pool.Valid() && pool.Repr() <= old(pool.Repr()) && Becomes(old(pool.Mem()), pool.Mem(), t, t')
    ensures At(t', p', child) && RightFixed(t', h, p') && |p'| == |p| + 1 && SamePairs(t, t', false)
  {
    hide Holds, Becomes, SubAt, ValidPath, RightFixed, SamePairs, Pool.Mem, Pool.Valid;
    ghost var m := pool.Mem();
    LastIndex(t, h, p);
    var can := CanMerge(parent, i, pool, t, p);
    if can {
      RightMerged(t, h, p, i);
      child, t' := Merge(parent, i, pool, t, p);
      p' := p + [i];
      FixedChild(t, p, Merged(SubAt(t, p), i), i);
    } else {
      child, t' := StockRightChild(parent, i, pool, t, h, p);
      p' := p + [i + 1];
    }
  }

  lemma FixedChild(t: Tree, p: Path, w: Tree, i: nat)
    requires ValidPath(t, p) && |w.kids| == |w.kvs| + 1 && i < |w.kids|
    ensures At(SetAt(t, p, w), p + [i], w.kids[i].node)
  {
    SetAtPlace(t, p, w);
    Step(SetAt(t, p, w), p, i);
  }

  method StockRightChild(parent: Node, i: nat, pool: Pool, ghost t: Tree, ghost h: nat, ghost p: Path)
    returns (child: Node, ghost t': Tree)
    requires pool.Valid() && Holds(pool.Mem(), t) && At(t, p, parent) && RightFixed(t, h, p) && |p| < h
    requires i + 1 == |SubAt(t, p).kvs| && i + 1 < |SubAt(t, p).kids|
    requires var s := SubAt(t, p); |s.kids[i].kvs| + 1 + |s.kids[i + 1].kvs| > CAPACITY
    modifies pool.nodes, pool.kvBuffers, pool.edgeBuffers
    ensures pool.Valid() && Becomes(old(pool.Mem()), pool.Mem(), t, t')
    ensures At(t', p + [i + 1], child) && RightFixed(t', h, p + [i + 1]) && SamePairs(t, t', false)
  {
    hide Holds, Becomes, SubAt, ValidPath, RightFixed, Pool.Mem, Pool.Valid;
    ghost var m := pool.Mem();
    LastIndex(t, h, p);
    child := Descend(parent, i + 1, pool, t, p);
    var rightLen := ChildLen(parent, i + 1, pool, t, p);
    var count := if rightLen >= MIN_LEN + 1 then 0 else MIN_LEN + 1 - rightLen;
    if count > 0 {
      ChildrenSized(m, t, p, i);
      ghost var n;
      t', n := StealLeft(parent, i, count, pool, t, p);
      RightStolen(t, h, p, i, n);
      StolenChild(t, p, i, n);
    } else {
      t' := t;
      BecomesNothing(m, t);
      RightKept(t, h, p, i);
    }
  }

  lemma ChildrenSized(m: Mem, t: Tree, p: Path, i: nat)
    requires Holds(m, t) && ValidPath(t, p) && i + 1 < |SubAt(t, p).kids|
    ensures |SubAt(t, p).kids[i].kvs| <= CAPACITY && |SubAt(t, p).kids[i + 1].kvs| <= CAPACITY
  {
    RepSub(m, t, p);
    RepKid(m, SubAt(t, p), i);
    RepKid(m, SubAt(t, p), i + 1);
  }

  lemma StolenChild(t: Tree, p: Path, i: nat, n: nat)
    requires ValidPath(t, p) && Pair(SubAt(t, p), i) && n < |SubAt(t, p).kids[i].kvs|
    ensures At(SetAt(t, p, StolenLeft(SubAt(t, p), i, n)), p + [i + 1], SubAt(t, p).kids[i + 1].node)
  {
    FixedChild(t, p, StolenLeft(SubAt(t, p), i, n), i + 1);
  }

  method FixRightBorderOfRightEdge(start: Handle, pool: Pool, ghost t: Tree, ghost h: nat) returns (ghost t': Tree)
    requires pool.Valid() && Holds(pool.Mem(), t) && start.node == t.node && RightFixed(t, h, [])
    requires start.idx + 1 == |t.kvs|
    modifies pool, pool.nodes, pool.kvBuffers, pool.edgeBuffers
    ensures pool.Valid() && pool.Repr() <= old(pool.Repr()) && Becomes(old(pool.Mem()), pool.Mem(), t, t')
    ensures Full(t', h, 0) && SamePairs(t, t', false)
  {
    hide Holds, Becomes, RightFixed, SubAt, ValidPath, Pool.Mem, Pool.Valid;
    var kv := start;
    ghost var p: Path := [];
    t' := t;
    AtRoot(t);
    BecomesNothing(pool.Mem(), t);
    while true
      invariant pool.Valid() && pool.Repr() <= old(pool.Repr()) && Becomes(old(pool.Mem()), pool.Mem(), t, t')
      invariant At(t', p, kv.node) && RightFixed(t', h, p) && kv.idx + 1 == |SubAt(t', p).kvs|
      invariant SamePairs(t, t', false)
      decreases h - |p|
    {
      var more;
      more, kv, t', p := FixRightStep(kv, pool, old(pool.Mem()), t, t', h, p);
      if !more { return; }
    }
  }

  method FixRightStep(kv: Handle, pool: Pool, ghost m0: Mem, ghost t0: Tree, ghost t: Tree, ghost h: nat, ghost p: Path)
    returns (more: bool, next: Handle, ghost t': Tree, ghost p': Path)
    requires pool.Valid() && Becomes(m0, pool.Mem(), t0, t) && At(t, p, kv.node) && RightFixed(t, h, p)
    requires kv.idx + 1 == |SubAt(t, p).kvs| && SamePairs(t0, t, false)
    modifies pool, pool.nodes, pool.kvBuffers, pool.edgeBuffers
    ensures pool.Valid() && pool.Repr() <= old(pool.Repr()) && Becomes(m0, pool.Mem(), t0, t')
    ensures SamePairs(t0, t', false)
    ensures !more ==> Full(t', h, 0)
    ensures more ==>
      At(t', p', next.node) && RightFixed(t', h, p') && next.idx + 1 == |SubAt(t', p').kvs| && |p| < |p'| <= h
  {
    hide Holds, Becomes, RightFixed, SubAt, ValidPath, Full, SamePairs, Pool.Mem, Pool.Valid;
    ghost var m := pool.Mem();
    BecomesHolds(m0, m, t0, t);
    var leaf := IsLeaf(kv.node, pool, t, p);
    if leaf {
      more, next, t', p' := false, kv, t, p;
      RightDone(t, h, p);
    } else {
      RightInternal(t, h, p);
      var child;
      child, t', p' := FixRightChild(kv.node, kv.idx, pool, t, h, p);
      BecomesTrans(m0, m, pool.Mem(), t0, t, t');
      SamePairsTrans(t0, t, t');
      RightSpare(t', h, p');
      next := LastKv(child, pool, m0, t0, t', p');
      more := true;
    }
  }

  method LastKv(node: Node, pool: Pool, ghost m0: Mem, ghost t0: Tree, ghost t: Tree, ghost p: Path)
    returns (kv: Handle)
    requires pool.Valid() && Becomes(m0, pool.Mem(), t0, t) && At(t, p, node) && SubAt(t, p).kvs != []
    ensures kv.node == node && kv.idx + 1 == |SubAt(t, p).kvs|
  {
    hide Holds, Becomes, SubAt, ValidPath, Pool.Mem, Pool.Valid;
    BecomesHolds(m0, pool.Mem(), t0, t);
    var len := Len(node, pool, t, p);
    kv := Handle(node, len - 1);
  }

  lemma SamePairsTrans(t: Tree, t': Tree, t'': Tree)
    requires SamePairs(t, t', false) && SamePairs(t', t'', false)
    ensures SamePairs(t, t'', false)
  {
  }

  lemma RightInternal(t: Tree, h: nat, p: Path)
    requires RightFixed(t, h, p) && SubAt(t, p).kids != []
    ensures |p| < h
  {
    RightLooseArity(SubAt(t, p), h - |p|);
  }

  lemma RightSpare(t: Tree, h: nat, p: Path)
    requires RightFixed(t, h, p)
    ensures SubAt(t, p).kvs != [] && |p| <= h
  {
  }

  /** Stocks up or merges away any underfull nodes on the right border of the tree. */
  method FixRightBorder(root: Root, pool: Pool, ghost t: Tree) returns (ghost t': Tree)
    requires pool.Valid() && Holds(pool.Mem(), t) && t.node == root.node && RightLoose(t, root.height)
    modifies root, pool, pool.nodes, pool.kvBuffers, pool.edgeBuffers
    ensures pool.Valid() && pool.Repr() <= old(pool.Repr()) && Becomes(old(pool.Mem()), pool.Mem(), t, t')
    ensures Balanced(t', root.height) && Flat(t') == Flat(t) && t'.node == root.node && root.height <= old(root.height)
  {
    hide Holds, Becomes, RightLoose, Full, Balanced, Topped, ToppedHeight, Pool.Mem, Pool.Valid;
    ghost var m := pool.Mem();
    RightLooseTop(t, root.height);
    ToppedSame(t, root.height);
    t' := FixTop(root, pool, t);
    var len := RootLen(root, pool, m, t, t');
    if len > 0 {
      t' := FixRightNonempty(root, len, pool, m, t, t');
    } else {
      EmptyBalanced(t', root.height);
    }
  }

  method RootLen(root: Root, pool: Pool, ghost m0: Mem, ghost t0: Tree, ghost t: Tree) returns (len: nat)
    requires pool.Valid() && Becomes(m0, pool.Mem(), t0, t) && t.node == root.node
    ensures len == |t.kvs|
  {
    hide Holds, Becomes, Pool.Mem, Pool.Valid;
    BecomesHolds(m0, pool.Mem(), t0, t);
    AtRoot(t);
    len := Len(root.node, pool, t, []);
  }

  method FixRightNonempty(root: Root, len: nat, pool: Pool, ghost m0: Mem, ghost t0: Tree, ghost t: Tree)
    returns (ghost t': Tree)
    requires pool.Valid() && Becomes(m0, pool.Mem(), t0, t) && t.node == root.node && RightLoose(t, root.height)
    requires 0 < len == |t.kvs|
    modifies root, pool, pool.nodes, pool.kvBuffers, pool.edgeBuffers
    ensures pool.Valid() && pool.Repr() <= old(pool.Repr()) && Becomes(m0, pool.Mem(), t0, t')
    ensures Balanced(t', root.height) && Flat(t') == Flat(t) && t'.node == root.node && root.height <= old(root.height)
  {
    hide Holds, Becomes, RightLoose, RightFixed, Full, Balanced, Pool.Mem, Pool.Valid;
    ghost var m := pool.Mem();
    BecomesHolds(m0, m, t0, t);
    RightStart(t, root.height);
    ghost var t1 := FixRightBorderOfRightEdge(Handle(root.node, len - 1), pool, t, root.height);
    BecomesTrans(m0, m, pool.Mem(), t0, t, t1);
    t' := FinishTop(root, pool, m0, t0, t1);
  }

  lemma RightStart(t: Tree, h: nat)
    requires RightLoose(t, h) && t.kvs != []
    ensures RightFixed(t, h, [])
  {
  }

  lemma EmptyBalanced(t: Tree, h: nat)
    requires RightLoose(t, h) || LeftLoose(t, h)
    requires t.kvs == [] && (h == 0 || t.kvs != [])
    ensures Balanced(t, h)
  {
  }

  /** Pops the root if fixing the border has emptied it. */
  method FinishTop(root: Root, pool: Pool, ghost m0: Mem, ghost t0: Tree, ghost t: Tree) returns (ghost t': Tree)
    requires pool.Valid() && Becomes(m0, pool.Mem(), t0, t) && t.node == root.node && Full(t, root.height, 0)
    modifies root, pool, pool.nodes, pool.kvBuffers, pool.edgeBuffers
    ensures pool.Valid() && pool.Repr() <= old(pool.Repr()) && Becomes(m0, pool.Mem(), t0, t')
    ensures Balanced(t', root.height) && Flat(t') == Flat(t) && t'.node == root.node && root.height <= old(root.height)
  {
    hide Holds, Becomes, Full, Balanced, Topped, ToppedHeight, Pool.Mem, Pool.Valid;
    ghost var m := pool.Mem();
    BecomesHolds(m0, m, t0, t);
    FullTop(t, root.height, 0);
    ToppedSame(t, root.height);
    t' := FixTop(root, pool, t);
    BecomesTrans(m0, m, pool.Mem(), t0, t, t');
  }

  lemma {:induction false} FullTop(t: Tree, h: nat, lo: nat)
    requires Full(t, h, lo)
    ensures Chain(t, h) && Balanced(Topped(t, h), ToppedHeight(t, h))
    decreases h
  {
    if h > 0 && t.kvs == [] {
      FullTop(t.kids[0], h - 1, MIN_LEN);
    } else {
      FullFrom(t, h, lo, if h == 0 then 0 else 1);
    }
  }

  // ----- The left border

  lemma LeftMergedNode(s: Tree, h: nat, lo: nat)
    requires h > 0 && LeftLoose(s, h) && lo < |s.kvs| && Pair(s, 0)
    requires |s.kids[0].kvs| + 1 + |s.kids[1].kvs| <= CAPACITY
    ensures var w := Merged(s, 0);
      FullBut(w, h, lo, 0) && LeftLoose(w.kids[0], h - 1) && MIN_LEN + 1 <= |w.kids[0].kvs|
  {
    LeftPair(s, h, lo);
    var l, r := s.kids[0], s.kids[1];
    FullFrom(r, h - 1, MIN_LEN, 0);
    LeftLooseJoin(l.node, l, s.kvs[0], r, h - 1);
    FullContract(s, h, lo + 1, 0, Join(l.node, l, s.kvs[0], r));
    assert Merged(s, 0).kids[0] == Join(l.node, l, s.kvs[0], r);
  }

  lemma LeftMerged(t: Tree, h: nat, p: Path)
    requires LeftFixed(t, h, p) && |p| < h
    requires var s := SubAt(t, p); |s.kids| > 1 && |s.kids[0].kvs| + 1 + |s.kids[1].kvs| <= CAPACITY
    ensures Pair(SubAt(t, p), 0)
    ensures var t' := SetAt(t, p, Merged(SubAt(t, p), 0)); LeftFixed(t', h, p + [0]) && SamePairs(t, t', false)
  {
    hide FullAround, LeftLoose, ValidPath, FullBut, FullButPair, Full;
    var s, hs := SubAt(t, p), h - |p|;
    LeftPair(s, hs, Least(0, p));
    LeftMergedNode(s, hs, Least(0, p));
    LeftFurther(t, h, p, Merged(s, 0), 0);
    FlatMerged(s, 0);
    SetAtSameFlat(t, p, Merged(s, 0));
    SetAtNode(t, p, Merged(s, 0));
  }

  lemma LeftStolenNode(s: Tree, h: nat, lo: nat, n: nat)
    requires h > 0 && LeftLoose(s, h) && lo < |s.kvs| && Pair(s, 0)
    requires n + 1 + MIN_LEN <= |s.kids[1].kvs| && |s.kids[0].kvs| + 1 + n == MIN_LEN + 1
    ensures var w := StolenRight(s, 0, n);
      FullBut(w, h, lo, 0) && LeftLoose(w.kids[0], h - 1) && MIN_LEN + 1 <= |w.kids[0].kvs|
  {
    hide LeftLoose, FullKids, Full, FullBut, FullButPair, Head, Tail;
    LeftPair(s, h, lo);
    var l, r := s.kids[0], s.kids[1];
    CutSibling(r, h - 1, n, r.node);
    var j := Join(l.node, l, s.kvs[0], Head(r, n));
    LeftLooseJoin(l.node, l, s.kvs[0], Head(r, n), h - 1);
    FullButMore(s, h, lo, 0);
    FullRegroup(s, h, lo, 0, j, r.kvs[n], Tail(r.node, r, n + 1));
    assert StolenRight(s, 0, n).kids[0] == j;
  }

  lemma LeftStolen(t: Tree, h: nat, p: Path, n: nat)
    requires LeftFixed(t, h, p) && |p| < h
    requires var s := SubAt(t, p);
      |s.kids| > 1 && |s.kids[0].kvs| + 1 + |s.kids[1].kvs| > CAPACITY && |s.kids[0].kvs| + 1 + n == MIN_LEN + 1
    ensures Pair(SubAt(t, p), 0) && n < |SubAt(t, p).kids[1].kvs|
    ensures var t' := SetAt(t, p, StolenRight(SubAt(t, p), 0, n)); LeftFixed(t', h, p + [0]) && SamePairs(t, t', false)
  {
    hide FullAround, LeftLoose, ValidPath, FullBut, FullButPair, Full, SetAt, Flat;
    var s, hs := SubAt(t, p), h - |p|;
    LeftPair(s, hs, Least(0, p));
    LeftStolenNode(s, hs, Least(0, p), n);
    LeftFurther(t, h, p, StolenRight(s, 0, n), 0);
    FlatStolenRight(s, 0, n);
    SetAtSameFlat(t, p, StolenRight(s, 0, n));
    SetAtNode(t, p, StolenRight(s, 0, n));
  }

  lemma LeftKept(t: Tree, h: nat, p: Path)
    requires LeftFixed(t, h, p) && |p| < h && |SubAt(t, p).kids| > 1 && MIN_LEN < |SubAt(t, p).kids[0].kvs|
    ensures LeftFixed(t, h, p + [0])
  {
    var s := SubAt(t, p);
    assert s.kids[..0] == [];
    LeftFurther(t, h, p, s, 0);
    SetSame(t, p);
  }

  lemma FirstIndex(t: Tree, h: nat, p: Path)
    requires LeftFixed(t, h, p) && |p| < h
    ensures var s := SubAt(t, p); |s.kvs| > 0 && |s.kids| > 1 && Pair(s, 0)
  {
    LeftPair(SubAt(t, p), h - |p|, Least(0, p));
  }

  /** Stocks up the left child of the first pair, with a pair to spare, and returns it. */
  method FixLeftChild(parent: Node, pool: Pool, ghost t: Tree, ghost h: nat, ghost p: Path)
    returns (child: Node, ghost t': Tree)
    requires pool.Valid() && Holds(pool.Mem(), t) && At(t, p, parent) && LeftFixed(t, h, p) && |p| < h
    modifies pool, pool.nodes, pool.kvBuffers, pool.edgeBuffers
    ensures pool.Valid() && pool.Repr() <= old(pool.Repr()) && Becomes(old(pool.Mem()), pool.Mem(), t, t')
    ensures At(t', p + [0], child) && LeftFixed(t', h, p + [0]) && SamePairs(t, t', false)
  {
    hide Holds, Becomes, SubAt, ValidPath, LeftFixed, Pool.Mem, Pool.Valid;
    FirstIndex(t, h, p);
    var can := CanMerge(parent, 0, pool, t, p);
    if can {
      LeftMerged(t, h, p);
      child, t' := Merge(parent, 0, pool, t, p);
      FixedChild(t, p, Merged(SubAt(t, p), 0), 0);
    } else {
      child, t' := StockLeftChild(parent, pool, t, h, p);
    }
  }

  /** What stealing from its right sibling makes of the left child, which is stocked then. */
  lemma LeftStocked(t: Tree, h: nat, p: Path, n: nat, child: Node)
    requires LeftFixed(t, h, p) && |p| < h && ValidPath(t, p)
    requires var s := SubAt(t, p);
      && |s.kids| > 1 && |s.kids[0].kvs| + 1 + |s.kids[1].kvs| > CAPACITY && |s.kids[0].kvs| + 1 + n == MIN_LEN + 1
      && s.kids[0].node == child
    ensures Pair(SubAt(t, p), 0) && n < |SubAt(t, p).kids[1].kvs|
    ensures var t' := SetAt(t, p, StolenRight(SubAt(t, p), 0, n));
      At(t', p + [0], child) && LeftFixed(t', h, p + [0]) && SamePairs(t, t', false)
  {
    hide LeftFixed, SamePairs, ValidPath, SubAt, SetAt;
    LeftStolen(t, h, p, n);
    FixedChild(t, p, StolenRight(SubAt(t, p), 0, n), 0);
  }

  method StockLeftChild(parent: Node, pool: Pool, ghost t: Tree, ghost h: nat, ghost p: Path)
    returns (child: Node, ghost t': Tree)
    requires pool.Valid() && Holds(pool.Mem(), t) && At(t, p, parent) && LeftFixed(t, h, p) && |p| < h
    requires var s := SubAt(t, p); |s.kids| > 1 && |s.kids[0].kvs| + 1 + |s.kids[1].kvs| > CAPACITY
    modifies pool.nodes, pool.kvBuffers, pool.edgeBuffers
    ensures pool.Valid() && Becomes(old(pool.Mem()), pool.Mem(), t, t')
    ensures At(t', p + [0], child) && LeftFixed(t', h, p + [0]) && SamePairs(t, t', false)
  {
    hide Holds, Becomes, SubAt, SetAt, StolenRight, LeftFixed, Pool.Mem, Pool.Valid;
    ghost var m := pool.Mem();
    FirstIndex(t, h, p);
    child := Descend(parent, 0, pool, t, p);
    var leftLen := ChildLen(parent, 0, pool, t, p);
    var count := if leftLen >= MIN_LEN + 1 then 0 else MIN_LEN + 1 - leftLen;
    if count > 0 {
      ghost var n: nat := count - 1;
      LeftStocked(t, h, p, n, child);
      t', n := StealRight(parent, 0, count, pool, t, p);
    } else {
      t' := t;
      BecomesNothing(m, t);
      LeftKept(t, h, p);
    }
  }

  method FixLeftStep(kv: Handle, pool: Pool, ghost m0: Mem, ghost t0: Tree, ghost t: Tree, ghost h: nat, ghost p: Path)
    returns (more: bool, next: Handle, ghost t': Tree, ghost p': Path)
    requires pool.Valid() && Becomes(m0, pool.Mem(), t0, t) && At(t, p, kv.node) && LeftFixed(t, h, p)
    requires kv.idx == 0 && SamePairs(t0, t, false)
    modifies pool, pool.nodes, pool.kvBuffers, pool.edgeBuffers
    ensures pool.Valid() && pool.Repr() <= old(pool.Repr()) && Becomes(m0, pool.Mem(), t0, t')
    ensures SamePairs(t0, t', false)
    ensures !more ==> Full(t', h, 0)
    ensures more ==> At(t', p', next.node) && LeftFixed(t', h, p') && next.idx == 0 && |p| < |p'| <= h
  {
    hide Holds, Becomes, LeftFixed, SubAt, ValidPath, Full, SamePairs, Pool.Mem, Pool.Valid;
    ghost var m := pool.Mem();
    BecomesHolds(m0, m, t0, t);
    var leaf := IsLeaf(kv.node, pool, t, p);
    if leaf {
      more, next, t', p' := false, kv, t, p;
      LeftDone(t, h, p);
    } else {
      LeftInternal(t, h, p);
      var child;
      child, t' := FixLeftChild(kv.node, pool, t, h, p);
      BecomesTrans(m0, m, pool.Mem(), t0, t, t');
      SamePairsTrans(t0, t, t');
      more, next, p' := true, Handle(child, 0), p + [0];
    }
  }

  lemma LeftInternal(t: Tree, h: nat, p: Path)
    requires LeftFixed(t, h, p) && SubAt(t, p).kids != []
    ensures |p| < h
  {
    LeftLooseArity(SubAt(t, p), h - |p|);
  }

  method FixLeftBorderOfLeftEdge(start: Handle, pool: Pool, ghost t: Tree, ghost h: nat) returns (ghost t': Tree)
    requires pool.Valid() && Holds(pool.Mem(), t) && start.node == t.node && LeftFixed(t, h, []) && start.idx == 0
    modifies pool, pool.nodes, pool.kvBuffers, pool.edgeBuffers
    ensures pool.Valid() && pool.Repr() <= old(pool.Repr()) && Becomes(old(pool.Mem()), pool.Mem(), t, t')
    ensures Full(t', h, 0) && SamePairs(t, t', false)
  {
    hide Holds, Becomes, LeftFixed, SubAt, ValidPath, Pool.Mem, Pool.Valid;
    var kv := start;
    ghost var p: Path := [];
    t' := t;
    AtRoot(t);
    BecomesNothing(pool.Mem(), t);
    while true
      invariant pool.Valid() && pool.Repr() <= old(pool.Repr()) && Becomes(old(pool.Mem()), pool.Mem(), t, t')
      invariant At(t', p, kv.node) && LeftFixed(t', h, p) && kv.idx == 0 && SamePairs(t, t', false)
      decreases h - |p|
    {
      var more;
      more, kv, t', p := FixLeftStep(kv, pool, old(pool.Mem()), t, t', h, p);
      if !more { return; }
    }
  }

  /** Stocks up or merges away any underfull nodes on the left border of the tree. */
  method FixLeftBorder(root: Root, pool: Pool, ghost t: Tree) returns (ghost t': Tree)
    requires pool.Valid() && Holds(pool.Mem(), t) && t.node == root.node && LeftLoose(t, root.height)
    modifies root, pool, pool.nodes, pool.kvBuffers, pool.edgeBuffers
    ensures pool.Valid() && pool.Repr() <= old(pool.Repr()) && Becomes(old(pool.Mem()), pool.Mem(), t, t')
    ensures Balanced(t', root.height) && Flat(t') == Flat(t) && t'.node == root.node && root.height <= old(root.height)
  {
    hide Holds, Becomes, LeftLoose, Full, Balanced, Topped, ToppedHeight, Pool.Mem, Pool.Valid;
    ghost var m := pool.Mem();
    LeftLooseTop(t, root.height);
    ToppedSame(t, root.height);
    t' := FixTop(root, pool, t);
    var len := RootLen(root, pool, m, t, t');
    if len > 0 {
      t' := FixLeftNonempty(root, pool, m, t, t');
    } else {
      EmptyBalanced(t', root.height);
    }
  }

  method FixLeftNonempty(root: Root, pool: Pool, ghost m0: Mem, ghost t0: Tree, ghost t: Tree) returns (ghost t': Tree)
    requires pool.Valid() && Becomes(m0, pool.Mem(), t0, t) && t.node == root.node && LeftLoose(t, root.height)
    requires t.kvs != []
    modifies root, pool, pool.nodes, pool.kvBuffers, pool.edgeBuffers
    ensures pool.Valid() && pool.Repr() <= old(pool.Repr()) && Becomes(m0, pool.Mem(), t0, t')
    ensures Balanced(t', root.height) && Flat(t') == Flat(t) && t'.node == root.node && root.height <= old(root.height)
  {
    hide Holds, Becomes, LeftLoose, LeftFixed, Full, Balanced, Pool.Mem, Pool.Valid;
    ghost var m := pool.Mem();
    BecomesHolds(m0, m, t0, t);
    LeftStart(t, root.height);
    ghost var t1 := FixLeftBorderOfLeftEdge(Handle(root.node, 0), pool, t, root.height);
    BecomesTrans(m0, m, pool.Mem(), t0, t, t1);
    t' := FinishTop(root, pool, m0, t0, t1);
  }

  lemma LeftStart(t: Tree, h: nat)
    requires LeftLoose(t, h) && t.kvs != []
    ensures LeftFixed(t, h, [])
  {
  }
}
