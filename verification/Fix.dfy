/** Restoring the fullness of nodes, bottom-up from a single node. */
module Fix {
  import opened Nodes
  import opened Trees
  import opened Memory
  import opened Edits
  import opened Shapes
  import opened Rows
  import opened Places

  datatype Choice = LeftKv(parent: Node, i: nat) | RightKv(parent: Node, i: nat) | NoParent

  /** Chooses the pair of the parent through which a node is balanced: the one on its left if there is one. */
  method ChooseParentKv(node: Node, pool: Pool, ghost t: Tree, ghost p: Path) returns (choice: Choice)
    requires pool.Valid() && Holds(pool.Mem(), t) && At(t, p, node)
    requires p != [] ==> var q := p[..|p| - 1]; ValidPath(t, q) && SubAt(t, q).kvs != []
    ensures choice.NoParent? <==> p == []
    ensures choice.LeftKv? ==> Above(t, p, choice.parent, choice.i + 1)
    ensures choice.RightKv? ==> choice.i == 0 && Above(t, p, choice.parent, 0)
  {
    var parent, i := Ascend(node, pool, t, p);
    if parent == null {
      choice := NoParent;
    } else if i > 0 {
      choice := LeftKv(parent, i - 1);
    } else {
      choice := RightKv(parent, 0);
    }
  }

  /** Whether the two children around pair `i` fit into one node together with that pair. */
  method CanMerge(parent: Node, i: nat, pool: Pool, ghost t: Tree, ghost p: Path) returns (can: bool)
    requires pool.Valid() && Holds(pool.Mem(), t) && At(t, p, parent) && i + 1 < |SubAt(t, p).kids|
    ensures can <==> |SubAt(t, p).kids[i].kvs| + 1 + |SubAt(t, p).kids[i + 1].kvs| <= CAPACITY
  {
    hide Holds, ValidPath, SubAt, Pool.Mem, Pool.Valid;
    var leftLen := ChildLen(parent, i, pool, t, p);
    var rightLen := ChildLen(parent, i + 1, pool, t, p);
    can := leftLen + 1 + rightLen <= CAPACITY;
  }

  // ----- One node

  datatype Outcome = Done | Shrunk(parent: Node) | EmptyRoot

  /** The pair `i` of the node at `q` lies beside its child `j`, the only one that may be underfull. */
  ghost predicate Beside(t: Tree, h: nat, q: Path, i: nat, j: nat) {
    && ValidPath(t, q) && |q| < h && FullAround(t, h, 1, q)
    && var s := SubAt(t, q);
    && FullBut(s, h - |q|, Least(1, q), j) && Full(s.kids[j], h - |q| - 1, 0)
    && (j == i || j == i + 1) && i < |s.kvs|
  }

  lemma BesidePair(t: Tree, h: nat, q: Path, i: nat, j: nat)
    requires Beside(t, h, q, i, j)
    ensures var s := SubAt(t, q);
      && Pair(s, i) && FullButPair(s, h - |q|, Least(1, q), i)
      && Full(s.kids[i], h - |q| - 1, 0) && Full(s.kids[i + 1], h - |q| - 1, 0)
      && MIN_LEN <= |s.kids[if j == i then i + 1 else i].kvs|
  {
    FullPair(SubAt(t, q), h - |q|, Least(1, q), j, i);
  }

  /** The tree still has its root and holds the same pairs in the same order, in the same leaves unless leaves were
      regrouped. */
  ghost predicate SamePairs(t: Tree, t': Tree, leaves: bool) {
    t'.node == t.node && Flat(t') == Flat(t) && (leaves ==> Row(t') == Row(t))
  }

  lemma SetAtNode(t: Tree, p: Path, s: Tree)
    requires ValidPath(t, p) && s.node == SubAt(t, p).node
    ensures SetAt(t, p, s).node == t.node
  {
  }

  /** What merging at `q` leaves: the node at `q` may have become underfull, nothing else. */
  lemma AfterMerge(t: Tree, h: nat, q: Path, i: nat, j: nat)
    requires Beside(t, h, q, i, j)
    requires var s := SubAt(t, q); |s.kids[i].kvs| + 1 + |s.kids[i + 1].kvs| <= CAPACITY
    ensures Pair(SubAt(t, q), i)
    ensures var t' := SetAt(t, q, Merged(SubAt(t, q), i));
      && ValidPath(t', q) && SubAt(t', q) == Merged(SubAt(t, q), i)
      && FullAround(t', h, 1, q) && Full(SubAt(t', q), h - |q|, 0)
      && SamePairs(t, t', |q| + 1 < h)
  {
    var s := SubAt(t, q);
    BesidePair(t, h, q, i, j);
    FullMerged(s, h - |q|, Least(1, q), i);
    FullSet(t, h, 1, q, Merged(s, i));
    SetAtPlace(t, q, Merged(s, i));
    FlatMerged(s, i);
    SetAtSameFlat(t, q, Merged(s, i));
    SetAtNode(t, q, Merged(s, i));
    if |q| + 1 < h {
      RowMerged(s, i);
      RowSet(t, q, Merged(s, i));
    }
  }

  lemma AfterStealLeft(t: Tree, h: nat, q: Path, i: nat, n: nat)
    requires Beside(t, h, q, i, i + 1)
    requires var s := SubAt(t, q);
      |s.kids[i].kvs| + 1 + |s.kids[i + 1].kvs| > CAPACITY && |s.kids[i].kvs| - n + |s.kids[i + 1].kvs| == MIN_LEN
      && n < |s.kids[i].kvs|
    ensures Pair(SubAt(t, q), i)
    ensures var t' := SetAt(t, q, StolenLeft(SubAt(t, q), i, n));
      Full(t', h, 1) && SamePairs(t, t', |q| + 1 < h)
  {
    var s := SubAt(t, q);
    BesidePair(t, h, q, i, i + 1);
    FullStolenLeft(s, h - |q|, Least(1, q), i, n);
    FullSet(t, h, 1, q, StolenLeft(s, i, n));
    FlatStolenLeft(s, i, n);
    SetAtSameFlat(t, q, StolenLeft(s, i, n));
    SetAtNode(t, q, StolenLeft(s, i, n));
    if |q| + 1 < h {
      RowStolenLeft(s, i, n);
      RowSet(t, q, StolenLeft(s, i, n));
    }
  }

  lemma AfterStealRight(t: Tree, h: nat, q: Path, i: nat, n: nat)
    requires Beside(t, h, q, i, i)
    requires var s := SubAt(t, q);
      |s.kids[i].kvs| + 1 + |s.kids[i + 1].kvs| > CAPACITY && |s.kids[i].kvs| + 1 + n == MIN_LEN
    ensures Pair(SubAt(t, q), i) && n < |SubAt(t, q).kids[i + 1].kvs|
    ensures var t' := SetAt(t, q, StolenRight(SubAt(t, q), i, n));
      Full(t', h, 1) && SamePairs(t, t', |q| + 1 < h)
  {
    var s := SubAt(t, q);
    BesidePair(t, h, q, i, i);
    FullStolenRight(s, h - |q|, Least(1, q), i, n);
    FullSet(t, h, 1, q, StolenRight(s, i, n));
    FlatStolenRight(s, i, n);
    SetAtSameFlat(t, q, StolenRight(s, i, n));
    SetAtNode(t, q, StolenRight(s, i, n));
    if |q| + 1 < h {
      RowStolenRight(s, i, n);
      RowSet(t, q, StolenRight(s, i, n));
    }
  }

  /** What fixing the node at `p` through its parent achieved. */
  ghost predicate Fixed(t: Tree, h: nat, p: Path, outcome: Outcome) {
    match outcome
    case Done => Full(t, h, 1)
    case Shrunk(parent) => p != [] && var q := p[..|p| - 1];
      |q| <= h && At(t, q, parent) && FullAround(t, h, 1, q) && Full(SubAt(t, q), h - |q|, 0)
    case EmptyRoot => p == [] && t.kvs == [] && Full(t, h, 0)
  }

  lemma BesideOf(t: Tree, h: nat, p: Path, parent: Node, j: nat, i: nat)
    requires Above(t, p, parent, j) && |p| <= h && FullAround(t, h, 1, p) && Full(SubAt(t, p), h - |p|, 0)
    requires j == i + 1 || (j == 0 && i == 0)
    ensures Beside(t, h, p[..|p| - 1], i, j)
  {
    FullStep(t, h, 1, p[..|p| - 1], j);
  }

  lemma MergedFixes(t: Tree, h: nat, p: Path, i: nat, j: nat, parent: Node)
    requires p != [] && Beside(t, h, p[..|p| - 1], i, j) && SubAt(t, p[..|p| - 1]).node == parent
    requires var s := SubAt(t, p[..|p| - 1]); |s.kids[i].kvs| + 1 + |s.kids[i + 1].kvs| <= CAPACITY
    ensures var q := p[..|p| - 1];
      && Pair(SubAt(t, q), i) && ValidPath(t, q)
      && var t' := SetAt(t, q, Merged(SubAt(t, q), i));
      SamePairs(t, t', |p| < h) && Fixed(t', h, p, Shrunk(parent))
  {
    hide Full, FullAround, Row, Flat;
    AfterMerge(t, h, p[..|p| - 1], i, j);
  }

  /** Merges an underfull child with its sibling. */
  method MergeBeside(parent: Node, i: nat, pool: Pool, ghost t: Tree, ghost h: nat, ghost p: Path, ghost j: nat)
    returns (ghost t': Tree)
    requires pool.Valid() && Holds(pool.Mem(), t) && p != [] && At(t, p[..|p| - 1], parent)
    requires Beside(t, h, p[..|p| - 1], i, j)
    requires var s := SubAt(t, p[..|p| - 1]); |s.kids[i].kvs| + 1 + |s.kids[i + 1].kvs| <= CAPACITY
    modifies pool, pool.nodes, pool.kvBuffers, pool.edgeBuffers
    ensures pool.Valid() && pool.Repr() <= old(pool.Repr()) && Becomes(old(pool.Mem()), pool.Mem(), t, t')
    ensures SamePairs(t, t', |p| < h) && Fixed(t', h, p, Shrunk(parent))
  {
    hide Holds, Becomes, Fixed, SamePairs, SubAt, ValidPath, Pair, Pool.Mem, Pool.Valid;
    MergedFixes(t, h, p, i, j, parent);
    var left;
    left, t' := Merge(parent, i, pool, t, p[..|p| - 1]);
  }

  /** Stocks an underfull child up with pairs of its left sibling, or of its right one. */
  method StealFromLeft(parent: Node, i: nat, len: nat, pool: Pool, ghost t: Tree, ghost h: nat, ghost q: Path)
    returns (ghost t': Tree)
    requires pool.Valid() && Holds(pool.Mem(), t) && At(t, q, parent) && Beside(t, h, q, i, i + 1)
    requires var s := SubAt(t, q);
      |s.kids[i].kvs| + 1 + |s.kids[i + 1].kvs| > CAPACITY && len == |s.kids[i + 1].kvs| < MIN_LEN
    modifies pool.nodes, pool.kvBuffers, pool.edgeBuffers
    ensures pool.Valid() && Becomes(old(pool.Mem()), pool.Mem(), t, t')
    ensures SamePairs(t, t', |q| + 1 < h) && Full(t', h, 1)
  {
    hide Holds, Becomes, Full, SamePairs, SubAt, ValidPath, Beside, Pool.Mem, Pool.Valid;
    BesidePair(t, h, q, i, i + 1);
    ghost var n;
    t', n := StealLeft(parent, i, MIN_LEN - len, pool, t, q);
    AfterStealLeft(t, h, q, i, n);
  }

  method StealFromRight(parent: Node, i: nat, len: nat, pool: Pool, ghost t: Tree, ghost h: nat, ghost q: Path)
    returns (ghost t': Tree)
    requires pool.Valid() && Holds(pool.Mem(), t) && At(t, q, parent) && Beside(t, h, q, i, i)
    requires var s := SubAt(t, q);
      |s.kids[i].kvs| + 1 + |s.kids[i + 1].kvs| > CAPACITY && len == |s.kids[i].kvs| < MIN_LEN
    modifies pool.nodes, pool.kvBuffers, pool.edgeBuffers
    ensures pool.Valid() && Becomes(old(pool.Mem()), pool.Mem(), t, t')
    ensures SamePairs(t, t', |q| + 1 < h) && Full(t', h, 1)
  {
    hide Holds, Becomes, Full, SamePairs, SubAt, ValidPath, Beside, Pool.Mem, Pool.Valid;
    BesidePair(t, h, q, i, i);
    ghost var n: nat := MIN_LEN - 1 - len;
    AfterStealRight(t, h, q, i, n);
    t', n := StealRight(parent, i, MIN_LEN - len, pool, t, q);
  }

  method FixThroughLeft(parent: Node, i: nat, len: nat, pool: Pool, ghost t: Tree, ghost h: nat, ghost p: Path)
    returns (outcome: Outcome, ghost t': Tree)
    requires pool.Valid() && Holds(pool.Mem(), t) && Above(t, p, parent, i + 1)
    requires |p| <= h && FullAround(t, h, 1, p) && Full(SubAt(t, p), h - |p|, 0) && len == |SubAt(t, p).kvs| < MIN_LEN
    modifies pool, pool.nodes, pool.kvBuffers, pool.edgeBuffers
    ensures pool.Valid() && pool.Repr() <= old(pool.Repr()) && Becomes(old(pool.Mem()), pool.Mem(), t, t')
    ensures SamePairs(t, t', |p| < h) && Fixed(t', h, p, outcome)
  {
    hide Holds, Becomes, Full, FullAround, Beside, SubAt, ValidPath, Row, SamePairs, Pool.Mem, Pool.Valid;
    ghost var q := p[..|p| - 1];
    BesideOf(t, h, p, parent, i + 1, i);
    BesidePair(t, h, q, i, i + 1);
    var can := CanMerge(parent, i, pool, t, q);
    if can {
      t' := MergeBeside(parent, i, pool, t, h, p, i + 1);
      outcome := Shrunk(parent);
    } else {
      t' := StealFromLeft(parent, i, len, pool, t, h, q);
      outcome := Done;
    }
  }

  method FixThroughRight(parent: Node, len: nat, pool: Pool, ghost t: Tree, ghost h: nat, ghost p: Path)
    returns (outcome: Outcome, ghost t': Tree)
    requires pool.Valid() && Holds(pool.Mem(), t) && Above(t, p, parent, 0)
    requires |p| <= h && FullAround(t, h, 1, p) && Full(SubAt(t, p), h - |p|, 0) && len == |SubAt(t, p).kvs| < MIN_LEN
    modifies pool, pool.nodes, pool.kvBuffers, pool.edgeBuffers
    ensures pool.Valid() && pool.Repr() <= old(pool.Repr()) && Becomes(old(pool.Mem()), pool.Mem(), t, t')
    ensures SamePairs(t, t', |p| < h) && Fixed(t', h, p, outcome)
  {
    hide Holds, Becomes, Full, FullAround, Beside, SubAt, ValidPath, Row, SamePairs, Pool.Mem, Pool.Valid;
    ghost var q := p[..|p| - 1];
    BesideOf(t, h, p, parent, 0, 0);
    BesidePair(t, h, q, 0, 0);
    var can := CanMerge(parent, 0, pool, t, q);
    if can {
      t' := MergeBeside(parent, 0, pool, t, h, p, 0);
      outcome := Shrunk(parent);
    } else {
      t' := StealFromRight(parent, 0, len, pool, t, h, q);
      outcome := Done;
    }
  }

  method FixUnderfull(node: Node, len: nat, pool: Pool, ghost t: Tree, ghost h: nat, ghost p: Path)
    returns (outcome: Outcome, ghost t': Tree)
    requires pool.Valid() && Holds(pool.Mem(), t) && At(t, p, node)
    requires |p| <= h && FullAround(t, h, 1, p) && Full(SubAt(t, p), h - |p|, 0) && len == |SubAt(t, p).kvs| < MIN_LEN
    modifies pool, pool.nodes, pool.kvBuffers, pool.edgeBuffers
    ensures pool.Valid() && pool.Repr() <= old(pool.Repr()) && Becomes(old(pool.Mem()), pool.Mem(), t, t')
    ensures SamePairs(t, t', |p| < h) && Fixed(t', h, p, outcome)
  {
    hide Holds, Becomes, FullAround, Full, Fixed, Beside, Row, SubAt, ValidPath, Above, Pool.Mem, Pool.Valid;
    ParentStocked(t, h, p);
    var choice := ChooseParentKv(node, pool, t, p);
    match choice {
      case LeftKv(parent, i) =>
        outcome, t' := FixThroughLeft(parent, i, len, pool, t, h, p);
      case RightKv(parent, i) =>
        outcome, t' := FixThroughRight(parent, len, pool, t, h, p);
      case NoParent =>
        t' := t;
        BecomesNothing(pool.Mem(), t);
        outcome := if len > 0 then Done else EmptyRoot;
        FixedRoot(t, h, p, len);
    }
  }

  /** Stocks up a possibly underfull node by merging with or stealing from a sibling. */
  method FixNodeThroughParent(node: Node, pool: Pool, ghost t: Tree, ghost h: nat, ghost p: Path)
    returns (outcome: Outcome, ghost t': Tree)
    requires pool.Valid() && Holds(pool.Mem(), t) && At(t, p, node)
    requires |p| <= h && FullAround(t, h, 1, p) && Full(SubAt(t, p), h - |p|, 0)
    modifies pool, pool.nodes, pool.kvBuffers, pool.edgeBuffers
    ensures pool.Valid() && pool.Repr() <= old(pool.Repr()) && Becomes(old(pool.Mem()), pool.Mem(), t, t')
    ensures SamePairs(t, t', |p| < h) && Fixed(t', h, p, outcome)
  {
    hide Holds, Becomes, FullAround, Full, Beside, Row, SubAt, ValidPath, Pool.Mem, Pool.Valid;
    var len := Len(node, pool, t, p);
    if len >= MIN_LEN {
      outcome, t' := Done, t;
      FixedAlready(t, h, p);
      BecomesNothing(pool.Mem(), t);
    } else {
      outcome, t' := FixUnderfull(node, len, pool, t, h, p);
    }
  }

  lemma FixedRoot(t: Tree, h: nat, p: Path, len: nat)
    requires p == [] && Full(SubAt(t, p), h - |p|, 0) && len == |SubAt(t, p).kvs|
    ensures Fixed(t, h, p, if len > 0 then Done else EmptyRoot)
  {
    if len > 0 { FullFrom(t, h, 0, 1); }
  }

  lemma FixedAlready(t: Tree, h: nat, p: Path)
    requires |p| <= h && FullAround(t, h, 1, p) && ValidPath(t, p)
    requires Full(SubAt(t, p), h - |p|, 0) && MIN_LEN <= |SubAt(t, p).kvs|
    ensures Full(t, h, 1)
  {
    FullSet(t, h, 1, p, SubAt(t, p));
    FullFrom(SubAt(t, p), h - |p|, 0, Least(1, p));
    SetSame(t, p);
  }

  lemma {:induction false} SetSame(t: Tree, p: Path)
    requires ValidPath(t, p)
    ensures SetAt(t, p, SubAt(t, p)) == t
    decreases |p|
  {
    if p != [] {
      SetSame(t.kids[p[0]], p[1..]);
      assert t.kids[p[0] := t.kids[p[0]]] == t.kids;
    }
  }

  lemma ParentStocked(t: Tree, h: nat, p: Path)
    requires |p| <= h && FullAround(t, h, 1, p) && ValidPath(t, p)
    ensures p != [] ==> var q := p[..|p| - 1]; ValidPath(t, q) && SubAt(t, q).kvs != []
  {
    if p != [] {
      StepUp(t, p);
      FullStep(t, h, 1, p[..|p| - 1], p[|p| - 1]);
    }
  }

  // ----- A node and its ancestors

  /** Stocks up a possibly underfull node, and if that shrinks its parent, the parent in turn.
      Returns false exactly if it could not because the root has no pairs left. */
  method FixNodeAndAffectedAncestors(start: Node, pool: Pool, ghost t: Tree, ghost h: nat, ghost p: Path)
    returns (fixed: bool, ghost t': Tree)
    requires pool.Valid() && Holds(pool.Mem(), t) && At(t, p, start)
    requires |p| <= h && FullAround(t, h, 1, p) && Full(SubAt(t, p), h - |p|, 0)
    modifies pool, pool.nodes, pool.kvBuffers, pool.edgeBuffers
    ensures pool.Valid() && pool.Repr() <= old(pool.Repr()) && Becomes(old(pool.Mem()), pool.Mem(), t, t')
    ensures SamePairs(t, t', |p| < h)
    ensures Full(t', h, 0) && (fixed <==> t'.kvs != [])
  {
    hide Holds, Becomes, FullAround, Row, Pool.Mem, Pool.Valid;
    var node := start;
    ghost var q := p;
    t' := t;
    BecomesNothing(pool.Mem(), t);
    while true
      invariant pool.Valid() && pool.Repr() <= old(pool.Repr()) && Becomes(old(pool.Mem()), pool.Mem(), t, t')
      invariant |q| <= |p| && At(t', q, node) && FullAround(t', h, 1, q) && Full(SubAt(t', q), h - |q|, 0)
      invariant SamePairs(t, t', |p| < h)
      decreases |q|
    {
      ghost var m, t1 := pool.Mem(), t';
      assert Holds(m, t1) by { BecomesHolds(old(pool.Mem()), m, t, t1); }
      var outcome;
      outcome, t' := FixNodeThroughParent(node, pool, t1, h, q);
      BecomesTrans(old(pool.Mem()), m, pool.Mem(), t, t1, t');
      match outcome {
        case Shrunk(parent) =>
          node, q := parent, q[..|q| - 1];
        case Done =>
          return true, t';
        case EmptyRoot =>
          return false, t';
      }
    }
  }

  lemma BecomesHolds(m: Mem, m': Mem, t: Tree, t': Tree)
    requires Becomes(m, m', t, t')
    ensures Holds(m', t')
  {
  }

  lemma {:induction false} FullRegular(t: Tree, h: nat, lo: nat)
    requires Full(t, h, lo)
    ensures Regular(t)
    decreases h
  {
    if h > 0 {
      forall i | 0 <= i < |t.kids| ensures Regular(t.kids[i]) { FullRegular(t.kids[i], h - 1, MIN_LEN); }
    }
  }
}
