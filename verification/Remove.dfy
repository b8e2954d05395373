/** Removing a pair. The leaf edge the pair leaves behind is tracked while nodes are merged and pairs are stolen. */
module Remove {
  import opened Nodes
  import opened Trees
  import opened Memory
  import opened Edits
  import opened Shapes
  import opened Rows
  import opened Places
  import opened Navigate
  import opened Fix
  import opened Roots

  // ----- Pairs of one node and the contents of the tree

  lemma FlatTakeLeaf(t: Tree, p: Path, i: nat)
    requires ValidPath(t, p) && SubAt(t, p).kids == [] && i < |SubAt(t, p).kvs|
    ensures var g := |Before(t, p)| + i;
      && g < |Flat(t)| && Flat(t)[g] == SubAt(t, p).kvs[i]
      && Flat(SetKvs(t, p, Take(SubAt(t, p).kvs, i))) == Take(Flat(t), g)
  {
    FlatAt(t, p);
    SetAtFlat(t, p, SubAt(t, p).(kvs := Take(SubAt(t, p).kvs, i)));
  }

  lemma FlatReplace(s: Tree, i: nat, kv: KV)
    requires Arity(s) && i < |s.kvs|
    ensures var g := if s.kids == [] then i else |Left(s.kids, s.kvs, i)| + |Flat(s.kids[i])|;
      g < |Flat(s)| && Flat(s.(kvs := s.kvs[i := kv])) == Flat(s)[g := kv]
  {
    if s.kids != [] {
      var kvs := s.kvs[i := kv];
      WeaveSplit(s.kids, s.kvs, i);
      WeaveSplit(s.kids, kvs, i);
      assert kvs[..i] == s.kvs[..i] && kvs[i + 1..] == s.kvs[i + 1..];
      var k, v := s.kids[..i + 1], s.kvs[..i];
      WeaveLast(k, v);
      LeftPrefix(k, v, s.kids, s.kvs, i);
    }
  }

  /** Replacing a pair keeps it in its place. */
  lemma ReplacedAt(t: Tree, p: Path, kv: Handle, x: KV)
    requires Kv(t, p, kv)
    ensures var t' := SetKvs(t, p, SubAt(t, p).kvs[kv.idx := x]);
      && Kv(t', p, kv) && Index(t', p, kv) == Index(t, p, kv) < |Flat(t)|
      && Flat(t') == Flat(t)[Index(t, p, kv) := x]
  {
    hide SetAt, SubAt, ValidPath, Before, After, Flat;
    var s, i := SubAt(t, p), kv.idx;
    var s' := s.(kvs := s.kvs[i := x]);
    SetAtPlace(t, p, s');
    SetAtFlat(t, p, s');
    FlatAt(t, p);
    FlatReplace(s, i, x);
    if s.kids != [] { LeftPrefix(s.kids, s.kvs, s'.kids, s'.kvs, i); }
  }

  lemma FullReplaced(t: Tree, h: nat, lo: nat, p: Path, kvs: seq<KV>)
    requires Full(t, h, lo) && ValidPath(t, p) && |kvs| == |SubAt(t, p).kvs|
    ensures Full(SetKvs(t, p, kvs), h, lo) && (SetKvs(t, p, kvs).kvs == [] <==> t.kvs == [])
  {
    FullSub(t, h, lo, p);
    FullSet(t, h, lo, p, SubAt(t, p).(kvs := kvs));
  }

  // ----- Tracking a leaf edge

  /** Where the leaf edges of a leaf child are. */
  lemma LeafChildGap(t: Tree, q: Path, j: nat, idx: nat)
    requires ValidPath(t, q)
    requires var s := SubAt(t, q); Arity(s) && j < |s.kids| && s.kids[j].kids == [] && idx <= |s.kids[j].kvs|
    ensures var s := SubAt(t, q);
      var e := Handle(s.kids[j].node, idx);
      LeafEdge(t, q + [j], e) && Gap(t, q + [j], e) == |Before(t, q)| + |Left(s.kids, s.kvs, j)| + idx
  {
    Step(t, q, j);
  }

  lemma LeafChildGapSet(t: Tree, q: Path, s: Tree, j: nat, idx: nat)
    requires ValidPath(t, q) && Arity(s) && j < |s.kids| && s.kids[j].kids == [] && idx <= |s.kids[j].kvs|
    ensures var (t', e) := (SetAt(t, q, s), Handle(s.kids[j].node, idx));
      LeafEdge(t', q + [j], e) && Gap(t', q + [j], e) == |Before(t, q)| + |Left(s.kids, s.kvs, j)| + idx
  {
    SetAtPlace(t, q, s);
    LeafChildGap(SetAt(t, q, s), q, j, idx);
  }

  /** How far into the contents the children around a pair start, before and after that pair moved. */
  lemma MergedStart(s: Tree, i: nat)
    requires Pair(s, i) && s.kids[i].kids == []
    ensures var s' := Merged(s, i);
      && Arity(s') && i < |s'.kids| && s'.kids[i].node == s.kids[i].node && s'.kids[i].kids == []
      && |s'.kids[i].kvs| == |s.kids[i].kvs| + 1 + |s.kids[i + 1].kvs|
      && |Left(s'.kids, s'.kvs, i)| == |Left(s.kids, s.kvs, i)|
    ensures |Left(s.kids, s.kvs, i + 1)| == |Left(s.kids, s.kvs, i)| + |s.kids[i].kvs| + 1
  {
    LeftPrefix(s.kids, s.kvs, Merged(s, i).kids, Merged(s, i).kvs, i);
    LeftNextLen(s.kids, s.kvs, i);
  }

  lemma StolenLeftStart(s: Tree, i: nat, n: nat)
    requires Pair(s, i) && s.kids[i].kids == [] && n < |s.kids[i].kvs|
    ensures var s' := StolenLeft(s, i, n);
      && Arity(s') && i + 1 < |s'.kids| && s'.kids[i + 1].node == s.kids[i + 1].node && s'.kids[i + 1].kids == []
      && |s'.kids[i + 1].kvs| == |s.kids[i].kvs| - n + |s.kids[i + 1].kvs|
      && |Left(s'.kids, s'.kvs, i + 1)| == |Left(s.kids, s.kvs, i)| + n + 1
    ensures |Left(s.kids, s.kvs, i + 1)| == |Left(s.kids, s.kvs, i)| + |s.kids[i].kvs| + 1
  {
    var s' := StolenLeft(s, i, n);
    LeftPrefix(s.kids, s.kvs, s'.kids, s'.kvs, i);
    LeftNextLen(s.kids, s.kvs, i);
    LeftNextLen(s'.kids, s'.kvs, i);
  }

  lemma StolenRightStart(s: Tree, i: nat, n: nat)
    requires Pair(s, i) && s.kids[i].kids == [] && n < |s.kids[i + 1].kvs|
    ensures var s' := StolenRight(s, i, n);
      && Arity(s') && i < |s'.kids| && s'.kids[i].node == s.kids[i].node && s'.kids[i].kids == []
      && |s'.kids[i].kvs| == |s.kids[i].kvs| + 1 + n && |Left(s'.kids, s'.kvs, i)| == |Left(s.kids, s.kvs, i)|
  {
    var s' := StolenRight(s, i, n);
    LeftPrefix(s.kids, s.kvs, s'.kids, s'.kvs, i);
  }

  lemma MergedGapLeft(t: Tree, q: Path, i: nat, idx: nat)
    requires ValidPath(t, q) && Pair(SubAt(t, q), i) && SubAt(t, q).kids[i].kids == []
    requires idx <= |SubAt(t, q).kids[i].kvs|
    ensures var s := SubAt(t, q);
      var (t', e) := (SetAt(t, q, Merged(s, i)), Handle(s.kids[i].node, idx));
      && LeafEdge(t, q + [i], e) && LeafEdge(t', q + [i], e)
      && Gap(t', q + [i], e) == Gap(t, q + [i], e)
  {
    hide Merged, Left, LeafEdge, Gap, Before, SubAt;
    MergedStart(SubAt(t, q), i);
    LeafChildGap(t, q, i, idx);
    LeafChildGapSet(t, q, Merged(SubAt(t, q), i), i, idx);
  }

  lemma MergedGapRight(t: Tree, q: Path, i: nat, n: nat, idx: nat)
    requires ValidPath(t, q) && Pair(SubAt(t, q), i) && SubAt(t, q).kids[i].kids == []
    requires var s := SubAt(t, q); idx <= |s.kids[i + 1].kvs| && n == |s.kids[i].kvs| + 1 + idx
    ensures var s := SubAt(t, q);
      var (t', e, e') := (SetAt(t, q, Merged(s, i)), Handle(s.kids[i + 1].node, idx), Handle(s.kids[i].node, n));
      && LeafEdge(t, q + [i + 1], e) && LeafEdge(t', q + [i], e')
      && Gap(t', q + [i], e') == Gap(t, q + [i + 1], e)
  {
    hide Merged, Left, LeafEdge, Gap, Before, SubAt;
    MergedStart(SubAt(t, q), i);
    LeafChildGap(t, q, i + 1, idx);
    LeafChildGapSet(t, q, Merged(SubAt(t, q), i), i, n);
  }

  lemma StolenLeftGap(t: Tree, q: Path, i: nat, n: nat, idx: nat)
    requires ValidPath(t, q) && Pair(SubAt(t, q), i) && SubAt(t, q).kids[i].kids == []
    requires var s := SubAt(t, q); n + 1 == |s.kids[i].kvs| && idx <= |s.kids[i + 1].kvs|
    ensures var s := SubAt(t, q);
      var (t', e, e') := (SetAt(t, q, StolenLeft(s, i, n)), Handle(s.kids[i + 1].node, idx),
                          Handle(s.kids[i + 1].node, 1 + idx));
      && LeafEdge(t, q + [i + 1], e) && LeafEdge(t', q + [i + 1], e')
      && Gap(t', q + [i + 1], e') == Gap(t, q + [i + 1], e)
  {
    hide StolenLeft, Left, LeafEdge, Gap, Before, SubAt;
    StolenLeftStart(SubAt(t, q), i, n);
    LeafChildGap(t, q, i + 1, idx);
    LeafChildGapSet(t, q, StolenLeft(SubAt(t, q), i, n), i + 1, 1 + idx);
  }

  lemma StolenRightGap(t: Tree, q: Path, i: nat, n: nat, idx: nat)
    requires ValidPath(t, q) && Pair(SubAt(t, q), i) && SubAt(t, q).kids[i].kids == []
    requires var s := SubAt(t, q); n < |s.kids[i + 1].kvs| && idx <= |s.kids[i].kvs|
    ensures var s := SubAt(t, q);
      var (t', e) := (SetAt(t, q, StolenRight(s, i, n)), Handle(s.kids[i].node, idx));
      LeafEdge(t, q + [i], e) && LeafEdge(t', q + [i], e) && Gap(t', q + [i], e) == Gap(t, q + [i], e)
  {
    hide StolenRight, Left, LeafEdge, Gap, Before, SubAt;
    StolenRightStart(SubAt(t, q), i, n);
    LeafChildGap(t, q, i, idx);
    LeafChildGapSet(t, q, StolenRight(SubAt(t, q), i, n), i, idx);
  }

  /** A tree with the same row has the leaf edge at the same gap. */
  lemma RowGap(t: Tree, p: Path, e: Handle, t': Tree) returns (p': Path)
    requires LeafEdge(t, p, e) && Row(t') == Row(t) && Regular(t')
    ensures LeafEdge(t', p', e) && Gap(t', p', e) == Gap(t, p, e)
  {
    LeafOfPath(t, p);
    var row, leaf, before, kvs := Row(t), SubAt(t, p).node, Before(t, p), SubAt(t, p).kvs;
    var j :| 0 <= j < |row| && row[j] == Leaf(leaf, kvs) && Pairs(row[..j]) == before;
    p' := PathOfLeaf(t', j);
  }

  /** Merges the two children around pair `i` and says where an edge of one of them is afterwards. */
  method MergeTrackingChildEdge(parent: Node, i: nat, onRight: bool, idx: nat, pool: Pool, ghost t: Tree, ghost q: Path)
    returns (edge: Handle, ghost t': Tree)
    requires pool.Valid() && Holds(pool.Mem(), t) && At(t, q, parent) && Pair(SubAt(t, q), i)
    requires var s := SubAt(t, q); s.kids[i].kids == [] && |s.kids[i].kvs| + 1 + |s.kids[i + 1].kvs| <= CAPACITY
    requires idx <= |SubAt(t, q).kids[if onRight then i + 1 else i].kvs|
    modifies pool, pool.nodes, pool.kvBuffers, pool.edgeBuffers
    ensures pool.Valid() && pool.Repr() <= old(pool.Repr()) && Becomes(old(pool.Mem()), pool.Mem(), t, t')
    ensures t' == SetAt(t, q, Merged(SubAt(t, q), i)) && LeafEdge(t', q + [i], edge)
    ensures var j := if onRight then i + 1 else i;
      var e := Handle(SubAt(t, q).kids[j].node, idx);
      LeafEdge(t, q + [j], e) && Gap(t', q + [i], edge) == Gap(t, q + [j], e)
  {
    hide Holds, Becomes, SubAt, ValidPath, Merged, LeafEdge, Gap, Pool.Mem, Pool.Valid;
    var oldLeftLen := ChildLen(parent, i, pool, t, q);
    var newIdx := if onRight then oldLeftLen + 1 + idx else idx;
    if onRight { MergedGapRight(t, q, i, newIdx, idx); } else { MergedGapLeft(t, q, i, idx); }
    var left;
    left, t' := Merge(parent, i, pool, t, q);
    edge := Handle(left, newIdx);
  }

  /** Steals one pair from the left child and says where an edge of the right child is afterwards. */
  method StealLeftTracking(parent: Node, i: nat, idx: nat, pool: Pool, ghost t: Tree, ghost q: Path)
    returns (edge: Handle, ghost t': Tree, ghost n: nat)
    requires pool.Valid() && Holds(pool.Mem(), t) && At(t, q, parent) && Pair(SubAt(t, q), i)
    requires var s := SubAt(t, q);
      s.kids[i].kids == [] && s.kids[i].kvs != [] && |s.kids[i + 1].kvs| < CAPACITY && idx <= |s.kids[i + 1].kvs|
    modifies pool.nodes, pool.kvBuffers, pool.edgeBuffers
    ensures pool.Valid() && Becomes(old(pool.Mem()), pool.Mem(), t, t')
    ensures n + 1 == |SubAt(t, q).kids[i].kvs| && t' == SetAt(t, q, StolenLeft(SubAt(t, q), i, n))
    ensures LeafEdge(t', q + [i + 1], edge)
    ensures var e := Handle(SubAt(t, q).kids[i + 1].node, idx);
      LeafEdge(t, q + [i + 1], e) && Gap(t', q + [i + 1], edge) == Gap(t, q + [i + 1], e)
  {
    hide Holds, Becomes, SubAt, ValidPath, StolenLeft, LeafEdge, Gap, Pool.Mem, Pool.Valid;
    var right := Descend(parent, i + 1, pool, t, q);
    t', n := StealLeft(parent, i, 1, pool, t, q);
    StolenLeftGap(t, q, i, n, idx);
    edge := Handle(right, 1 + idx);
  }

  /** Steals one pair from the right child; an edge of the left child stays where it is. */
  method StealRightTracking(parent: Node, i: nat, idx: nat, pool: Pool, ghost t: Tree, ghost q: Path)
    returns (edge: Handle, ghost t': Tree)
    requires pool.Valid() && Holds(pool.Mem(), t) && At(t, q, parent) && Pair(SubAt(t, q), i)
    requires var s := SubAt(t, q);
      s.kids[i].kids == [] && s.kids[i + 1].kvs != [] && |s.kids[i].kvs| < CAPACITY && idx <= |s.kids[i].kvs|
    modifies pool.nodes, pool.kvBuffers, pool.edgeBuffers
    ensures pool.Valid() && Becomes(old(pool.Mem()), pool.Mem(), t, t')
    ensures t' == SetAt(t, q, StolenRight(SubAt(t, q), i, 0)) && LeafEdge(t', q + [i], edge)
    ensures var e := Handle(SubAt(t, q).kids[i].node, idx);
      LeafEdge(t, q + [i], e) && Gap(t', q + [i], edge) == Gap(t, q + [i], e)
  {
    hide Holds, Becomes, SubAt, ValidPath, StolenRight, LeafEdge, Gap, Pool.Mem, Pool.Valid;
    var left := Descend(parent, i, pool, t, q);
    ghost var n;
    t', n := StealRight(parent, i, 1, pool, t, q);
    StolenRightGap(t, q, i, n, idx);
    edge := Handle(left, idx);
  }

  // ----- Removing from a leaf

  /** Only the node at `q` may be underfull. */
  ghost predicate Settled(t: Tree, h: nat, q: Path) {
    ValidPath(t, q) && |q| < h && FullAround(t, h, 1, q) && Full(SubAt(t, q), h - |q|, 0)
  }

  lemma SettledFull(t: Tree, h: nat, q: Path)
    requires Full(t, h, 1) && ValidPath(t, q) && |q| < h
    ensures Settled(t, h, q)
  {
    FullSub(t, h, 1, q);
    FullFrom(SubAt(t, q), h - |q|, Least(1, q), 0);
  }

  lemma StolenPath(t: Tree, q: Path, s: Tree)
    requires ValidPath(t, q)
    ensures ValidPath(SetAt(t, q, s), q)
  {
    SetAtPlace(t, q, s);
  }

  lemma UnderfullLeaf(t: Tree, h: nat, q: Path, i: nat, j: nat, idx: nat)
    requires Beside(t, h, q, i, j) && SubAt(t, q).kids[j].kids == [] && idx <= |SubAt(t, q).kids[j].kvs|
    requires |SubAt(t, q).kids[j].kvs| == MIN_LEN - 1
    ensures Pair(SubAt(t, q), i) && SubAt(t, q).kids[i].kids == []
    ensures SubAt(t, q).kids[i].kvs != [] && SubAt(t, q).kids[i + 1].kvs != []
    ensures |q| + 1 == h
  {
    BesidePair(t, h, q, i, j);
  }

  method RestockFromLeft(parent: Node, i: nat, idx: nat, pool: Pool, ghost t: Tree, ghost h: nat, ghost q: Path)
    returns (edge: Handle, ghost t': Tree, ghost j: nat)
    requires pool.Valid() && Holds(pool.Mem(), t) && At(t, q, parent) && Beside(t, h, q, i, i + 1)
    requires var k := SubAt(t, q).kids[i + 1]; k.kids == [] && idx <= |k.kvs| == MIN_LEN - 1
    modifies pool, pool.nodes, pool.kvBuffers, pool.edgeBuffers
    ensures pool.Valid() && pool.Repr() <= old(pool.Repr()) && Becomes(old(pool.Mem()), pool.Mem(), t, t')
    ensures Settled(t', h, q) && SamePairs(t, t', false) && LeafEdge(t', q + [j], edge)
    ensures var e := Handle(SubAt(t, q).kids[i + 1].node, idx);
      LeafEdge(t, q + [i + 1], e) && Gap(t', q + [j], edge) == Gap(t, q + [i + 1], e)
  {
    hide Holds, Becomes, ValidPath, SubAt, Beside, Merged, StolenLeft, LeafEdge, Gap, FullAround, Full, FullBut,
         Pool.Mem, Pool.Valid;
    UnderfullLeaf(t, h, q, i, i + 1, idx);
    var can := CanMerge(parent, i, pool, t, q);
    if can {
      AfterMerge(t, h, q, i, i + 1);
      edge, t' := MergeTrackingChildEdge(parent, i, true, idx, pool, t, q);
      j := i;
    } else {
      ghost var n;
      edge, t', n := StealLeftTracking(parent, i, idx, pool, t, q);
      AfterStealLeft(t, h, q, i, n);
      StolenPath(t, q, StolenLeft(SubAt(t, q), i, n));
      SettledFull(t', h, q);
      j := i + 1;
    }
  }

  method RestockFromRight(parent: Node, idx: nat, pool: Pool, ghost t: Tree, ghost h: nat, ghost q: Path)
    returns (edge: Handle, ghost t': Tree)
    requires pool.Valid() && Holds(pool.Mem(), t) && At(t, q, parent) && Beside(t, h, q, 0, 0)
    requires var k := SubAt(t, q).kids[0]; k.kids == [] && idx <= |k.kvs| == MIN_LEN - 1
    modifies pool, pool.nodes, pool.kvBuffers, pool.edgeBuffers
    ensures pool.Valid() && pool.Repr() <= old(pool.Repr()) && Becomes(old(pool.Mem()), pool.Mem(), t, t')
    ensures Settled(t', h, q) && SamePairs(t, t', false) && LeafEdge(t', q + [0], edge)
    ensures var e := Handle(SubAt(t, q).kids[0].node, idx);
      LeafEdge(t, q + [0], e) && Gap(t', q + [0], edge) == Gap(t, q + [0], e)
  {
    hide Holds, Becomes, ValidPath, SubAt, Beside, Merged, StolenRight, LeafEdge, Gap, FullAround, Full, FullBut,
         Pool.Mem, Pool.Valid;
    UnderfullLeaf(t, h, q, 0, 0, idx);
    var can := CanMerge(parent, 0, pool, t, q);
    if can {
      AfterMerge(t, h, q, 0, 0);
      edge, t' := MergeTrackingChildEdge(parent, 0, false, idx, pool, t, q);
    } else {
      AfterStealRight(t, h, q, 0, 0);
      edge, t' := StealRightTracking(parent, 0, idx, pool, t, q);
      StolenPath(t, q, StolenRight(SubAt(t, q), 0, 0));
      SettledFull(t', h, q);
    }
  }

  /** Restocks a leaf one pair short, if it has siblings. */
  method RestockLeaf(pos: Handle, pool: Pool, ghost t: Tree, ghost h: nat, ghost p: Path)
    returns (edge: Handle, ghost t': Tree, ghost p': Path)
    requires pool.Valid() && Holds(pool.Mem(), t) && LeafEdge(t, p, pos)
    requires p != [] ==> |SubAt(t, p).kvs| == MIN_LEN - 1
    requires |p| <= h && FullAround(t, h, 1, p) && Full(SubAt(t, p), h - |p|, 0)
    modifies pool, pool.nodes, pool.kvBuffers, pool.edgeBuffers
    ensures pool.Valid() && pool.Repr() <= old(pool.Repr()) && Becomes(old(pool.Mem()), pool.Mem(), t, t')
    ensures SamePairs(t, t', false) && LeafEdge(t', p', edge) && Gap(t', p', edge) == Gap(t, p, pos)
    ensures if p == [] then p' == [] && t' == t else p' != [] && Settled(t', h, p'[..|p'| - 1])
  {
    hide Holds, Becomes, ValidPath, SubAt, Beside, Gap, FullAround, Full, Settled, Above, Pool.Mem, Pool.Valid;
    ParentStocked(t, h, p);
    var choice := ChooseParentKv(pos.node, pool, t, p);
    match choice {
      case LeftKv(parent, i) =>
        AboveParts(t, p, parent, i + 1);
        BesideOf(t, h, p, parent, i + 1, i);
        ghost var j;
        edge, t', j := RestockFromLeft(parent, i, pos.idx, pool, t, h, p[..|p| - 1]);
        p' := p[..|p| - 1] + [j];
        assert p'[..|p'| - 1] == p[..|p| - 1];
      case RightKv(parent, i) =>
        AboveParts(t, p, parent, 0);
        BesideOf(t, h, p, parent, 0, 0);
        edge, t' := RestockFromRight(parent, pos.idx, pool, t, h, p[..|p| - 1]);
        p' := p[..|p| - 1] + [0];
        assert p'[..|p'| - 1] == p[..|p| - 1];
      case NoParent =>
        edge, t', p' := pos, t, p;
        BecomesNothing(pool.Mem(), t);
    }
  }

  lemma AboveParts(t: Tree, p: Path, parent: Node, i: nat)
    requires Above(t, p, parent, i)
    ensures p != [] && p == p[..|p| - 1] + [i] && At(t, p[..|p| - 1], parent)
    ensures var s := SubAt(t, p[..|p| - 1]); |s.kids| == |s.kvs| + 1 && i < |s.kids| && s.kids[i] == SubAt(t, p)
  {
  }

  /** Stocks up the parent of a leaf, if it has one, and its ancestors. */
  method FixAbove(edge: Handle, pool: Pool, ghost t: Tree, ghost h: nat, ghost p: Path)
    returns (emptied: bool, ghost t': Tree, ghost p': Path)
    requires pool.Valid() && Holds(pool.Mem(), t) && LeafEdge(t, p, edge)
    requires if p == [] then h == 0 && Full(t, 0, 0) else Settled(t, h, p[..|p| - 1])
    modifies pool, pool.nodes, pool.kvBuffers, pool.edgeBuffers
    ensures pool.Valid() && pool.Repr() <= old(pool.Repr()) && Becomes(old(pool.Mem()), pool.Mem(), t, t')
    ensures SamePairs(t, t', false) && LeafEdge(t', p', edge) && Gap(t', p', edge) == Gap(t, p, edge)
    ensures Full(t', h, 0) && (emptied <==> h > 0 && t'.kvs == [])
  {
    hide Holds, Becomes, ValidPath, SubAt, Gap, FullAround, Full, Above, Row, Pool.Mem, Pool.Valid;
    var parent, i := Ascend(edge.node, pool, t, p);
    if parent == null {
      emptied, t', p' := false, t, p;
      BecomesNothing(pool.Mem(), t);
    } else {
      AboveParts(t, p, parent, i);
      var fixed;
      fixed, t' := FixNodeAndAffectedAncestors(parent, pool, t, h, p[..|p| - 1]);
      emptied := !fixed;
      FullRegular(t', h, 0);
      p' := RowGap(t, p, edge, t');
    }
  }

  lemma LoweredEdge(t: Tree, h: nat, p: Path, edge: Handle)
    requires h > 0 && Full(t, h, 0) && t.kvs == [] && LeafEdge(t, p, edge)
    ensures |t.kids| == 1 && Balanced(t.kids[0], h - 1) && Flat(t.kids[0]) == Flat(t)
    ensures p != [] && LeafEdge(t.kids[0], p[1..], edge) && Gap(t.kids[0], p[1..], edge) == Gap(t, p, edge)
  {
    FullFrom(t.kids[0], h - 1, MIN_LEN, if h - 1 == 0 then 0 else 1);
  }

  /** Once a pair is taken from a leaf, only that leaf may be underfull, by one pair. */
  lemma AfterTake(t: Tree, h: nat, p: Path, kv: Handle)
    requires Balanced(t, h) && Kv(t, p, kv) && SubAt(t, p).kids == []
    ensures var t' := SetKvs(t, p, Take(SubAt(t, p).kvs, kv.idx));
      && t'.node == t.node && LeafEdge(t', p, kv) && Gap(t', p, kv) == Index(t, p, kv)
      && |p| <= h && FullAround(t', h, 1, p) && Full(SubAt(t', p), h - |p|, 0)
      && (p == [] ==> h == 0) && (p != [] ==> |SubAt(t', p).kvs| >= MIN_LEN - 1)
      && (|SubAt(t', p).kvs| >= MIN_LEN ==> Full(t', h, 1))
  {
    var s' := SubAt(t, p).(kvs := Take(SubAt(t, p).kvs, kv.idx));
    SetAtPlace(t, p, s');
    FullSub(t, h, if h == 0 then 0 else 1, p);
    FullSet(t, h, 1, p, s');
  }

  method Restock(kv: Handle, len: nat, pool: Pool, ghost t: Tree, ghost h: nat, ghost p: Path)
    returns (edge: Handle, emptied: bool, ghost t': Tree, ghost p': Path)
    requires pool.Valid() && Holds(pool.Mem(), t) && LeafEdge(t, p, kv) && len == |SubAt(t, p).kvs| < MIN_LEN
    requires p != [] ==> |SubAt(t, p).kvs| == MIN_LEN - 1
    requires |p| <= h && FullAround(t, h, 1, p) && Full(SubAt(t, p), h - |p|, 0) && (p == [] ==> h == 0)
    modifies pool, pool.nodes, pool.kvBuffers, pool.edgeBuffers
    ensures pool.Valid() && pool.Repr() <= old(pool.Repr()) && Becomes(old(pool.Mem()), pool.Mem(), t, t')
    ensures SamePairs(t, t', false) && LeafEdge(t', p', edge) && Gap(t', p', edge) == Gap(t, p, kv)
    ensures Full(t', h, 0) && (emptied <==> h > 0 && t'.kvs == [])
  {
    hide Holds, Becomes, Gap, ValidPath, FullAround, Full, Settled, Pool.Mem, Pool.Valid;
    ghost var m := pool.Mem();
    edge, t', p' := RestockLeaf(kv, pool, t, h, p);
    ghost var m1, t1, p1 := pool.Mem(), t', p';
    assert Holds(m1, t1) by { BecomesHolds(m, m1, t, t1); }
    emptied, t', p' := FixAbove(edge, pool, t1, h, p1);
    BecomesTrans(m, m1, pool.Mem(), t, t1, t');
  }

  /** Pair `g` of `t` was taken from the leaf at `p`, where the edge `kv` is left behind. */
  ghost predicate Taken(t: Tree, h: nat, p: Path, kv: Handle, g: nat, t': Tree) {
    && g < |Flat(t)| && Flat(t') == Take(Flat(t), g) && t'.node == t.node
    && LeafEdge(t', p, kv) && Gap(t', p, kv) == g
    && |p| <= h && FullAround(t', h, 1, p) && Full(SubAt(t', p), h - |p|, 0)
    && (p == [] ==> h == 0) && (p != [] ==> |SubAt(t', p).kvs| >= MIN_LEN - 1)
    && (|SubAt(t', p).kvs| >= MIN_LEN ==> Full(t', h, 1))
  }

  method TakeFromLeaf(kv: Handle, pool: Pool, ghost t: Tree, ghost h: nat, ghost p: Path)
    returns (oldKv: KV, ghost t': Tree)
    requires pool.Valid() && Holds(pool.Mem(), t) && Balanced(t, h) && Kv(t, p, kv) && SubAt(t, p).kids == []
    modifies pool.nodes, pool.kvBuffers, pool.edgeBuffers
    ensures pool.Valid() && Becomes(old(pool.Mem()), pool.Mem(), t, t') && Taken(t, h, p, kv, Index(t, p, kv), t')
    ensures oldKv == Flat(t)[Index(t, p, kv)]
  {
    hide Holds, Becomes, Gap, ValidPath, FullAround, Full, Balanced, Take, Pool.Mem, Pool.Valid;
    FlatTakeLeaf(t, p, kv.idx);
    AfterTake(t, h, p, kv);
    oldKv, t' := RemoveFromLeaf(kv.node, kv.idx, pool, t, p);
  }

  method TakeAndRestock(kv: Handle, pool: Pool, ghost t: Tree, ghost h: nat, ghost p: Path)
    returns (oldKv: KV, edge: Handle, emptied: bool, ghost t': Tree, ghost p': Path)
    requires pool.Valid() && Holds(pool.Mem(), t) && Balanced(t, h)
    requires Kv(t, p, kv) && SubAt(t, p).kids == []
    modifies pool, pool.nodes, pool.kvBuffers, pool.edgeBuffers
    ensures pool.Valid() && pool.Repr() <= old(pool.Repr()) && Becomes(old(pool.Mem()), pool.Mem(), t, t')
    ensures var g := Index(t, p, kv);
      && g < |Flat(t)| && oldKv == Flat(t)[g] && Flat(t') == Take(Flat(t), g)
      && LeafEdge(t', p', edge) && Gap(t', p', edge) == g
    ensures t'.node == t.node && Full(t', h, 0) && (emptied <==> h > 0 && t'.kvs == [])
  {
    hide Holds, Becomes, Gap, ValidPath, FullAround, Full, Balanced, Taken, Kv, Index, SubAt, LeafEdge, Take, Flat,
         Pool.Mem, Pool.Valid;
    ghost var m := pool.Mem();
    oldKv, t' := TakeFromLeaf(kv, pool, t, h, p);
    ghost var m1, t1 := pool.Mem(), t';
    assert Holds(m1, t1) by { BecomesHolds(m, m1, t, t1); }
    TakenLeaves(t, h, p, kv, Index(t, p, kv), t1);
    var len := Len(kv.node, pool, t1, p);
    if len < MIN_LEN {
      edge, emptied, t', p' := Restock(kv, len, pool, t1, h, p);
      BecomesTrans(m, m1, pool.Mem(), t, t1, t');
    } else {
      edge, emptied, p' := kv, false, p;
      FullRoot(t', h);
    }
  }

  lemma TakenLeaves(t: Tree, h: nat, p: Path, kv: Handle, g: nat, t': Tree)
    requires Taken(t, h, p, kv, g, t')
    ensures g < |Flat(t)| && Flat(t') == Take(Flat(t), g) && t'.node == t.node
    ensures LeafEdge(t', p, kv) && Gap(t', p, kv) == g && At(t', p, kv.node)
    ensures |p| <= h && FullAround(t', h, 1, p) && Full(SubAt(t', p), h - |p|, 0)
    ensures (p == [] ==> h == 0) && (p != [] ==> |SubAt(t', p).kvs| >= MIN_LEN - 1)
    ensures |SubAt(t', p).kvs| >= MIN_LEN ==> Full(t', h, 1)
  {
  }

  lemma FullRoot(t: Tree, h: nat)
    requires Full(t, h, 1)
    ensures Full(t, h, 0) && t.kvs != []
  {
    FullFrom(t, h, 1, 0);
  }

  lemma BalancedUnlessEmpty(t: Tree, h: nat)
    requires Full(t, h, 0) && (h == 0 || t.kvs != [])
    ensures Balanced(t, h)
  {
    if h > 0 { FullFrom(t, h, 0, 1); }
  }

  lemma BalancedFull(t: Tree, h: nat)
    requires Balanced(t, h)
    ensures Full(t, h, 0) && Full(t, h, if h == 0 then 0 else 1)
  {
    FullFrom(t, h, if h == 0 then 0 else 1, 0);
  }

  /** Removes a pair of a leaf. If that leaves an internal root without pairs, the root is popped right away or
      left to the caller. */
  method RemoveLeafKv(kv: Handle, root: Root, popNow: bool, pool: Pool, ghost t: Tree, ghost p: Path)
    returns (oldKv: KV, edge: Handle, emptied: bool, ghost t': Tree, ghost p': Path)
    requires pool.Valid() && Holds(pool.Mem(), t) && root.node == t.node && Balanced(t, root.height)
    requires Kv(t, p, kv) && SubAt(t, p).kids == []
    modifies root, pool, pool.nodes, pool.kvBuffers, pool.edgeBuffers
    ensures pool.Valid() && pool.Repr() <= old(pool.Repr()) && Becomes(old(pool.Mem()), pool.Mem(), t, t')
    ensures var g := Index(t, p, kv);
      && g < |Flat(t)| && oldKv == Flat(t)[g] && Flat(t') == Take(Flat(t), g)
      && LeafEdge(t', p', edge) && Gap(t', p', edge) == g
    ensures root.node == t'.node && Full(t', root.height, 0) && (!popNow ==> root.height == old(root.height))
    ensures if emptied then !popNow && root.height > 0 && t'.kvs == [] else Balanced(t', root.height)
  {
    hide Holds, Becomes, Gap, ValidPath, SubAt, Full, Pool.Mem, Pool.Valid;
    ghost var m := pool.Mem();
    oldKv, edge, emptied, t', p' := TakeAndRestock(kv, pool, t, root.height, p);
    ghost var m1, t1, p1 := pool.Mem(), t', p';
    if !emptied { BalancedUnlessEmpty(t1, root.height); }
    if emptied && popNow {
      LoweredEdge(t1, root.height, p1, edge);
      assert Holds(m1, t1) by { BecomesHolds(m, m1, t, t1); }
      root.PopInternalLevel(pool, t1);
      emptied, t', p' := false, t1.kids[0], p1[1..];
      BalancedFull(t', root.height);
      BecomesTrans(m, m1, pool.Mem(), t, t1, t');
    }
  }

  // ----- Removing from an internal node

  /** The last pair of the leaf left of an internal pair comes right before it. */
  lemma LastOfLeft(t: Tree, h: nat, p: Path, kv: Handle, q: Path, edge: Handle)
    requires Balanced(t, h) && Kv(t, p, kv) && SubAt(t, p).kids != []
    requires LeafEdge(t, q, edge) && edge.idx == |SubAt(t, q).kvs| && |q| > |p|
    requires Gap(t, q, edge) == Index(t, p, kv)
    ensures edge.idx > 0
    ensures var e := Handle(edge.node, edge.idx - 1); Kv(t, q, e) && Index(t, q, e) + 1 == Index(t, p, kv)
  {
    FullSub(t, h, if h == 0 then 0 else 1, q);
  }

  /** Overwriting the pair after the one taken with that one is the same as taking the pair after it. */
  lemma TakeAndReplace(f: seq<KV>, g: nat)
    requires 0 < g < |f|
    ensures Take(f, g - 1)[g - 1 := f[g - 1]] == Take(f, g)
    ensures Take(f, g - 1)[g - 1] == f[g]
  {
  }

  method LeftNeighbour(kv: Handle, pool: Pool, ghost t: Tree, ghost h: nat, ghost p: Path)
    returns (leafKv: Handle, ghost q: Path)
    requires pool.Valid() && Holds(pool.Mem(), t) && Balanced(t, h) && Kv(t, p, kv) && SubAt(t, p).kids != []
    ensures Kv(t, q, leafKv) && SubAt(t, q).kids == [] && Index(t, q, leafKv) + 1 == Index(t, p, kv)
  {
    hide Holds, ValidPath, SubAt, Before, Balanced, Pool.Mem, Pool.Valid;
    EdgeOfChild(t, p, kv.idx);
    var child := Descend(kv.node, kv.idx, pool, t, p);
    var edge;
    edge, q := LastLeafEdge(child, pool, t, p + [kv.idx]);
    q := p + [kv.idx] + q;
    LastOfLeft(t, h, p, kv, q, edge);
    leafKv := Handle(edge.node, edge.idx - 1);
  }

  lemma ReplacedShape(t: Tree, q: Path, kvs: seq<KV>)
    requires ValidPath(t, q) && |kvs| == |SubAt(t, q).kvs|
    ensures var t' := SetKvs(t, q, kvs);
      t'.node == t.node && forall h, lo :: Full(t, h, lo) ==> Full(t', h, lo) && (t'.kvs == [] <==> t.kvs == [])
  {
    SetAtNode(t, q, SubAt(t, q).(kvs := kvs));
    forall h, lo | Full(t, h, lo)
      ensures Full(SetKvs(t, q, kvs), h, lo) && (SetKvs(t, q, kvs).kvs == [] <==> t.kvs == [])
    {
      FullReplaced(t, h, lo, q, kvs);
    }
  }

  /** Puts a pair in place of another. */
  method ReplacePair(i: Handle, kv: KV, pool: Pool, ghost t: Tree, ghost q: Path) returns (oldKv: KV, ghost t': Tree)
    requires pool.Valid() && Holds(pool.Mem(), t) && Kv(t, q, i)
    modifies pool.nodes, pool.kvBuffers, pool.edgeBuffers
    ensures pool.Valid() && Becomes(old(pool.Mem()), pool.Mem(), t, t') && Holds(pool.Mem(), t')
    ensures Index(t, q, i) < |Flat(t)| && oldKv == Flat(t)[Index(t, q, i)] && Flat(t') == Flat(t)[Index(t, q, i) := kv]
    ensures Kv(t', q, i) && Index(t', q, i) == Index(t, q, i) && t'.node == t.node
    ensures forall h, lo :: Full(t, h, lo) ==> Full(t', h, lo) && (t'.kvs == [] <==> t.kvs == [])
  {
    hide Holds, ValidPath, SubAt, Before, Becomes, Full, Pool.Mem, Pool.Valid;
    ghost var m := pool.Mem();
    PairAfterEdge(t, q, i.idx);
    ReplacedAt(t, q, i, kv);
    ReplacedShape(t, q, SubAt(t, q).kvs[i.idx := kv]);
    oldKv, t' := ReplaceKv(i.node, i.idx, kv, pool, t, q);
    BecomesHolds(m, pool.Mem(), t, t');
  }

  /** Puts a pair in place of the one right of a leaf edge, and returns the leaf edge behind it. */
  method ReplaceNext(hole: Handle, kv: KV, pool: Pool, ghost t: Tree, ghost p: Path)
    returns (oldKv: KV, edge: Handle, ghost t': Tree, ghost p': Path)
    requires pool.Valid() && Holds(pool.Mem(), t) && LeafEdge(t, p, hole) && Gap(t, p, hole) < |Flat(t)|
    modifies pool.nodes, pool.kvBuffers, pool.edgeBuffers
    ensures pool.Valid() && Becomes(old(pool.Mem()), pool.Mem(), t, t')
    ensures oldKv == Flat(t)[Gap(t, p, hole)] && Flat(t') == Flat(t)[Gap(t, p, hole) := kv]
    ensures LeafEdge(t', p', edge) && Gap(t', p', edge) == Gap(t, p, hole) + 1
    ensures forall h, lo :: Full(t, h, lo) ==> Full(t', h, lo) && (t'.kvs == [] <==> t.kvs == [])
    ensures t'.node == t.node
  {
    hide Holds, ValidPath, SubAt, Before, Becomes, Gap, LeafEdge, Full, Kv, Index, Flat, Pool.Mem, Pool.Valid;
    var next, q := NextKv(hole, pool, t, p);
    oldKv, t' := ReplacePair(next.value, kv, pool, t, q);
    edge, p' := NextLeafEdge(next.value, pool, t', q);
  }

  /** Removes a pair of an internal node: takes the pair before it from its leaf, and puts that one in its place,
      wherever that is by then. */
  method RemoveInternalKv(kv: Handle, root: Root, popNow: bool, pool: Pool, ghost t: Tree, ghost p: Path)
    returns (oldKv: KV, edge: Handle, emptied: bool, ghost t': Tree, ghost p': Path)
    requires pool.Valid() && Holds(pool.Mem(), t) && root.node == t.node && Balanced(t, root.height)
    requires Kv(t, p, kv) && SubAt(t, p).kids != []
    modifies root, pool, pool.nodes, pool.kvBuffers, pool.edgeBuffers
    ensures pool.Valid() && pool.Repr() <= old(pool.Repr()) && Becomes(old(pool.Mem()), pool.Mem(), t, t')
    ensures var g := Index(t, p, kv);
      && g < |Flat(t)| && oldKv == Flat(t)[g] && Flat(t') == Take(Flat(t), g)
      && LeafEdge(t', p', edge) && Gap(t', p', edge) == g
    ensures root.node == t'.node && Full(t', root.height, 0) && (!popNow ==> root.height == old(root.height))
    ensures if emptied then !popNow && root.height > 0 && t'.kvs == [] else Balanced(t', root.height)
  {
    hide Holds, Becomes, Gap, LeafEdge, ValidPath, SubAt, Full, Kv, Index, Pool.Mem, Pool.Valid;
    ghost var m := pool.Mem();
    ghost var g := Index(t, p, kv);
    IndexWithin(t, p, kv);
    var leafKv, q := LeftNeighbour(kv, pool, t, root.height, p);
    var leftKv, hole;
    ghost var t1, p1;
    leftKv, hole, emptied, t1, p1 := RemoveLeafKv(leafKv, root, popNow, pool, t, q);
    ghost var m1 := pool.Mem();
    assert Holds(m1, t1) by { BecomesHolds(m, m1, t, t1); }
    TakeAndReplace(Flat(t), g);
    oldKv, edge, t', p' := ReplaceNext(hole, leftKv, pool, t1, p1);
    BecomesTrans(m, m1, pool.Mem(), t, t1, t');
  }

  lemma IndexWithin(t: Tree, p: Path, kv: Handle)
    requires Kv(t, p, kv)
    ensures Index(t, p, kv) < |Flat(t)| && Flat(t)[Index(t, p, kv)] == SubAt(t, p).kvs[kv.idx]
  {
    PairAfterEdge(t, p, kv.idx);
  }

  /** Removes a pair, and returns it with the leaf edge it leaves behind. */
  method RemoveKvTracking(kv: Handle, root: Root, popNow: bool, pool: Pool, ghost t: Tree, ghost p: Path)
    returns (oldKv: KV, edge: Handle, emptied: bool, ghost t': Tree, ghost p': Path)
    requires pool.Valid() && Holds(pool.Mem(), t) && root.node == t.node && Balanced(t, root.height) && Kv(t, p, kv)
    modifies root, pool, pool.nodes, pool.kvBuffers, pool.edgeBuffers
    ensures pool.Valid() && pool.Repr() <= old(pool.Repr()) && Becomes(old(pool.Mem()), pool.Mem(), t, t')
    ensures var g := Index(t, p, kv);
      && g < |Flat(t)| && oldKv == Flat(t)[g] && Flat(t') == Take(Flat(t), g)
      && LeafEdge(t', p', edge) && Gap(t', p', edge) == g
    ensures root.node == t'.node && Full(t', root.height, 0) && (!popNow ==> root.height == old(root.height))
    ensures if emptied then !popNow && root.height > 0 && t'.kvs == [] else Balanced(t', root.height)
  {
    hide Holds, Becomes, Gap, LeafEdge, ValidPath, SubAt, Full, Index, Pool.Mem, Pool.Valid;
    var leaf := IsLeaf(kv.node, pool, t, p);
    if leaf {
      oldKv, edge, emptied, t', p' := RemoveLeafKv(kv, root, popNow, pool, t, p);
    } else {
      oldKv, edge, emptied, t', p' := RemoveInternalKv(kv, root, popNow, pool, t, p);
    }
  }
}
