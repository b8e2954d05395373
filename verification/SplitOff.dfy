/** Splitting a tree in two at the place a comparator points to. */
module SplitOff {
  import opened Nodes
  import opened Trees
  import opened Memory
  import opened Edits
  import opened Shapes
  import opened Places
  import opened Navigate
  import opened Search
  import opened Rebuild
  import opened Roots
  import opened Borders

  // ----- Pillars

  /** A tree of empty nodes, one on each level. */
  ghost predicate Pillar(t: Tree, h: nat)
    decreases h
  {
    t.kvs == [] && if h == 0 then t.kids == [] else |t.kids| == 1 && Pillar(t.kids[0], h - 1)
  }

  lemma {:induction false} PillarEmpty(t: Tree, h: nat)
    requires Pillar(t, h)
    ensures Flat(t) == []
    decreases h
  {
    if h > 0 { PillarEmpty(t.kids[0], h - 1); }
  }

  method NewPillar(height: nat, pool: Pool) returns (root: Root, ghost t: Tree)
    requires pool.Valid()
    modifies pool, pool.nodes, pool.kvBuffers, pool.edgeBuffers
    ensures pool.Valid() && fresh(root) && fresh(pool.Repr() - old(pool.Repr()))
    ensures root.height == height && t.node == root.node && Pillar(t, height) && Created(old(pool.Mem()), pool.Mem(), t)
  {
    hide Created, Pool.Mem, Pool.Valid;
    root := new Root(pool);
    t := PushLevels(root, height, pool, old(pool.Mem()), Tree(root.node, [], []));
  }

  method PushLevels(root: Root, height: nat, pool: Pool, ghost m0: Mem, ghost t0: Tree) returns (ghost t: Tree)
    requires pool.Valid() && Created(m0, pool.Mem(), t0) && t0.node == root.node && root.height == 0 && Pillar(t0, 0)
    modifies root, pool, pool.nodes, pool.kvBuffers, pool.edgeBuffers
    ensures pool.Valid() && fresh(pool.Repr() - old(pool.Repr()))
    ensures root.height == height && t.node == root.node && Pillar(t, height) && Created(m0, pool.Mem(), t)
  {
    hide Created, Pool.Mem, Pool.Valid;
    t := t0;
    for i := 0 to height
      invariant pool.Valid() && fresh(pool.Repr() - old(pool.Repr())) && root.height == i && t.node == root.node
      invariant Pillar(t, i) && Created(m0, pool.Mem(), t)
    {
      t := RaisePillar(root, pool, m0, t, i);
    }
  }

  method RaisePillar(root: Root, pool: Pool, ghost m0: Mem, ghost t: Tree, ghost i: nat) returns (ghost t': Tree)
    requires pool.Valid() && Created(m0, pool.Mem(), t) && t.node == root.node && root.height == i && Pillar(t, i)
    modifies root, pool, pool.nodes, pool.kvBuffers, pool.edgeBuffers
    ensures pool.Valid() && fresh(pool.Repr() - old(pool.Repr()))
    ensures root.height == i + 1 && t'.node == root.node && Pillar(t', i + 1) && Created(m0, pool.Mem(), t')
  {
    hide Holds, Becomes, Pool.Mem, Pool.Valid;
    ghost var m := pool.Mem();
    t' := root.PushInternalLevel(pool, t);
    CreatedThen(m0, m, pool.Mem(), t, t');
  }

  lemma CreatedThen(m0: Mem, m: Mem, m': Mem, t: Tree, t': Tree)
    requires Created(m0, m, t) && Becomes(m, m', t, t')
    ensures Created(m0, m', t')
  {
    EditedTrans(m0, m, m', multiset{}, Bag(t), Bag(t'));
  }

  // ----- Cutting down from the root

  /** The path keeps to the last edges, and everything left of it is full. */
  ghost predicate RightAlong(t: Tree, h: nat, p: Path)
    decreases |p|
  {
    p == [] || (h > 0 && |t.kvs| <= CAPACITY && |t.kids| == |t.kvs| + 1 && p[0] == |t.kvs|
                && FullKids(t.kids[..p[0]], h - 1) && RightAlong(t.kids[p[0]], h - 1, p[1..]))
  }

  /** The path keeps to the first edges, and everything right of it is full. */
  ghost predicate LeftAlong(t: Tree, h: nat, q: Path)
    decreases |q|
  {
    q == [] || (h > 0 && |t.kvs| <= CAPACITY && |t.kids| == |t.kvs| + 1 && q[0] == 0
                && FullKids(t.kids[1..], h - 1) && LeftAlong(t.kids[0], h - 1, q[1..]))
  }

  lemma {:induction false} RightAlongEnd(t: Tree, h: nat, p: Path, s: Tree)
    requires RightAlong(t, h, p)
    ensures ValidPath(t, p) && |p| <= h && After(t, p) == [] && RightAlong(SetAt(t, p, s), h, p)
    ensures RightLoose(s, h - |p|) ==> RightLoose(SetAt(t, p, s), h)
    decreases |p|
  {
    if p != [] {
      RightAlongEnd(t.kids[p[0]], h - 1, p[1..], s);
      var k := SetAt(t.kids[p[0]], p[1..], s);
      assert t.kids[p[0] := k][..p[0]] == t.kids[..p[0]];
    }
  }

  lemma {:induction false} LeftAlongEnd(t: Tree, h: nat, q: Path, s: Tree)
    requires LeftAlong(t, h, q)
    ensures ValidPath(t, q) && |q| <= h && Before(t, q) == [] && LeftAlong(SetAt(t, q, s), h, q)
    ensures LeftLoose(s, h - |q|) ==> LeftLoose(SetAt(t, q, s), h)
    decreases |q|
  {
    if q != [] {
      LeftAlongEnd(t.kids[0], h - 1, q[1..], s);
      var k := SetAt(t.kids[0], q[1..], s);
      assert t.kids[0 := k][1..] == t.kids[1..];
    }
  }

  lemma {:induction false} RightAlongStep(t: Tree, h: nat, p: Path, i: nat)
    requires RightAlong(t, h, p) && ValidPath(t, p) && |p| < h
    requires var s := SubAt(t, p);
      |s.kvs| <= CAPACITY && |s.kids| == |s.kvs| + 1 && i == |s.kvs| && FullKids(s.kids[..i], h - |p| - 1)
    ensures RightAlong(t, h, p + [i])
    decreases |p|
  {
    var q := p + [i];
    if p == [] {
      assert q[1..] == [];
    } else {
      assert q[0] == p[0] && q[1..] == p[1..] + [i];
      RightAlongStep(t.kids[p[0]], h - 1, p[1..], i);
    }
  }

  lemma {:induction false} LeftAlongStep(t: Tree, h: nat, p: Path)
    requires LeftAlong(t, h, p) && ValidPath(t, p) && |p| < h
    requires var s := SubAt(t, p); |s.kvs| <= CAPACITY && |s.kids| == |s.kvs| + 1 && FullKids(s.kids[1..], h - |p| - 1)
    ensures LeftAlong(t, h, p + [0])
    decreases |p|
  {
    var q := p + [0];
    if p == [] {
      assert q[1..] == [];
    } else {
      assert q[0] == p[0] && q[1..] == p[1..] + [0];
      LeftAlongStep(t.kids[0], h - 1, p[1..]);
    }
  }

  /** The node's pairs are those left of and under edge `c`, and those moved to the pillar's node. */
  lemma SuffixFlat(s: Tree, r: Tree, c: nat, h: nat)
    requires Full(s, h, 0) && Pillar(r, h) && c <= |s.kvs|
    ensures SuffixPair(s, r) && Arity(s) && Flat(Head(s, c)) == LeftOf(s, c) + Under(s, c)
    ensures Flat(Suffixed(r, s, c)) == RightOf(s, c) && Flat(s) == Flat(Head(s, c)) + Flat(Suffixed(r, s, c))
  {
    hide Full, Pillar, Flat, LeftOf, Under, RightOf;
    SuffixKind(s, r, h);
    NodeParts(s, c);
    HeadFlat(s, c);
    MovedFlat(s, r, c, h);
  }

  lemma SuffixKind(s: Tree, r: Tree, h: nat)
    requires Full(s, h, 0) && Pillar(r, h)
    ensures SuffixPair(s, r) && Arity(s)
  {
  }

  lemma HeadFlat(s: Tree, c: nat)
    requires Arity(s) && c <= |s.kvs|
    ensures Flat(Head(s, c)) == LeftOf(s, c) + Under(s, c)
  {
    if s.kids != [] {
      WeaveLast(s.kids[..c + 1], s.kvs[..c]);
      LeftPrefix(s.kids[..c + 1], s.kvs[..c], s.kids, s.kvs, c);
    }
  }

  lemma MovedFlat(s: Tree, r: Tree, c: nat, h: nat)
    requires Full(s, h, 0) && Pillar(r, h) && Arity(s) && c <= |s.kvs|
    ensures Flat(Suffixed(r, s, c)) == RightOf(s, c)
  {
    if h > 0 {
      PillarEmpty(r.kids[0], h - 1);
      var w := Suffixed(r, s, c);
      WeaveAt(w.kids, w.kvs, 0);
      assert w.kids == [r.kids[0]] + s.kids[c + 1..];
      MovedRight(s, w, c);
    }
  }

  lemma MovedRight(s: Tree, w: Tree, c: nat)
    requires |s.kids| == |s.kvs| + 1 && c <= |s.kvs| && w.kvs == s.kvs[c..] && |w.kids| == |w.kvs| + 1
    requires w.kids[1..] == s.kids[c + 1..]
    ensures Right(w.kids, w.kvs, 0) == Right(s.kids, s.kvs, c)
  {
    RightSuffix(w.kids, w.kvs, 0, s.kids, s.kvs, c);
  }

  /** Both trees cut down to the nodes at `p` and `q`; the subtree at `p` is still to be cut, into the pillar at `q`. */
  ghost predicate CuttingAt(t: Tree, u: Tree, h: nat, p: Path, q: Path, f: seq<KV>, comp: Comparator) {
    && |p| == |q| <= h && RightAlong(t, h, p) && LeftAlong(u, h, q) && ValidPath(t, p) && ValidPath(u, q)
    && Full(SubAt(t, p), h - |p|, 0) && Pillar(SubAt(u, q), h - |q|)
    && f == Flat(t) + Flat(u)
    && Monotone(Flat(SubAt(t, p)), comp) && Cut(f, comp) == |Before(t, p)| + Cut(Flat(SubAt(t, p)), comp)
  }

  /** Both trees, cut. */
  ghost predicate CutApart(t: Tree, u: Tree, h: nat, f: seq<KV>, comp: Comparator) {
    RightLoose(t, h) && LeftLoose(u, h) && Flat(t) == f[..Cut(f, comp)] && Flat(u) == f[Cut(f, comp)..]
  }

  /** The edge found in the node at `p`: the place is under it, or at it in a leaf. */
  ghost predicate SplitEdge(s: Tree, c: nat, comp: Comparator) {
    && Arity(s) && c <= |s.kvs| && Monotone(Under(s, c), comp)
    && Cut(Flat(s), comp) == |LeftOf(s, c)| + Cut(Under(s, c), comp)
  }

  lemma SplitHere(s: Tree, comp: Comparator, i: nat)
    requires Arity(s) && i < |s.kvs| && Monotone(Flat(s), comp) && comp(s.kvs[i].key) == Equal
    ensures SplitEdge(s, i, comp)
  {
    PairFound(s, comp, i);
    UnderMonotone(s, i, comp);
    NodeParts(s, i);
    var a, b, f := LeftOf(s, i), Under(s, i), Flat(s);
    forall j | 0 <= j < |b| ensures comp(b[j].key) == Greater { assert f[|a| + j] == b[j]; }
    CutIs(b, comp, |b|);
  }

  lemma CutFlat(t: Tree, u: Tree, h: nat, p: Path, q: Path, f: seq<KV>, comp: Comparator, c: nat)
    requires CuttingAt(t, u, h, p, q, f, comp) && c <= |SubAt(t, p).kvs|
    ensures SuffixPair(SubAt(t, p), SubAt(u, q))
    ensures var (s, r) := (SubAt(t, p), SubAt(u, q));
      var (t', u') := (SetAt(t, p, Head(s, c)), SetAt(u, q, Suffixed(r, s, c)));
      f == Flat(t') + Flat(u') && Flat(t') == Before(t, p) + (LeftOf(s, c) + Under(s, c))
  {
    hide Full, Pillar, RightAlong, LeftAlong, Head, Suffixed, SetAt, SubAt, ValidPath, Before, After, Flat, LeftOf,
         Under, Cut, Monotone;
    var s, r := SubAt(t, p), SubAt(u, q);
    SuffixFlat(s, r, c, h - |p|);
    RightAlongEnd(t, h, p, s);
    LeftAlongEnd(u, h, q, r);
    PillarEmpty(r, h - |q|);
    FlatAt(t, p);
    FlatAt(u, q);
    SetAtFlat(t, p, Head(s, c));
    SetAtFlat(u, q, Suffixed(r, s, c));
    Reassociate(Before(t, p), Flat(Head(s, c)), Flat(Suffixed(r, s, c)), After(u, q));
  }

  lemma Reassociate(a: seq<KV>, b: seq<KV>, c: seq<KV>, d: seq<KV>)
    ensures (a + (b + c) + []) + ([] + [] + d) == (a + b + []) + ([] + c + d)
  {
  }

  lemma CutDownLeft(t: Tree, h: nat, p: Path, c: nat)
    requires RightAlong(t, h, p) && ValidPath(t, p) && |p| < h && Full(SubAt(t, p), h - |p|, 0)
    requires c <= |SubAt(t, p).kvs|
    ensures Arity(SubAt(t, p)) && c < |SubAt(t, p).kids|
    ensures var (s, t', p') := (SubAt(t, p), SetAt(t, p, Head(SubAt(t, p), c)), p + [c]);
      && RightAlong(t', h, p') && ValidPath(t', p') && SubAt(t', p') == s.kids[c] && Full(s.kids[c], h - |p| - 1, 0)
      && Before(t', p') == Before(t, p) + LeftOf(s, c)
  {
    var s := SubAt(t, p);
    var w := Head(s, c);
    CutHead(s, c, h - |p|);
    hide FullKids, Full, RightAlong, Left, LeftOf, SetAt;
    RightAlongEnd(t, h, p, w);
    SetAtPlace(t, p, w);
    Step(SetAt(t, p, w), p, c);
    RightAlongStep(SetAt(t, p, w), h, p, c);
  }

  lemma CutDownRight(u: Tree, h: nat, q: Path, s: Tree, c: nat)
    requires LeftAlong(u, h, q) && ValidPath(u, q) && |q| < h && Pillar(SubAt(u, q), h - |q|)
    requires Full(s, h - |q|, 0) && c <= |s.kvs|
    ensures Arity(s)
    ensures var (u', q') := (SetAt(u, q, Suffixed(SubAt(u, q), s, c)), q + [0]);
      && LeftAlong(u', h, q') && ValidPath(u', q') && Pillar(SubAt(u', q'), h - |q| - 1)
  {
    var r := SubAt(u, q);
    var v := Suffixed(r, s, c);
    CutTail(s, r, c, h - |q|);
    hide FullKids, Full, LeftAlong, Left, SetAt, Pillar;
    LeftAlongEnd(u, h, q, v);
    SetAtPlace(u, q, v);
    Step(SetAt(u, q, v), q, 0);
    LeftAlongStep(SetAt(u, q, v), h, q);
  }

  lemma CutDown(t: Tree, u: Tree, h: nat, p: Path, q: Path, f: seq<KV>, comp: Comparator, c: nat)
    requires CuttingAt(t, u, h, p, q, f, comp) && SplitEdge(SubAt(t, p), c, comp) && SubAt(t, p).kids != []
    ensures SuffixPair(SubAt(t, p), SubAt(u, q))
    ensures var (s, r) := (SubAt(t, p), SubAt(u, q));
      CuttingAt(SetAt(t, p, Head(s, c)), SetAt(u, q, Suffixed(r, s, c)), h, p + [c], q + [0], f, comp)
  {
    hide RightAlong, LeftAlong, FullKids, Flat, Cut, Monotone, SetAt, SubAt, ValidPath, Before, Full, Pillar, LeftOf,
         Suffixed, Head;
    var s, r := SubAt(t, p), SubAt(u, q);
    CutFlat(t, u, h, p, q, f, comp, c);
    CutInternal(s, h - |p|);
    CutDownLeft(t, h, p, c);
    CutDownRight(u, h, q, s, c);
    var t', u', p', q' := SetAt(t, p, Head(s, c)), SetAt(u, q, Suffixed(r, s, c)), p + [c], q + [0];
    assert |p'| == |p| + 1 && |q'| == |q| + 1;
    assert Cut(f, comp) == |Before(t', p')| + Cut(Flat(SubAt(t', p')), comp);
  }

  lemma CutInternal(s: Tree, h: nat)
    requires Full(s, h, 0) && s.kids != []
    ensures h > 0 && |s.kids| == |s.kvs| + 1
  {
  }

  lemma CutHead(s: Tree, c: nat, h: nat)
    requires h > 0 && Full(s, h, 0) && c <= |s.kvs|
    ensures Arity(s) && c < |s.kids|
    ensures var w := Head(s, c);
      && |w.kids| == |w.kvs| + 1 && |w.kvs| == c <= CAPACITY && w.kids[c] == s.kids[c]
      && FullKids(w.kids[..c], h - 1) && Full(s.kids[c], h - 1, 0) && Left(w.kids, w.kvs, c) == LeftOf(s, c)
  {
    var w := Head(s, c);
    assert w.kids[..c] == s.kids[0..c];
    FullKidsPart(s.kids, 0, c, h - 1);
    FullFrom(s.kids[c], h - 1, MIN_LEN, 0);
    LeftPrefix(w.kids, w.kvs, s.kids, s.kvs, c);
  }

  lemma CutTail(s: Tree, r: Tree, c: nat, h: nat)
    requires h > 0 && Full(s, h, 0) && Pillar(r, h) && c <= |s.kvs|
    ensures Arity(s)
    ensures var v := Suffixed(r, s, c);
      && |v.kids| == |v.kvs| + 1 && |v.kvs| <= CAPACITY && FullKids(v.kids[1..], h - 1) && Pillar(v.kids[0], h - 1)
  {
    var v := Suffixed(r, s, c);
    assert v.kids[1..] == s.kids[c + 1..|s.kids|];
    FullKidsPart(s.kids, c + 1, |s.kids|, h - 1);
  }

  lemma CutLeafLoose(s: Tree, r: Tree, c: nat, h: nat, comp: Comparator)
    requires Full(s, h, 0) && Pillar(r, h) && SplitEdge(s, c, comp) && s.kids == []
    ensures RightLoose(Head(s, c), h) && LeftLoose(Suffixed(r, s, c), h)
    ensures Cut(Flat(s), comp) == |LeftOf(s, c) + Under(s, c)|
  {
  }

  lemma Halves(f: seq<KV>, a: seq<KV>, b: seq<KV>, n: nat)
    requires f == a + b && n == |a|
    ensures a == f[..n] && b == f[n..]
  {
  }

  lemma CutLeaves(t: Tree, u: Tree, h: nat, p: Path, q: Path, f: seq<KV>, comp: Comparator, c: nat)
    requires CuttingAt(t, u, h, p, q, f, comp) && SplitEdge(SubAt(t, p), c, comp) && SubAt(t, p).kids == []
    ensures SuffixPair(SubAt(t, p), SubAt(u, q))
    ensures var (s, r) := (SubAt(t, p), SubAt(u, q));
      CutApart(SetAt(t, p, Head(s, c)), SetAt(u, q, Suffixed(r, s, c)), h, f, comp)
  {
    hide Full, Pillar, RightAlong, LeftAlong, RightLoose, LeftLoose, Head, Suffixed, SetAt, SubAt, ValidPath, Before,
         After,
      Flat, LeftOf, Under, Cut, Monotone;
    var s, r := SubAt(t, p), SubAt(u, q);
    CutFlat(t, u, h, p, q, f, comp, c);
    CutLeafLoose(s, r, c, h - |p|, comp);
    RightAlongEnd(t, h, p, Head(s, c));
    LeftAlongEnd(u, h, q, Suffixed(r, s, c));
    Halves(f, Flat(SetAt(t, p, Head(s, c))), Flat(SetAt(u, q, Suffixed(r, s, c))), Cut(f, comp));
  }

  // ----- In memory

  lemma CreatedBeside(m: Mem, m': Mem, t: Tree, u: Tree)
    requires Holds(m, t) && Created(m, m', u)
    ensures Divides(m, m', t, t, u)
  {
    hide Rep, Bag;
    var bt, bu := Bag(t), Bag(u);
    assert forall n :: n in bt ==> n in m by { RepIn(m, t); }
    EditedBeside(m, m', multiset{}, bu, bt);
    HoldsKept(m, m', t);
    OnceJoin(bt, bu);
    assert multiset{} + bt == bt && bu + bt == bt + bu;
  }

  /** The edge at which to cut a node: before the pair the comparator hits, or where the place lies. */
  method FindSplitEdge(node: Node, comp: Comparator, pool: Pool, ghost t: Tree, ghost p: Path) returns (i: nat)
    requires pool.Valid() && Holds(pool.Mem(), t) && At(t, p, node) && Monotone(Flat(SubAt(t, p)), comp)
    ensures SplitEdge(SubAt(t, p), i, comp)
  {
    hide Holds, SubAt, ValidPath, Monotone, SplitEdge, Pool.Mem, Pool.Valid;
    ChildArity(pool.Mem(), t, p);
    var r, _ := FindKeyIndex(node, comp, 0, pool, t, p);
    i := r.idx;
    if r.KvIndex? { SplitHere(SubAt(t, p), comp, i); } else { SplitBetween(SubAt(t, p), comp, i); }
  }

  lemma SplitBetween(s: Tree, comp: Comparator, i: nat)
    requires Arity(s) && i <= |s.kvs| && Monotone(Flat(s), comp)
    requires (i > 0 ==> comp(s.kvs[i - 1].key) == Greater) && (i < |s.kvs| ==> comp(s.kvs[i].key) == Less)
    ensures SplitEdge(s, i, comp)
  {
    EdgeFound(s, comp, i);
  }

  lemma CuttingNow(t: Tree, u: Tree, h: nat, p: Path, q: Path, f: seq<KV>, comp: Comparator)
    requires CuttingAt(t, u, h, p, q, f, comp)
    ensures Monotone(Flat(SubAt(t, p)), comp)
    ensures SuffixPair(SubAt(t, p), SubAt(u, q)) && (SubAt(t, p).kids != [] ==> |p| < h && SubAt(u, q).kids != [])
  {
    SuffixKind(SubAt(t, p), SubAt(u, q), h - |p|);
  }

  lemma CutRoots(t: Tree, p: Path, u: Tree, q: Path, c: nat)
    requires ValidPath(t, p) && ValidPath(u, q) && Arity(SubAt(t, p)) && c <= |SubAt(t, p).kvs|
    ensures SetAt(t, p, Head(SubAt(t, p), c)).node == t.node
    ensures SetAt(u, q, Suffixed(SubAt(u, q), SubAt(t, p), c)).node == u.node
    ensures var t' := SetAt(t, p, Head(SubAt(t, p), c)); At(t', p, SubAt(t, p).node)
    ensures var u' := SetAt(u, q, Suffixed(SubAt(u, q), SubAt(t, p), c)); At(u', q, SubAt(u, q).node)
  {
    SetAtPlace(t, p, Head(SubAt(t, p), c));
    SetAtPlace(u, q, Suffixed(SubAt(u, q), SubAt(t, p), c));
  }

  /** Cuts the pair of nodes at `p` and `q`; the next pair is under the edge of the cut. */
  method CutNode(left: Node, right: Node, comp: Comparator, pool: Pool, ghost m0: Mem, ghost t0: Tree,
                 ghost t: Tree, ghost u: Tree, ghost h: nat, ghost p: Path, ghost q: Path, ghost f: seq<KV>)
    returns (i: nat, leaf: bool, ghost t': Tree, ghost u': Tree)
    requires pool.Valid() && Divides(m0, pool.Mem(), t0, t, u) && At(t, p, left) && At(u, q, right)
    requires CuttingAt(t, u, h, p, q, f, comp)
    modifies pool.nodes, pool.kvBuffers, pool.edgeBuffers
    ensures pool.Valid() && Divides(m0, pool.Mem(), t0, t', u') && t'.node == t.node && u'.node == u.node
    ensures At(t', p, left) && At(u', q, right)
    ensures leaf ==> CutApart(t', u', h, f, comp)
    ensures !leaf ==> CuttingAt(t', u', h, p + [i], q + [0], f, comp) && |p| < h
  {
    hide Holds, SubAt, ValidPath, Divides, HoldsBoth, Trades, CuttingAt, CutApart, SplitEdge, Head, Suffixed, Flat,
         Monotone, Pool.Mem, Pool.Valid;
    ghost var m := pool.Mem();
    DividesHolds(m0, m, t0, t, u);
    CuttingNow(t, u, h, p, q, f, comp);
    i := FindSplitEdge(left, comp, pool, t, p);
    SplitEdgeBounds(SubAt(t, p), i, comp);
    leaf := IsLeaf(left, pool, t, p);
    if leaf { CutLeaves(t, u, h, p, q, f, comp, i); } else { CutDown(t, u, h, p, q, f, comp, i); }
    CutRoots(t, p, u, q, i);
    t', u' := MoveSuffix(left, i, right, pool, t, p, u, q);
    DividesTrades(m0, m, pool.Mem(), t0, t, u, t', u');
  }

  lemma SplitEdgeBounds(s: Tree, i: nat, comp: Comparator)
    requires SplitEdge(s, i, comp)
    ensures Arity(s) && i <= |s.kvs|
  {
  }

  /** The two children under the cut. */
  method DescendCut(left: Node, i: nat, right: Node, pool: Pool, ghost m0: Mem, ghost t0: Tree,
                    ghost t: Tree, ghost u: Tree, ghost h: nat, ghost p: Path, ghost q: Path, ghost f: seq<KV>,
                    ghost comp: Comparator)
    returns (l: Node, r: Node)
    requires pool.Valid() && Divides(m0, pool.Mem(), t0, t, u) && At(t, p, left) && At(u, q, right)
    requires CuttingAt(t, u, h, p + [i], q + [0], f, comp)
    ensures At(t, p + [i], l) && At(u, q + [0], r)
  {
    hide Holds, SubAt, ValidPath, Divides, HoldsBoth, CuttingAt, Pool.Mem, Pool.Valid;
    DividesHolds(m0, pool.Mem(), t0, t, u);
    CutEdges(t, u, h, p, q, i, f, comp);
    l := Descend(left, i, pool, t, p);
    r := Descend(right, 0, pool, u, q);
  }

  lemma CutEdges(t: Tree, u: Tree, h: nat, p: Path, q: Path, i: nat, f: seq<KV>, comp: Comparator)
    requires CuttingAt(t, u, h, p + [i], q + [0], f, comp) && ValidPath(t, p) && ValidPath(u, q)
    ensures i < |SubAt(t, p).kids| && 0 < |SubAt(u, q).kids|
  {
    StepUp(t, p + [i]);
    StepUp(u, q + [0]);
    assert (p + [i])[..|p + [i]| - 1] == p && (q + [0])[..|q + [0]| - 1] == q;
  }

  /** Cuts the pair of trees from their roots down to a leaf. */
  method CutTrees(root: Root, right: Root, comp: Comparator, pool: Pool, ghost m0: Mem, ghost t0: Tree, ghost u0: Tree,
                  ghost f: seq<KV>)
    returns (ghost t: Tree, ghost u: Tree)
    requires pool.Valid() && Divides(m0, pool.Mem(), t0, t0, u0) && root.node == t0.node && right.node == u0.node
    requires CuttingAt(t0, u0, root.height, [], [], f, comp)
    modifies pool.nodes, pool.kvBuffers, pool.edgeBuffers
    ensures pool.Valid() && Divides(m0, pool.Mem(), t0, t, u) && t.node == t0.node && u.node == u0.node
    ensures CutApart(t, u, root.height, f, comp)
  {
    hide Holds, SubAt, ValidPath, Divides, CuttingAt, CutApart, Pool.Mem, Pool.Valid;
    var leftNode, rightNode := root.node, right.node;
    ghost var p: Path, q: Path, h := [], [], root.height;
    t, u := t0, u0;
    AtRoot(t);
    AtRoot(u);
    while true
      invariant pool.Valid() && Divides(m0, pool.Mem(), t0, t, u) && t.node == t0.node && u.node == u0.node
      invariant At(t, p, leftNode) && At(u, q, rightNode) && CuttingAt(t, u, h, p, q, f, comp)
      decreases h - |p|
    {
      var i, leaf;
      i, leaf, t, u := CutNode(leftNode, rightNode, comp, pool, m0, t0, t, u, h, p, q, f);
      if leaf { return; }
      leftNode, rightNode := DescendCut(leftNode, i, rightNode, pool, m0, t0, t, u, h, p, q, f, comp);
      p, q := p + [i], q + [0];
    }
  }

  lemma CutStart(t: Tree, u: Tree, h: nat, comp: Comparator)
    requires Balanced(t, h) && Pillar(u, h) && Monotone(Flat(t), comp)
    ensures CuttingAt(t, u, h, [], [], Flat(t), comp)
  {
    FullFrom(t, h, if h == 0 then 0 else 1, 0);
    PillarEmpty(u, h);
    assert Flat(t) + [] == Flat(t);
  }

  /** Splits off a tree with the pairs from the place on. */
  method SplitOff(root: Root, comp: Comparator, pool: Pool, ghost t: Tree)
    returns (right: Root, ghost t': Tree, ghost u: Tree)
    requires pool.Valid() && Holds(pool.Mem(), t) && t.node == root.node && Balanced(t, root.height)
    requires Monotone(Flat(t), comp)
    modifies root, pool, pool.nodes, pool.kvBuffers, pool.edgeBuffers
    ensures pool.Valid() && fresh(right) && fresh(pool.Repr() - old(pool.Repr()))
    ensures Divides(old(pool.Mem()), pool.Mem(), t, t', u)
    ensures t'.node == root.node && Balanced(t', root.height) && u.node == right.node && Balanced(u, right.height)
    ensures Flat(t') == Flat(t)[..Cut(Flat(t), comp)] && Flat(u) == Flat(t)[Cut(Flat(t), comp)..]
  {
    hide Holds, Divides, Created, Balanced, CuttingAt, Pillar, Flat, Monotone, Cut, RightLoose, LeftLoose, Pool.Mem,
         Pool.Valid;
    ghost var m := pool.Mem();
    right, u := NewPillar(root.height, pool);
    CreatedBeside(m, pool.Mem(), t, u);
    CutStart(t, u, root.height, comp);
    t', u := CutTrees(root, right, comp, pool, m, t, u, Flat(t));
    t' := FixLeftPart(root, pool, m, t, t', u);
    u := FixRightPart(right, pool, m, t, t', u);
  }

  method FixLeftPart(root: Root, pool: Pool, ghost m0: Mem, ghost t0: Tree, ghost t: Tree, ghost u: Tree)
    returns (ghost t': Tree)
    requires pool.Valid() && Divides(m0, pool.Mem(), t0, t, u) && t.node == root.node && RightLoose(t, root.height)
    modifies root, pool, pool.nodes, pool.kvBuffers, pool.edgeBuffers
    ensures pool.Valid() && pool.Repr() <= old(pool.Repr()) && Divides(m0, pool.Mem(), t0, t', u)
    ensures t'.node == root.node && Balanced(t', root.height) && Flat(t') == Flat(t)
  {
    hide Holds, Divides, Becomes, Balanced, RightLoose, Pool.Mem, Pool.Valid;
    ghost var m := pool.Mem();
    DividesHolds(m0, m, t0, t, u);
    t' := FixRightBorder(root, pool, t);
    DividesFirst(m0, m, pool.Mem(), t0, t, u, t');
  }

  method FixRightPart(root: Root, pool: Pool, ghost m0: Mem, ghost t0: Tree, ghost t: Tree, ghost u: Tree)
    returns (ghost u': Tree)
    requires pool.Valid() && Divides(m0, pool.Mem(), t0, t, u) && u.node == root.node && LeftLoose(u, root.height)
    modifies root, pool, pool.nodes, pool.kvBuffers, pool.edgeBuffers
    ensures pool.Valid() && pool.Repr() <= old(pool.Repr()) && Divides(m0, pool.Mem(), t0, t, u')
    ensures u'.node == root.node && Balanced(u', root.height) && Flat(u') == Flat(u)
  {
    hide Holds, Divides, Becomes, Balanced, LeftLoose, Pool.Mem, Pool.Valid;
    ghost var m := pool.Mem();
    DividesHolds(m0, m, t0, t, u);
    u' := FixLeftBorder(root, pool, u);
    DividesSecond(m0, m, pool.Mem(), t0, t, u, u');
  }
}
