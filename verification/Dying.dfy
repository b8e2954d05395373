/** Walking a tree from both ends while releasing the nodes left behind. */
module Dying {
  import opened Nodes
  import opened Trees
  import opened Memory
  import opened Edits
  import opened Places
  import opened Rows
  import Cells
  import opened Navigate

  // ----- Order of places

  /** The place `a` lies left of `b`, neither above nor below it. */
  ghost predicate Precedes(a: Path, b: Path) {
    a != [] && b != [] && (a[0] < b[0] || (a[0] == b[0] && Precedes(a[1..], b[1..])))
  }

  /** The place `x` is `c` or lies below it. */
  ghost predicate Below(x: Path, c: Path) {
    c == [] || (x != [] && x[0] == c[0] && Below(x[1..], c[1..]))
  }

  ghost predicate Zeros(w: Path) { forall i :: 0 <= i < |w| ==> w[i] == 0 }

  lemma {:induction false} ZerosFirst(z: Path, x: Path)
    requires Zeros(z)
    ensures !Precedes(x, z)
    decreases |z|
  {
    if x != [] && z != [] { ZerosFirst(z[1..], x[1..]); }
  }

  lemma {:induction false} RightmostLast(s: Tree, w: Path, x: Path)
    requires Rightmost(s, w) && ValidPath(s, x)
    ensures !Precedes(w, x)
    decreases |w|
  {
    if x != [] && w != [] && x[0] == w[0] { RightmostLast(s.kids[w[0]], w[1..], x[1..]); }
  }

  /** Left of the first place under edge `i + 1` are the places left of edge `i` and those under it. */
  lemma {:induction false} BeforeNextEdge(x: Path, r: Path, i: nat, z: Path)
    requires Zeros(z)
    ensures Precedes(x, r + [i + 1] + z) <==> Precedes(x, r + [i]) || Below(x, r + [i])
    decreases |r|
  {
    var a, b := r + [i + 1] + z, r + [i];
    if r == [] {
      assert a[1..] == z && b[1..] == [];
      if x != [] { ZerosFirst(z, x[1..]); }
    } else {
      assert a[1..] == r[1..] + [i + 1] + z && b[1..] == r[1..] + [i];
      if x != [] { BeforeNextEdge(x[1..], r[1..], i, z); }
    }
  }

  lemma {:induction false} AfterPreviousEdge(t: Tree, x: Path, r: Path, i: nat, w: Path)
    requires ValidPath(t, x) && ValidPath(t, r + [i]) && Rightmost(SubAt(t, r + [i]), w)
    ensures Precedes(r + [i] + w, x) <==> Precedes(r + [i + 1], x) || Below(x, r + [i + 1])
    decreases |r|
  {
    var a, b, c := r + [i] + w, r + [i + 1], r + [i];
    if r == [] {
      OneStep(t, i);
      assert a[1..] == w && b[1..] == [] && c == [i];
      if x != [] && x[0] == i { RightmostLast(t.kids[i], w, x[1..]); }
    } else {
      assert a[1..] == r[1..] + [i] + w && b[1..] == r[1..] + [i + 1] && c[1..] == r[1..] + [i];
      if x != [] && x[0] == r[0] { AfterPreviousEdge(t.kids[r[0]], x[1..], r[1..], i, w); }
    }
  }

  /** Below a node whose last edge is `r + [i]` are the node itself and the places left of and under that edge. */
  lemma {:induction false} BelowNode(t: Tree, x: Path, r: Path, i: nat)
    requires ValidPath(t, x) && ValidPath(t, r) && |SubAt(t, r).kids| <= i + 1
    ensures Precedes(x, r) || Below(x, r) <==> x == r || Precedes(x, r + [i]) || Below(x, r + [i])
    decreases |r|
  {
    var b := r + [i];
    if r == [] {
      assert b[1..] == [];
    } else {
      assert b[1..] == r[1..] + [i];
      if x != [] {
        if x[0] == r[0] { BelowNode(t.kids[r[0]], x[1..], r[1..], i); }
        assert x == r <==> x[0] == r[0] && x[1..] == r[1..] by { assert x == [x[0]] + x[1..] && r == [r[0]] + r[1..]; }
      }
    }
  }

  lemma {:induction false} BelowNodeBack(t: Tree, x: Path, r: Path)
    requires ValidPath(t, x) && ValidPath(t, r)
    ensures Precedes(r, x) || Below(x, r) <==> x == r || Precedes(r + [0], x) || Below(x, r + [0])
    decreases |r|
  {
    var b := r + [0];
    if r == [] {
      assert b[1..] == [];
    } else {
      assert b[1..] == r[1..] + [0];
      if x != [] {
        if x[0] == r[0] { BelowNodeBack(t.kids[r[0]], x[1..], r[1..]); }
        assert x == r <==> x[0] == r[0] && x[1..] == r[1..] by { assert x == [x[0]] + x[1..] && r == [r[0]] + r[1..]; }
      }
    }
  }

  lemma {:induction false} BelowLeaf(t: Tree, x: Path, r: Path)
    requires ValidPath(t, x) && ValidPath(t, r) && SubAt(t, r).kids == []
    ensures Below(x, r) <==> x == r
    decreases |r|
  {
    if r != [] && x != [] {
      if x[0] == r[0] { BelowLeaf(t.kids[r[0]], x[1..], r[1..]); }
      assert x == r <==> x[0] == r[0] && x[1..] == r[1..] by { assert x == [x[0]] + x[1..] && r == [r[0]] + r[1..]; }
    }
  }

  /** What lies left also comes earlier. */
  lemma {:induction false} PrecedesBefore(t: Tree, a: Path, b: Path)
    requires ValidPath(t, a) && ValidPath(t, b) && Precedes(a, b)
    ensures |Before(t, a)| + |Flat(SubAt(t, a))| < |Before(t, b)|
    decreases |a|
  {
    var i, j := a[0], b[0];
    FlatAt(t.kids[i], a[1..]);
    if i < j {
      LeftGrows(t.kids, t.kvs, i, j);
    } else {
      PrecedesBefore(t.kids[i], a[1..], b[1..]);
    }
  }

  lemma {:induction false} PrecedesNotPrefix(r: Path, p: Path)
    requires Below(p, r)
    ensures !Precedes(r, p) && !Precedes(p, r)
    decreases |r|
  {
    if r != [] { PrecedesNotPrefix(r[1..], p[1..]); }
  }

  lemma {:induction false} PrefixBelow(r: Path, w: Path)
    ensures Below(r + w, r)
    decreases |r|
  {
    if r != [] {
      assert (r + w)[1..] == r[1..] + w;
      PrefixBelow(r[1..], w);
    }
  }

  // ----- What is left of the tree

  /** How far nodes have been released: those beside the place, on the far side, and if `through` also those at or
      below it. */
  datatype Reach = Reach(path: Path, through: bool)

  ghost predicate FreedLeft(x: Path, c: Reach) { Precedes(x, c.path) || (c.through && Below(x, c.path)) }

  ghost predicate FreedRight(x: Path, c: Reach) { Precedes(c.path, x) || (c.through && Below(x, c.path)) }

  ghost predicate LiveAt(x: Path, f: Reach, b: Reach) { !FreedLeft(x, f) && !FreedRight(x, b) }

  lemma {:induction false} BesideOrBelow(a: Path, b: Path)
    ensures Precedes(a, b) || Precedes(b, a) || Below(a, b) || Below(b, a)
    decreases |a|
  {
    if a != [] && b != [] && a[0] == b[0] { BesideOrBelow(a[1..], b[1..]); }
  }

  lemma {:induction false} BelowWithin(t: Tree, p: Path, x: Path)
    requires ValidPath(t, p) && ValidPath(t, x) && Below(p, x)
    ensures |Before(t, x)| <= |Before(t, p)|
    ensures |Before(t, p)| + |Flat(SubAt(t, p))| <= |Before(t, x)| + |Flat(SubAt(t, x))|
    decreases |x|
  {
    if x == [] { FlatAt(t, p); } else { BelowWithin(t.kids[x[0]], p[1..], x[1..]); }
  }

  /** Between two leaf edges, just those nodes are not released that have a gap between the edges. */
  lemma LiveBetween(t: Tree, p: Path, e: Handle, q: Path, f: Handle, x: Path)
    requires LeafEdge(t, p, e) && LeafEdge(t, q, f) && ValidPath(t, x)
    ensures LiveAt(x, Reach(p, false), Reach(q, false)) <==>
      Gap(t, p, e) <= |Before(t, x)| + |Flat(SubAt(t, x))| && |Before(t, x)| <= Gap(t, q, f)
  {
    LeftOfEdge(t, p, e, x);
    LeftOfEdge(t, q, f, x);
  }

  lemma LeftOfEdge(t: Tree, p: Path, e: Handle, x: Path)
    requires LeafEdge(t, p, e) && ValidPath(t, x)
    ensures Precedes(x, p) <==> |Before(t, x)| + |Flat(SubAt(t, x))| < Gap(t, p, e)
    ensures Precedes(p, x) <==> Gap(t, p, e) < |Before(t, x)|
  {
    BesideOrBelow(x, p);
    if Precedes(x, p) {
      PrecedesBefore(t, x, p);
    } else if Precedes(p, x) {
      PrecedesBefore(t, p, x);
    } else {
      if Below(x, p) { BelowLeaf(t, x, p); }
      BelowWithin(t, p, x);
    }
  }

  /** Memory `m` still holds what memory `m0` held of the tree, but for the nodes released on both sides. */
  ghost predicate Remains(m0: Mem, m: Mem, t: Tree, f: Reach, b: Reach) {
    && Holds(m0, t)
    && (forall x: Path :: ValidPath(t, x) ==> (SubAt(t, x).node in m <==> LiveAt(x, f, b)))
    && (forall n :: n in Bag(t) && n in m ==> n in m0 && m[n] == m0[n])
  }

  /** Only nodes of `bag` were released, and nothing else changed. */
  ghost predicate Shrunk(m: Mem, m': Mem, bag: multiset<Node>) {
    && (forall n :: n in m && n !in bag ==> n in m')
    && (forall n :: n in m' ==> n in m && m'[n] == m[n])
  }

  lemma ShrunkTrans(m: Mem, m': Mem, m'': Mem, bag: multiset<Node>)
    requires Shrunk(m, m', bag) && Shrunk(m', m'', bag)
    ensures Shrunk(m, m'', bag)
  {
  }

  lemma RemainsAll(m: Mem, t: Tree)
    requires Holds(m, t)
    ensures Remains(m, m, t, Reach([], false), Reach([], false))
  {
    forall x: Path | ValidPath(t, x) ensures SubAt(t, x).node in m && LiveAt(x, Reach([], false), Reach([], false)) {
      RepSub(m, t, x);
    }
  }

  /** What a node says that is not released yet. */
  lemma LiveNode(m0: Mem, m: Mem, t: Tree, f: Reach, b: Reach, x: Path)
    requires Remains(m0, m, t, f, b) && ValidPath(t, x) && LiveAt(x, f, b)
    ensures var s := SubAt(t, x);
      && s.node in m && m[s.node].kvs == s.kvs && m[s.node].edges == KidNodes(s.kids) && Arity(s)
      && (x == [] <==> m[s.node].parent == null)
      && (x != [] ==> Above(t, x, m[s.node].parent, m[s.node].parentIdx))
  {
    SubNode(m0, t, x);
    NodeIn(t, x);
    if x != [] {
      ParentAt(m0, t, x);
      StepUp(t, x);
    }
  }

  lemma SameFreed(m0: Mem, m: Mem, t: Tree, f: Reach, b: Reach, f': Reach, b': Reach)
    requires Remains(m0, m, t, f, b)
    requires forall x: Path :: ValidPath(t, x) ==> (LiveAt(x, f, b) <==> LiveAt(x, f', b'))
    ensures Remains(m0, m, t, f', b')
  {
  }

  /** Releasing the node at `r`. */
  lemma Released(m0: Mem, m: Mem, t: Tree, f: Reach, b: Reach, r: Path, f': Reach, b': Reach)
    requires Remains(m0, m, t, f, b) && ValidPath(t, r) && LiveAt(r, f, b)
    requires forall x: Path :: ValidPath(t, x) ==> (LiveAt(x, f', b') <==> LiveAt(x, f, b) && x != r)
    ensures Remains(m0, m - {SubAt(t, r).node}, t, f', b') && Shrunk(m, m - {SubAt(t, r).node}, Bag(t))
  {
    hide Bag, Once, LiveAt;
    var n := SubAt(t, r).node;
    NodeIn(t, r);
    forall x: Path | ValidPath(t, x) ensures SubAt(t, x).node in m - {n} <==> LiveAt(x, f', b') {
      if SubAt(t, x).node == n { NodeAtOnePlace(t, x, r); }
    }
  }

  // ----- From the front

  ghost predicate FrontFrom(t: Tree, f: Reach, lo: nat) {
    !f.through && ValidPath(t, f.path) && |Before(t, f.path)| <= lo
  }

  ghost predicate BackFrom(t: Tree, b: Reach, hi: nat) {
    !b.through && ValidPath(t, b.path) && hi <= |Before(t, b.path)| + |Flat(SubAt(t, b.path))|
  }

  lemma NotFreedRight(t: Tree, x: Path, b: Reach, hi: nat)
    requires BackFrom(t, b, hi) && ValidPath(t, x) && |Before(t, x)| <= hi
    ensures !FreedRight(x, b)
  {
    if Precedes(b.path, x) { PrecedesBefore(t, b.path, x); }
  }

  lemma NotFreedLeft(t: Tree, x: Path, f: Reach, lo: nat)
    requires FrontFrom(t, f, lo) && ValidPath(t, x) && lo <= |Before(t, x)| + |Flat(SubAt(t, x))|
    ensures !FreedLeft(x, f)
  {
    if Precedes(x, f.path) { PrecedesBefore(t, x, f.path); }
  }

  /** On the way up from the front: nodes are released up to and including edge `i` of the node at `r`, in a leaf up
      to it. */
  ghost function UpFront(t: Tree, r: Path, i: nat): Reach
    requires ValidPath(t, r)
  {
    if SubAt(t, r).kids == [] then Reach(r, false) else Reach(r + [i], true)
  }

  lemma UpFrontLive(t: Tree, r: Path, i: nat, b: Reach, lo: nat, hi: nat)
    requires ValidPath(t, r) && Arity(SubAt(t, r)) && i <= |SubAt(t, r).kvs| && End(t, r, i) == lo <= hi
    requires BackFrom(t, b, hi)
    ensures LiveAt(r, UpFront(t, r, i), b)
  {
    NotFreedRight(t, r, b, hi);
    PrefixBelow(r, []);
    assert r + [] == r;
    PrecedesNotPrefix(r, r);
    PrefixBelow(r, [i]);
    PrecedesNotPrefix(r, r + [i]);
    BelowLonger(r, r + [i]);
  }

  lemma {:induction false} BelowLonger(x: Path, c: Path)
    requires |x| < |c|
    ensures !Below(x, c)
    decreases |x|
  {
    if x != [] { BelowLonger(x[1..], c[1..]); }
  }

  /** Releasing a node whose last edge was reached goes on at its parent. */
  lemma UpFrontRelease(t: Tree, r: Path, i: nat, b: Reach, x: Path)
    requires ValidPath(t, r) && Arity(SubAt(t, r)) && i == |SubAt(t, r).kvs| && ValidPath(t, x)
    requires LiveAt(r, UpFront(t, r, i), b)
    ensures LiveAt(x, Reach(r, true), b) <==> LiveAt(x, UpFront(t, r, i), b) && x != r
  {
    if SubAt(t, r).kids == [] { BelowLeaf(t, x, r); } else { BelowNode(t, x, r, i); }
    BelowSelf(r);
  }

  lemma {:induction false} BelowSelf(r: Path)
    ensures Below(r, r)
    decreases |r|
  {
    if r != [] { BelowSelf(r[1..]); }
  }

  /** Releases a node and returns the edge of its parent that led to it, if it has a parent. */
  method DeallocateAndAscend(node: Node, pool: Pool, ghost m0: Mem, ghost t: Tree, ghost r: Path,
                             ghost f: Reach, ghost b: Reach, ghost f': Reach, ghost b': Reach)
    returns (parent: Node?, i: nat)
    requires pool.Valid() && Remains(m0, pool.Mem(), t, f, b) && At(t, r, node) && LiveAt(r, f, b)
    requires forall x: Path :: ValidPath(t, x) ==> (LiveAt(x, f', b') <==> LiveAt(x, f, b) && x != r)
    modifies pool
    ensures pool.Valid() && pool.Repr() <= old(pool.Repr())
    ensures Remains(m0, pool.Mem(), t, f', b') && Shrunk(old(pool.Mem()), pool.Mem(), Bag(t))
    ensures parent == null <==> r == []
    ensures parent != null ==> Above(t, r, parent, i)
  {
    hide Remains, LiveAt, Shrunk, Above, SubAt, ValidPath;
    ghost var m := pool.Mem();
    LiveNode(m0, m, t, f, b, r);
    Released(m0, m, t, f, b, r, f', b');
    parent, i := Cells.ReadParent(node, pool);
    pool.Release(node);
  }

  /** Releases the node at `r`, whose last edge was reached, and goes up to the edge that led to it. */
  method LeaveFront(node: Node, i: nat, pool: Pool, ghost m0: Mem, ghost t: Tree, ghost r: Path, ghost b: Reach,
                    ghost lo: nat, ghost hi: nat)
    returns (parent: Node?, j: nat)
    requires pool.Valid() && At(t, r, node) && Remains(m0, pool.Mem(), t, UpFront(t, r, i), b) && BackFrom(t, b, hi)
    requires Arity(SubAt(t, r)) && i == |SubAt(t, r).kvs| && End(t, r, i) == lo <= hi
    modifies pool
    ensures pool.Valid() && pool.Repr() <= old(pool.Repr()) && Shrunk(old(pool.Mem()), pool.Mem(), Bag(t))
    ensures parent == null <==> r == []
    ensures Remains(m0, pool.Mem(), t, Reach(r, true), b)
    ensures parent != null ==> Above(t, r, parent, j)
    ensures parent != null ==> var q := r[..|r| - 1];
      && Arity(SubAt(t, q)) && j <= |SubAt(t, q).kvs| && End(t, q, j) == lo && UpFront(t, q, j) == Reach(r, true)
  {
    hide Remains, LiveAt, Shrunk, Flat, Before, Pool.Mem, Pool.Valid;
    UpFrontLive(t, r, i, b, lo, hi);
    forall x: Path | ValidPath(t, x)
      ensures LiveAt(x, Reach(r, true), b) <==> LiveAt(x, UpFront(t, r, i), b) && x != r
    {
      UpFrontRelease(t, r, i, b, x);
    }
    parent, j := DeallocateAndAscend(node, pool, m0, t, r, UpFront(t, r, i), b, Reach(r, true), b);
    if parent != null { EdgeAbove(t, r, parent, j); }
  }

  /** What the walk from the front has reached: the next pair, right of edge `i` of the node at `r`. */
  ghost predicate AtFront(m0: Mem, m: Mem, t: Tree, node: Node, i: nat, r: Path, b: Reach, lo: nat) {
    && At(t, r, node) && Arity(SubAt(t, r)) && i <= |SubAt(t, r).kvs| && End(t, r, i) == lo
    && Remains(m0, m, t, UpFront(t, r, i), b)
  }

  method FrontLen(node: Node, pool: Pool, ghost m0: Mem, ghost t: Tree, ghost r: Path, ghost i: nat, ghost b: Reach,
                  ghost lo: nat, ghost hi: nat)
    returns (len: nat)
    requires pool.Valid() && AtFront(m0, pool.Mem(), t, node, i, r, b, lo) && lo < hi <= |Flat(t)| && BackFrom(t, b, hi)
    ensures At(t, r, node) && len == |SubAt(t, r).kvs|
  {
    hide Remains, LiveAt, Flat, Before, SubAt, ValidPath, AtFront, BackFrom, End;
    AtFrontParts(m0, pool.Mem(), t, node, i, r, b, lo);
    UpFrontLive(t, r, i, b, lo, hi);
    LiveNode(m0, pool.Mem(), t, UpFront(t, r, i), b, r);
    len := Cells.ReadLen(node, pool);
  }

  /** Goes up from a leaf edge to the next pair, releasing the nodes left behind. */
  method UpToPair(edge: Handle, pool: Pool, ghost m0: Mem, ghost t: Tree, ghost p: Path, ghost b: Reach, ghost lo: nat,
                  ghost hi: nat)
    returns (kv: Handle, ghost r: Path)
    requires pool.Valid() && LeafEdge(t, p, edge) && Gap(t, p, edge) == lo < hi <= |Flat(t)| && BackFrom(t, b, hi)
    requires Remains(m0, pool.Mem(), t, Reach(p, false), b)
    modifies pool
    ensures pool.Valid() && pool.Repr() <= old(pool.Repr()) && Shrunk(old(pool.Mem()), pool.Mem(), Bag(t))
    ensures Kv(t, r, kv) && AtFront(m0, pool.Mem(), t, kv.node, kv.idx, r, b, lo)
  {
    hide Remains, LiveAt, Shrunk, Flat, Before, SubAt, ValidPath, AtFront, BackFrom, End, Pool.Mem, Pool.Valid;
    var node: Node, i := edge.node, edge.idx;
    r := p;
    FrontStart(m0, pool.Mem(), t, edge, p, b, lo);
    ShrunkNone(pool.Mem(), Bag(t));
    while true
      invariant pool.Valid() && pool.Repr() <= old(pool.Repr()) && Shrunk(old(pool.Mem()), pool.Mem(), Bag(t))
      invariant AtFront(m0, pool.Mem(), t, node, i, r, b, lo)
      decreases |r|
    {
      ghost var m := pool.Mem();
      AtFrontParts(m0, m, t, node, i, r, b, lo);
      var len := FrontLen(node, pool, m0, t, r, i, b, lo, hi);
      if i < len { return Handle(node, i), r; }
      var parent, j := LeaveFront(node, i, pool, m0, t, r, b, lo, hi);
      ShrunkTrans(old(pool.Mem()), m, pool.Mem(), Bag(t));
      if parent == null { LastOfRoot(t, r, i, lo); }
      FrontAbove(m0, pool.Mem(), t, r, parent, j, b, lo);
      node, i, r := parent, j, r[..|r| - 1];
    }
  }

  lemma LastOfRoot(t: Tree, r: Path, i: nat, lo: nat)
    requires r == [] && ValidPath(t, r) && Arity(SubAt(t, r)) && i == |SubAt(t, r).kvs| && End(t, r, i) == lo
    ensures lo == |Flat(t)|
  {
    EdgesOfRoot(t, r);
  }

  lemma ShrunkNone(m: Mem, bag: multiset<Node>)
    ensures Shrunk(m, m, bag)
  {
  }

  lemma FrontStart(m0: Mem, m: Mem, t: Tree, edge: Handle, p: Path, b: Reach, lo: nat)
    requires LeafEdge(t, p, edge) && Gap(t, p, edge) == lo && Remains(m0, m, t, Reach(p, false), b)
    ensures AtFront(m0, m, t, edge.node, edge.idx, p, b, lo)
  {
  }

  lemma AtFrontParts(m0: Mem, m: Mem, t: Tree, node: Node, i: nat, r: Path, b: Reach, lo: nat)
    requires AtFront(m0, m, t, node, i, r, b, lo)
    ensures At(t, r, node) && Arity(SubAt(t, r)) && i <= |SubAt(t, r).kvs| && End(t, r, i) == lo
    ensures Remains(m0, m, t, UpFront(t, r, i), b)
  {
  }

  lemma FrontAbove(m0: Mem, m: Mem, t: Tree, r: Path, parent: Node, j: nat, b: Reach, lo: nat)
    requires Above(t, r, parent, j) && Remains(m0, m, t, Reach(r, true), b)
    requires var q := r[..|r| - 1];
      && Arity(SubAt(t, q)) && j <= |SubAt(t, q).kvs| && End(t, q, j) == lo && UpFront(t, q, j) == Reach(r, true)
    ensures AtFront(m0, m, t, parent, j, r[..|r| - 1], b, lo)
  {
  }

  /** No node at or leftmost below `c` is released from the front. */
  ghost predicate FirstSpared(c: Path, f: Reach) { forall z: Path :: Zeros(z) ==> !FreedLeft(c + z, f) }

  method DyingDescend(node: Node, i: nat, pool: Pool, ghost m0: Mem, ghost t: Tree, ghost f: Reach, ghost b: Reach,
                      ghost q: Path)
    returns (child: Node)
    requires pool.Valid() && Remains(m0, pool.Mem(), t, f, b) && At(t, q, node) && LiveAt(q, f, b)
    requires i < |SubAt(t, q).kids|
    ensures At(t, q + [i], child)
  {
    hide Remains, LiveAt;
    LiveNode(m0, pool.Mem(), t, f, b, q);
    Step(t, q, i);
    child := Cells.ReadEdge(node, i, pool);
  }

  method DyingIsLeaf(node: Node, pool: Pool, ghost m0: Mem, ghost t: Tree, ghost f: Reach, ghost b: Reach,
                     ghost q: Path)
    returns (leaf: bool)
    requires pool.Valid() && Remains(m0, pool.Mem(), t, f, b) && At(t, q, node) && LiveAt(q, f, b)
    ensures Arity(SubAt(t, q)) && (leaf <==> SubAt(t, q).kids == [])
  {
    hide Remains, LiveAt;
    LiveNode(m0, pool.Mem(), t, f, b, q);
    leaf := Cells.ReadIsLeaf(node, pool);
  }

  /** The leftmost leaf edge in or under a node of the remaining tree. */
  method DyingFirstLeafEdge(start: Node, pool: Pool, ghost m0: Mem, ghost t: Tree, ghost f: Reach, ghost b: Reach,
                            ghost c: Path, ghost hi: nat)
    returns (edge: Handle, ghost z: Path)
    requires pool.Valid() && Remains(m0, pool.Mem(), t, f, b) && At(t, c, start) && FirstSpared(c, f)
    requires BackFrom(t, b, hi) && |Before(t, c)| <= hi
    ensures Zeros(z) && LeafEdge(t, c + z, edge) && edge.idx == 0 && Gap(t, c + z, edge) == |Before(t, c)|
  {
    hide Remains, LiveAt, Before, ValidPath, SubAt, BackFrom, FreedLeft, FreedRight, Pool.Mem, Pool.Valid;
    var node := start;
    z := [];
    assert c + z == c;
    while true
      invariant Zeros(z) && At(t, c + z, node) && |Before(t, c + z)| == |Before(t, c)|
      decreases SubAt(t, c + z)
    {
      FirstLive(t, c, z, f, b, hi);
      var leaf := DyingIsLeaf(node, pool, m0, t, f, b, c + z);
      if leaf { return Handle(node, 0), z; }
      EdgeOfChild(t, c + z, 0);
      EdgesOfNode(t, c + z);
      node := DyingDescend(node, 0, pool, m0, t, f, b, c + z);
      assert c + (z + [0]) == c + z + [0];
      z := z + [0];
    }
  }

  lemma FirstLive(t: Tree, c: Path, z: Path, f: Reach, b: Reach, hi: nat)
    requires Zeros(z) && FirstSpared(c, f) && ValidPath(t, c + z) && BackFrom(t, b, hi) && |Before(t, c + z)| <= hi
    ensures LiveAt(c + z, f, b)
  {
    NotFreedRight(t, c + z, b, hi);
  }

  lemma {:induction false} NotBeforeItself(x: Path)
    ensures !Precedes(x, x)
    decreases |x|
  {
    if x != [] { NotBeforeItself(x[1..]); }
  }

  lemma NextSpared(r: Path, i: nat)
    ensures FirstSpared(r + [i + 1], Reach(r + [i], true))
  {
    forall z: Path | Zeros(z) ensures !FreedLeft(r + [i + 1] + z, Reach(r + [i], true)) {
      BeforeNextEdge(r + [i + 1] + z, r, i, z);
      NotBeforeItself(r + [i + 1] + z);
    }
  }

  lemma RemainsNext(m0: Mem, m: Mem, t: Tree, r: Path, i: nat, z: Path, b: Reach)
    requires Remains(m0, m, t, Reach(r + [i], true), b) && Zeros(z)
    ensures Remains(m0, m, t, Reach(r + [i + 1] + z, false), b)
  {
    forall x: Path | ValidPath(t, x)
      ensures LiveAt(x, Reach(r + [i], true), b) <==> LiveAt(x, Reach(r + [i + 1] + z, false), b)
    {
      BeforeNextEdge(x, r, i, z);
    }
    SameFreed(m0, m, t, Reach(r + [i], true), b, Reach(r + [i + 1] + z, false), b);
  }

  /** The leaf edge right behind the pair reached. */
  method DyingNextLeafEdge(kv: Handle, pool: Pool, ghost m0: Mem, ghost t: Tree, ghost r: Path, ghost b: Reach,
                           ghost lo: nat, ghost hi: nat)
    returns (edge: Handle, ghost q: Path)
    requires pool.Valid() && Kv(t, r, kv) && AtFront(m0, pool.Mem(), t, kv.node, kv.idx, r, b, lo) && BackFrom(t, b, hi)
    requires lo < hi
    ensures LeafEdge(t, q, edge) && Gap(t, q, edge) == lo + 1 && Remains(m0, pool.Mem(), t, Reach(q, false), b)
  {
    hide Remains, LiveAt, Before, ValidPath, SubAt, BackFrom, Flat, Pool.Mem, Pool.Valid;
    PairAfterEdge(t, r, kv.idx);
    UpFrontLive(t, r, kv.idx, b, lo, hi);
    var leaf := DyingIsLeaf(kv.node, pool, m0, t, UpFront(t, r, kv.idx), b, r);
    if leaf {
      edge, q := Handle(kv.node, kv.idx + 1), r;
    } else {
      ghost var f, c := Reach(r + [kv.idx], true), r + [kv.idx + 1];
      var child := DyingDescend(kv.node, kv.idx + 1, pool, m0, t, f, b, r);
      EdgeOfChild(t, r, kv.idx + 1);
      NextSpared(r, kv.idx);
      ghost var z;
      edge, z := DyingFirstLeafEdge(child, pool, m0, t, f, b, c, hi);
      q := c + z;
      RemainsNext(m0, pool.Mem(), t, r, kv.idx, z, b);
    }
  }

  /** Takes the next pair from the front, releasing the nodes left behind, and returns the leaf edge behind it. */
  method DeallocatingNext(edge: Handle, pool: Pool, ghost m0: Mem, ghost t: Tree, ghost p: Path, ghost b: Reach,
                          ghost lo: nat, ghost hi: nat)
    returns (next: Handle, kv: KV, ghost q: Path)
    requires pool.Valid() && LeafEdge(t, p, edge) && Gap(t, p, edge) == lo < hi <= |Flat(t)| && BackFrom(t, b, hi)
    requires Remains(m0, pool.Mem(), t, Reach(p, false), b)
    modifies pool
    ensures pool.Valid() && pool.Repr() <= old(pool.Repr()) && Shrunk(old(pool.Mem()), pool.Mem(), Bag(t))
    ensures LeafEdge(t, q, next) && Gap(t, q, next) == lo + 1 && kv == Flat(t)[lo]
    ensures Remains(m0, pool.Mem(), t, Reach(q, false), b)
  {
    hide Remains, LiveAt, Before, ValidPath, SubAt, BackFrom, Flat, Shrunk, Pool.Mem, Pool.Valid;
    var pair; ghost var r;
    pair, r := UpToPair(edge, pool, m0, t, p, b, lo, hi);
    next, q := DyingNextLeafEdge(pair, pool, m0, t, r, b, lo, hi);
    kv := IntoKeyVal(pair, pool, m0, t, r, b, lo, hi);
  }

  /** Reads the pair reached, whose node is not released yet. */
  method IntoKeyVal(pair: Handle, pool: Pool, ghost m0: Mem, ghost t: Tree, ghost r: Path, ghost b: Reach,
                    ghost lo: nat, ghost hi: nat)
    returns (kv: KV)
    requires pool.Valid() && Kv(t, r, pair) && AtFront(m0, pool.Mem(), t, pair.node, pair.idx, r, b, lo)
    requires BackFrom(t, b, hi) && lo < hi
    ensures lo < |Flat(t)| && kv == Flat(t)[lo]
  {
    hide Remains, LiveAt, Before, BackFrom, Flat;
    PairAfterEdge(t, r, pair.idx);
    UpFrontLive(t, r, pair.idx, b, lo, hi);
    LiveNode(m0, pool.Mem(), t, UpFront(t, r, pair.idx), b, r);
    kv := Cells.ReadKv(pair.node, pair.idx, pool);
  }

  // ----- From the back

  /** On the way up from the back: nodes are released from edge `i` of the node at `r` on, in a leaf behind it. */
  ghost function UpBack(t: Tree, r: Path, i: nat): Reach
    requires ValidPath(t, r)
  {
    if SubAt(t, r).kids == [] then Reach(r, false) else Reach(r + [i], true)
  }

  lemma UpBackLive(t: Tree, r: Path, i: nat, f: Reach, lo: nat, hi: nat)
    requires ValidPath(t, r) && Arity(SubAt(t, r)) && i <= |SubAt(t, r).kvs| && Start(t, r, i) == hi && lo <= hi
    requires FrontFrom(t, f, lo)
    ensures LiveAt(r, f, UpBack(t, r, i))
  {
    StartWithin(t, r, i);
    NotFreedLeft(t, r, f, lo);
    PrefixBelow(r, []);
    assert r + [] == r;
    PrecedesNotPrefix(r, r);
    PrefixBelow(r, [i]);
    PrecedesNotPrefix(r, r + [i]);
    BelowLonger(r, r + [i]);
  }

  lemma StartWithin(t: Tree, r: Path, i: nat)
    requires ValidPath(t, r) && Arity(SubAt(t, r)) && i <= |SubAt(t, r).kvs|
    ensures Start(t, r, i) <= |Before(t, r)| + |Flat(SubAt(t, r))|
  {
    var s := SubAt(t, r);
    if s.kids != [] { WeaveAt(s.kids, s.kvs, i); }
  }

  /** Releasing a node whose first edge was reached goes on at its parent. */
  lemma UpBackRelease(t: Tree, r: Path, f: Reach, x: Path)
    requires ValidPath(t, r) && Arity(SubAt(t, r)) && ValidPath(t, x) && LiveAt(r, f, UpBack(t, r, 0))
    ensures LiveAt(x, f, Reach(r, true)) <==> LiveAt(x, f, UpBack(t, r, 0)) && x != r
  {
    if SubAt(t, r).kids == [] { BelowLeaf(t, x, r); } else { BelowNodeBack(t, x, r); }
    BelowSelf(r);
  }

  /** Releases the node at `r`, whose first edge was reached, and goes up to the edge that led to it. */
  method LeaveBack(node: Node, pool: Pool, ghost m0: Mem, ghost t: Tree, ghost r: Path, ghost f: Reach, ghost lo: nat,
                   ghost hi: nat)
    returns (parent: Node?, j: nat)
    requires pool.Valid() && At(t, r, node) && Remains(m0, pool.Mem(), t, f, UpBack(t, r, 0)) && FrontFrom(t, f, lo)
    requires Arity(SubAt(t, r)) && Start(t, r, 0) == hi && lo <= hi
    modifies pool
    ensures pool.Valid() && pool.Repr() <= old(pool.Repr()) && Shrunk(old(pool.Mem()), pool.Mem(), Bag(t))
    ensures parent == null <==> r == []
    ensures Remains(m0, pool.Mem(), t, f, Reach(r, true))
    ensures parent != null ==> Above(t, r, parent, j)
    ensures parent != null ==> var q := r[..|r| - 1];
      && Arity(SubAt(t, q)) && j <= |SubAt(t, q).kvs| && Start(t, q, j) == hi && UpBack(t, q, j) == Reach(r, true)
  {
    hide Remains, LiveAt, Shrunk, Flat, Before, Pool.Mem, Pool.Valid;
    UpBackLive(t, r, 0, f, lo, hi);
    forall x: Path | ValidPath(t, x)
      ensures LiveAt(x, f, Reach(r, true)) <==> LiveAt(x, f, UpBack(t, r, 0)) && x != r
    {
      UpBackRelease(t, r, f, x);
    }
    parent, j := DeallocateAndAscend(node, pool, m0, t, r, f, UpBack(t, r, 0), f, Reach(r, true));
    if parent != null { EdgeAbove(t, r, parent, j); }
  }

  /** What the walk from the back has reached: the pairs from edge `i` of the node at `r` on have been taken. */
  ghost predicate AtBack(m0: Mem, m: Mem, t: Tree, node: Node, i: nat, r: Path, f: Reach, hi: nat) {
    && At(t, r, node) && Arity(SubAt(t, r)) && i <= |SubAt(t, r).kvs| && Start(t, r, i) == hi
    && Remains(m0, m, t, f, UpBack(t, r, i))
  }

  /** Goes up from a leaf edge to the pair before it, releasing the nodes left behind. */
  method UpToPairBack(edge: Handle, pool: Pool, ghost m0: Mem, ghost t: Tree, ghost p: Path, ghost f: Reach,
                      ghost lo: nat, ghost hi: nat)
    returns (node: Node, i: nat, ghost r: Path)
    requires pool.Valid() && LeafEdge(t, p, edge) && Gap(t, p, edge) == hi && lo < hi && FrontFrom(t, f, lo)
    requires Remains(m0, pool.Mem(), t, f, Reach(p, false))
    modifies pool
    ensures pool.Valid() && pool.Repr() <= old(pool.Repr()) && Shrunk(old(pool.Mem()), pool.Mem(), Bag(t))
    ensures i > 0 && AtBack(m0, pool.Mem(), t, node, i, r, f, hi)
  {
    hide Remains, LiveAt, Shrunk, Flat, Before, SubAt, ValidPath, AtBack, FrontFrom, Start, Pool.Mem, Pool.Valid;
    node, i, r := edge.node, edge.idx, p;
    BackStart(m0, pool.Mem(), t, edge, p, f, hi);
    ShrunkNone(pool.Mem(), Bag(t));
    while i == 0
      invariant pool.Valid() && pool.Repr() <= old(pool.Repr()) && Shrunk(old(pool.Mem()), pool.Mem(), Bag(t))
      invariant AtBack(m0, pool.Mem(), t, node, i, r, f, hi)
      decreases |r|
    {
      ghost var m := pool.Mem();
      AtBackParts(m0, m, t, node, i, r, f, hi);
      var parent, j := LeaveBack(node, pool, m0, t, r, f, lo, hi);
      ShrunkTrans(old(pool.Mem()), m, pool.Mem(), Bag(t));
      if parent == null { FirstOfRoot(t, r, hi); }
      BackAbove(m0, pool.Mem(), t, r, parent, j, f, hi);
      node, i, r := parent, j, r[..|r| - 1];
    }
  }

  lemma FirstOfRoot(t: Tree, r: Path, hi: nat)
    requires r == [] && ValidPath(t, r) && Arity(SubAt(t, r)) && Start(t, r, 0) == hi
    ensures hi == 0
  {
    EdgesOfRoot(t, r);
  }

  lemma BackStart(m0: Mem, m: Mem, t: Tree, edge: Handle, p: Path, f: Reach, hi: nat)
    requires LeafEdge(t, p, edge) && Gap(t, p, edge) == hi && Remains(m0, m, t, f, Reach(p, false))
    ensures AtBack(m0, m, t, edge.node, edge.idx, p, f, hi)
  {
  }

  lemma AtBackParts(m0: Mem, m: Mem, t: Tree, node: Node, i: nat, r: Path, f: Reach, hi: nat)
    requires AtBack(m0, m, t, node, i, r, f, hi)
    ensures At(t, r, node) && Arity(SubAt(t, r)) && i <= |SubAt(t, r).kvs| && Start(t, r, i) == hi
    ensures Remains(m0, m, t, f, UpBack(t, r, i))
  {
  }

  lemma BackAbove(m0: Mem, m: Mem, t: Tree, r: Path, parent: Node, j: nat, f: Reach, hi: nat)
    requires Above(t, r, parent, j) && Remains(m0, m, t, f, Reach(r, true))
    requires var q := r[..|r| - 1];
      && Arity(SubAt(t, q)) && j <= |SubAt(t, q).kvs| && Start(t, q, j) == hi && UpBack(t, q, j) == Reach(r, true)
    ensures AtBack(m0, m, t, parent, j, r[..|r| - 1], f, hi)
  {
  }

  /** No node at or rightmost below `c` is released from the back. */
  ghost predicate LastSpared(t: Tree, c: Path, b: Reach)
    requires ValidPath(t, c)
  {
    forall w: Path :: Rightmost(SubAt(t, c), w) ==> !FreedRight(c + w, b)
  }

  /** The rightmost leaf edge in or under a node of the remaining tree. */
  method DyingLastLeafEdge(start: Node, pool: Pool, ghost m0: Mem, ghost t: Tree, ghost f: Reach, ghost b: Reach,
                           ghost c: Path, ghost lo: nat)
    returns (edge: Handle, ghost w: Path)
    requires pool.Valid() && Remains(m0, pool.Mem(), t, f, b) && At(t, c, start) && LastSpared(t, c, b)
    requires FrontFrom(t, f, lo) && lo <= |Before(t, c)| + |Flat(SubAt(t, c))|
    ensures Rightmost(SubAt(t, c), w) && LeafEdge(t, c + w, edge) && edge.idx == |SubAt(t, c + w).kvs|
    ensures Gap(t, c + w, edge) == |Before(t, c)| + |Flat(SubAt(t, c))|
  {
    hide Remains, LiveAt, Before, ValidPath, FrontFrom, FreedLeft, FreedRight, Pool.Mem, Pool.Valid;
    var node := start;
    w := [];
    assert c + w == c;
    while true
      invariant Rightmost(SubAt(t, c), w) && At(t, c + w, node)
      invariant |Before(t, c + w)| + |Flat(SubAt(t, c + w))| == |Before(t, c)| + |Flat(SubAt(t, c))|
      decreases SubAt(t, c + w)
    {
      LastLive(t, c, w, f, b, lo);
      var leaf := DyingIsLeaf(node, pool, m0, t, f, b, c + w);
      var len := DyingLen(node, pool, m0, t, f, b, c + w);
      if leaf { return Handle(node, len), w; }
      LastChild(t, c + w);
      node := DyingDescend(node, len, pool, m0, t, f, b, c + w);
      RightmostStep(t, c, w);
      w := w + [len];
    }
  }

  method DyingLen(node: Node, pool: Pool, ghost m0: Mem, ghost t: Tree, ghost f: Reach, ghost b: Reach, ghost q: Path)
    returns (len: nat)
    requires pool.Valid() && Remains(m0, pool.Mem(), t, f, b) && At(t, q, node) && LiveAt(q, f, b)
    ensures len == |SubAt(t, q).kvs|
  {
    hide Remains, LiveAt;
    LiveNode(m0, pool.Mem(), t, f, b, q);
    len := Cells.ReadLen(node, pool);
  }

  lemma LastLive(t: Tree, c: Path, w: Path, f: Reach, b: Reach, lo: nat)
    requires ValidPath(t, c) && Rightmost(SubAt(t, c), w) && LastSpared(t, c, b) && ValidPath(t, c + w)
    requires FrontFrom(t, f, lo) && lo <= |Before(t, c + w)| + |Flat(SubAt(t, c + w))|
    ensures LiveAt(c + w, f, b)
  {
    NotFreedLeft(t, c + w, f, lo);
  }

  lemma PreviousSpared(t: Tree, r: Path, i: nat)
    requires ValidPath(t, r + [i])
    ensures LastSpared(t, r + [i], Reach(r + [i + 1], true))
  {
    forall w: Path | Rightmost(SubAt(t, r + [i]), w) ensures !FreedRight(r + [i] + w, Reach(r + [i + 1], true)) {
      RightmostValid(SubAt(t, r + [i]), w);
      PathConcat(t, r + [i], w);
      AfterPreviousEdge(t, r + [i] + w, r, i, w);
      NotBeforeItself(r + [i] + w);
    }
  }

  lemma RemainsPrevious(m0: Mem, m: Mem, t: Tree, r: Path, i: nat, w: Path, f: Reach)
    requires Remains(m0, m, t, f, Reach(r + [i + 1], true)) && ValidPath(t, r + [i]) && Rightmost(SubAt(t, r + [i]), w)
    ensures Remains(m0, m, t, f, Reach(r + [i] + w, false))
  {
    forall x: Path | ValidPath(t, x)
      ensures LiveAt(x, f, Reach(r + [i + 1], true)) <==> LiveAt(x, f, Reach(r + [i] + w, false))
    {
      AfterPreviousEdge(t, x, r, i, w);
    }
    SameFreed(m0, m, t, f, Reach(r + [i + 1], true), f, Reach(r + [i] + w, false));
  }

  /** The leaf edge right before the pair reached. */
  method DyingNextBackLeafEdge(node: Node, i: nat, pool: Pool, ghost m0: Mem, ghost t: Tree, ghost r: Path,
                               ghost f: Reach, ghost lo: nat, ghost hi: nat)
    returns (edge: Handle, ghost q: Path)
    requires pool.Valid() && AtBack(m0, pool.Mem(), t, node, i + 1, r, f, hi) && FrontFrom(t, f, lo) && lo < hi
    ensures LeafEdge(t, q, edge) && Gap(t, q, edge) + 1 == hi && Remains(m0, pool.Mem(), t, f, Reach(q, false))
  {
    hide Remains, LiveAt, Before, ValidPath, SubAt, FrontFrom, Flat, Pool.Mem, Pool.Valid;
    PairAfterEdge(t, r, i);
    UpBackLive(t, r, i + 1, f, lo, hi);
    var leaf := DyingIsLeaf(node, pool, m0, t, f, UpBack(t, r, i + 1), r);
    if leaf {
      edge, q := Handle(node, i), r;
    } else {
      ghost var b, c := Reach(r + [i + 1], true), r + [i];
      var child := DyingDescend(node, i, pool, m0, t, f, b, r);
      EdgeOfChild(t, r, i);
      PreviousSpared(t, r, i);
      ghost var w;
      edge, w := DyingLastLeafEdge(child, pool, m0, t, f, b, c, lo);
      q := c + w;
      RemainsPrevious(m0, pool.Mem(), t, r, i, w, f);
    }
  }

  /** Takes the next pair from the back, releasing the nodes left behind, and returns the leaf edge before it. */
  method DeallocatingNextBack(edge: Handle, pool: Pool, ghost m0: Mem, ghost t: Tree, ghost p: Path, ghost f: Reach,
                              ghost lo: nat, ghost hi: nat)
    returns (next: Handle, kv: KV, ghost q: Path)
    requires pool.Valid() && LeafEdge(t, p, edge) && Gap(t, p, edge) == hi && lo < hi && FrontFrom(t, f, lo)
    requires Remains(m0, pool.Mem(), t, f, Reach(p, false))
    modifies pool
    ensures pool.Valid() && pool.Repr() <= old(pool.Repr()) && Shrunk(old(pool.Mem()), pool.Mem(), Bag(t))
    ensures LeafEdge(t, q, next) && Gap(t, q, next) + 1 == hi <= |Flat(t)| && kv == Flat(t)[hi - 1]
    ensures Remains(m0, pool.Mem(), t, f, Reach(q, false))
  {
    hide Remains, LiveAt, Before, ValidPath, SubAt, FrontFrom, Flat, Shrunk, Pool.Mem, Pool.Valid;
    var node, i; ghost var r;
    node, i, r := UpToPairBack(edge, pool, m0, t, p, f, lo, hi);
    next, q := DyingNextBackLeafEdge(node, i - 1, pool, m0, t, r, f, lo, hi);
    kv := IntoKeyValBack(node, i - 1, pool, m0, t, r, f, lo, hi);
  }

  method IntoKeyValBack(node: Node, i: nat, pool: Pool, ghost m0: Mem, ghost t: Tree, ghost r: Path, ghost f: Reach,
                        ghost lo: nat, ghost hi: nat)
    returns (kv: KV)
    requires pool.Valid() && AtBack(m0, pool.Mem(), t, node, i + 1, r, f, hi) && FrontFrom(t, f, lo) && lo < hi
    ensures 0 < hi <= |Flat(t)| && kv == Flat(t)[hi - 1]
  {
    hide Remains, LiveAt, Before, FrontFrom, Flat, SubAt, ValidPath, AtBack, Start, End;
    AtBackParts(m0, pool.Mem(), t, node, i + 1, r, f, hi);
    PairAfterEdge(t, r, i);
    UpBackLive(t, r, i + 1, f, lo, hi);
    LiveNode(m0, pool.Mem(), t, f, UpBack(t, r, i + 1), r);
    kv := Cells.ReadKv(node, i, pool);
  }

  // ----- The end

  lemma {:induction false} BelowEdge(x: Path, r: Path, j: nat)
    ensures Below(x, r + [j]) ==> Below(x, r) && x != r
    ensures Precedes(x, r + [j]) ==> Precedes(x, r) || (Below(x, r) && x != r)
    ensures Below(x, r) && x != r ==> Precedes(x, r + [j]) || Below(x, r + [j]) || Precedes(r + [j], x)
    ensures Precedes(x, r) ==> Precedes(x, r + [j]) && x != r
    decreases |r|
  {
    var b := r + [j];
    if r == [] {
      assert b[1..] == [];
    } else {
      assert b[1..] == r[1..] + [j];
      if x != [] {
        BelowEdge(x[1..], r[1..], j);
        assert x == r <==> x[0] == r[0] && x[1..] == r[1..] by { assert x == [x[0]] + x[1..] && r == [r[0]] + r[1..]; }
      }
    }
  }

  lemma {:induction false} PrecedesBelow(c: Path, x: Path, p: Path)
    requires Precedes(c, x) && Below(p, c)
    ensures Precedes(p, x)
    decreases |c|
  {
    if c[0] == x[0] { PrecedesBelow(c[1..], x[1..], p[1..]); }
  }

  /** The two ends have met: what is right of the front leaf has been released from the back. */
  ghost predicate Met(t: Tree, p: Path, b: Reach) {
    forall x: Path :: ValidPath(t, x) && Precedes(p, x) ==> FreedRight(x, b)
  }

  lemma EndRelease(t: Tree, p: Path, b: Reach, r: Path, j: nat, x: Path)
    requires Met(t, p, b) && Below(p, r + [j]) && ValidPath(t, x)
    ensures LiveAt(x, Reach(r, true), b) <==> LiveAt(x, Reach(r + [j], true), b) && x != r
  {
    BelowEdge(x, r, j);
    BelowSelf(r);
    if Precedes(r + [j], x) { PrecedesBelow(r + [j], x, p); }
  }

  lemma EndLive(t: Tree, p: Path, b: Reach, r: Path, j: nat, hi: nat)
    requires ValidPath(t, r + [j]) && Below(p, r + [j]) && BackFrom(t, b, hi) && ValidPath(t, r) && |Before(t, r)| <= hi
    ensures LiveAt(r, Reach(r + [j], true), b)
  {
    NotFreedRight(t, r, b, hi);
    PrefixBelow(r, [j]);
    PrecedesNotPrefix(r, r + [j]);
    BelowLonger(r, r + [j]);
  }

  lemma LeafRelease(t: Tree, p: Path, b: Reach, x: Path)
    requires ValidPath(t, p) && SubAt(t, p).kids == [] && ValidPath(t, x)
    ensures LiveAt(x, Reach(p, true), b) <==> LiveAt(x, Reach(p, false), b) && x != p
  {
    BelowLeaf(t, x, p);
  }

  lemma LeafLive(t: Tree, p: Path, b: Reach, hi: nat)
    requires ValidPath(t, p) && BackFrom(t, b, hi) && |Before(t, p)| <= hi
    ensures LiveAt(p, Reach(p, false), b)
  {
    NotFreedRight(t, p, b, hi);
    NotBeforeItself(p);
  }

  method ReleaseLeaf(leaf: Node, pool: Pool, ghost m0: Mem, ghost t: Tree, ghost p: Path, ghost b: Reach, ghost hi: nat)
    returns (parent: Node?, i: nat)
    requires pool.Valid() && At(t, p, leaf) && SubAt(t, p).kids == [] && Remains(m0, pool.Mem(), t, Reach(p, false), b)
    requires BackFrom(t, b, hi) && |Before(t, p)| <= hi
    modifies pool
    ensures pool.Valid() && pool.Repr() <= old(pool.Repr()) && Shrunk(old(pool.Mem()), pool.Mem(), Bag(t))
    ensures Remains(m0, pool.Mem(), t, Reach(p, true), b)
    ensures parent == null <==> p == []
    ensures parent != null ==> Above(t, p, parent, i)
  {
    hide Remains, LiveAt, Shrunk, Above, Pool.Mem, Pool.Valid;
    LeafLive(t, p, b, hi);
    forall x: Path | ValidPath(t, x) ensures LiveAt(x, Reach(p, true), b) <==> LiveAt(x, Reach(p, false), b) && x != p {
      LeafRelease(t, p, b, x);
    }
    parent, i := DeallocateAndAscend(leaf, pool, m0, t, p, Reach(p, false), b, Reach(p, true), b);
  }

  method ReleaseAbove(node: Node, pool: Pool, ghost m0: Mem, ghost t: Tree, ghost p: Path, ghost b: Reach,
                      ghost r: Path, ghost j: nat, ghost hi: nat)
    returns (parent: Node?, i: nat)
    requires pool.Valid() && At(t, r, node) && ValidPath(t, r + [j])
    requires Remains(m0, pool.Mem(), t, Reach(r + [j], true), b)
    requires Met(t, p, b) && Below(p, r + [j]) && BackFrom(t, b, hi) && |Before(t, r)| <= hi
    modifies pool
    ensures pool.Valid() && pool.Repr() <= old(pool.Repr()) && Shrunk(old(pool.Mem()), pool.Mem(), Bag(t))
    ensures Remains(m0, pool.Mem(), t, Reach(r, true), b) && Below(p, r)
    ensures parent == null <==> r == []
    ensures parent != null ==> Above(t, r, parent, i)
  {
    hide Remains, LiveAt, Shrunk, Above, Pool.Mem, Pool.Valid;
    EndLive(t, p, b, r, j, hi);
    forall x: Path | ValidPath(t, x)
      ensures LiveAt(x, Reach(r, true), b) <==> LiveAt(x, Reach(r + [j], true), b) && x != r
    {
      EndRelease(t, p, b, r, j, x);
    }
    BelowEdge(p, r, j);
    parent, i := DeallocateAndAscend(node, pool, m0, t, r, Reach(r + [j], true), b, Reach(r, true), b);
  }

  lemma AboveBefore(t: Tree, r: Path, parent: Node, i: nat)
    requires Above(t, r, parent, i)
    ensures |r| > 0 && r == r[..|r| - 1] + [i] && At(t, r[..|r| - 1], parent)
    ensures |Before(t, r[..|r| - 1])| <= |Before(t, r)|
  {
    StepUp(t, r);
  }

  lemma AllFreed(m0: Mem, m: Mem, t: Tree, b: Reach)
    requires Remains(m0, m, t, Reach([], true), b) && Regular(t)
    ensures forall n :: n in Bag(t) ==> n !in m
  {
    forall n | n in Bag(t) ensures n !in m {
      var x := PathOfNode(t, n);
      assert !LiveAt(x, Reach([], true), b);
    }
  }

  lemma {:induction false} PathOfNode(t: Tree, n: Node) returns (x: Path)
    requires Regular(t) && n in Bag(t)
    ensures ValidPath(t, x) && SubAt(t, x).node == n
    decreases t
  {
    if n == t.node {
      x := [];
    } else {
      var i := KidOfNode(t.kids, n);
      var y := PathOfNode(t.kids[i], n);
      x := [i] + y;
      OneStep(t, i);
      PathConcat(t, [i], y);
    }
  }

  lemma {:induction false} KidOfNode(kids: seq<Tree>, n: Node) returns (i: nat)
    requires n in Bags(kids)
    ensures i < |kids| && n in Bag(kids[i])
  {
    if n in Bag(kids[0]) {
      i := 0;
    } else {
      i := KidOfNode(kids[1..], n);
      i := i + 1;
    }
  }

  /** Releases the nodes from a leaf up to the root, the last ones left once the two ends have met. */
  method DeallocatingEnd(edge: Handle, pool: Pool, ghost m0: Mem, ghost t: Tree, ghost p: Path, ghost b: Reach,
                         ghost hi: nat)
    requires pool.Valid() && LeafEdge(t, p, edge) && Remains(m0, pool.Mem(), t, Reach(p, false), b)
    requires Met(t, p, b) && BackFrom(t, b, hi) && |Before(t, p)| <= hi
    modifies pool
    ensures pool.Valid() && pool.Repr() <= old(pool.Repr()) && Shrunk(old(pool.Mem()), pool.Mem(), Bag(t))
    ensures forall n :: n in Bag(t) ==> n !in pool.Mem()
  {
    hide Remains, LiveAt, Shrunk, Above, Met, Before, SubAt, ValidPath, BackFrom, Pool.Mem, Pool.Valid;
    var parent, i := ReleaseLeaf(edge.node, pool, m0, t, p, b, hi);
    ghost var r := p;
    BelowSelf(p);
    while parent != null
      invariant pool.Valid() && pool.Repr() <= old(pool.Repr()) && Shrunk(old(pool.Mem()), pool.Mem(), Bag(t))
      invariant ValidPath(t, r) && Remains(m0, pool.Mem(), t, Reach(r, true), b) && Below(p, r) && |Before(t, r)| <= hi
      invariant parent == null <==> r == []
      invariant parent != null ==> Above(t, r, parent, i)
      decreases |r|
    {
      ghost var m := pool.Mem();
      AboveBefore(t, r, parent, i);
      ghost var q := r[..|r| - 1];
      parent, i := ReleaseAbove(parent, pool, m0, t, p, b, q, i, hi);
      ShrunkTrans(old(pool.Mem()), m, pool.Mem(), Bag(t));
      r := q;
    }
    RemainsRegular(m0, pool.Mem(), t, Reach(r, true), b);
    AllFreed(m0, pool.Mem(), t, b);
  }

  lemma RemainsRegular(m0: Mem, m: Mem, t: Tree, f: Reach, b: Reach)
    requires Remains(m0, m, t, f, b)
    ensures Regular(t)
  {
    RepRegular(m0, t);
  }
}
