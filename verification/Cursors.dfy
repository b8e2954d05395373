/** Cursors: positions on a circle of the pairs of a map and one place more, the ghost, between the last and the
    first pair. */
module Cursors {
  import opened Nodes
  import opened Options
  import opened Trees
  import opened Memory
  import opened Edits
  import opened Shapes
  import opened Places
  import opened Rows
  import opened Navigate
  import opened Search
  import opened Roots
  import opened Maps
  import opened Orders
  import Remove
  import Ranges
  import Fix

  // ----- A pair is at one place

  lemma IndexBelow(t: Tree, p: Path, e: Handle)
    requires Kv(t, p, e) && p != []
    ensures Kv(t.kids[p[0]], p[1..], e) && p[0] < |t.kids|
    ensures Index(t, p, e) == |Left(t.kids, t.kvs, p[0])| + Index(t.kids[p[0]], p[1..], e)
    ensures Index(t.kids[p[0]], p[1..], e) < |Flat(t.kids[p[0]])|
  {
    PairAfterEdge(t.kids[p[0]], p[1..], e.idx);
  }

  lemma {:induction false} LeftOrdered(kids: seq<Tree>, kvs: seq<KV>, i: nat, j: nat)
    requires |kids| == |kvs| + 1 && i < |kids| && j < |kids|
    ensures i < j ==> |Left(kids, kvs, i)| + |Flat(kids[i])| < |Left(kids, kvs, j)|
    ensures j < i ==> |Left(kids, kvs, j)| + |Flat(kids[j])| < |Left(kids, kvs, i)|
  {
    if i < j { LeftGrows(kids, kvs, i, j); }
    if j < i { LeftGrows(kids, kvs, j, i); }
  }

  /** No other pair has the same index. */
  lemma {:induction false} IndexOfOnePair(t: Tree, p: Path, e: Handle, q: Path, f: Handle)
    requires Kv(t, p, e) && Kv(t, q, f) && Index(t, p, e) == Index(t, q, f) && Regular(t)
    ensures p == q && e == f
    decreases |p|
  {
    hide Left, Flat, Index, Arity;
    if p == [] && q == [] {
      IndexAtTop(t, e);
      IndexAtTop(t, f);
      if t.kids != [] { LeftOrdered(t.kids, t.kvs, e.idx, f.idx); }
    } else if p == [] {
      IndexAtTop(t, e);
      IndexBelow(t, q, f);
      LeftOrdered(t.kids, t.kvs, e.idx, q[0]);
    } else if q == [] {
      IndexAtTop(t, f);
      IndexBelow(t, p, e);
      LeftOrdered(t.kids, t.kvs, f.idx, p[0]);
    } else {
      IndexBelow(t, p, e);
      IndexBelow(t, q, f);
      LeftOrdered(t.kids, t.kvs, p[0], q[0]);
      IndexOfOnePair(t.kids[p[0]], p[1..], e, q[1..], f);
      assert p == [p[0]] + p[1..] && q == [q[0]] + q[1..];
    }
  }

  lemma IndexAtTop(t: Tree, e: Handle)
    requires Kv(t, [], e)
    ensures e.node == t.node && e.idx < |t.kvs| && (t.kids != [] ==> |t.kids| == |t.kvs| + 1)
    ensures Index(t, [], e) == if t.kids == [] then e.idx else |Left(t.kids, t.kvs, e.idx)| + |Flat(t.kids[e.idx])|
  {
  }

  // ----- Positions

  /** A cursor stands at the pair with `pos` pairs before it, or at the ghost behind all of them. */
  ghost predicate Points(host: BTreeMap, m: Mem, cur: Option<Handle>, q: Path, pos: nat)
    reads host.Parts()
  {
    && host.In(m) && pos <= |host.Contents()| && (cur.None? <==> pos == |host.Contents()|)
    && (cur.Some? ==> host.tree.Some? && Kv(host.tree.value, q, cur.value))
    && (cur.Some? ==> Index(host.tree.value, q, cur.value) == pos)
  }

  /** The edge right or left of a place, by what surrounds it. */
  ghost predicate Beside(host: BTreeMap, m: Mem, edge: Handle, q: Path, gap: nat)
    reads host.Parts()
  {
    && host.In(m) && host.tree.Some? && LeafEdge(host.tree.value, q, edge) && Gap(host.tree.value, q, edge) == gap
    && gap <= |host.Contents()|
  }

  /** The next position on the circle, and the one before. */
  function Onward(pos: nat, n: nat): nat
    requires pos <= n
  {
    if pos == n then 0 else pos + 1
  }

  function Backward(pos: nat, n: nat): nat
    requires pos <= n
  {
    if pos == 0 then n else pos - 1
  }

  /** The circle has the positions of `n` pairs and the ghost behind them. */
  lemma AroundTheCircle(pos: nat, n: nat)
    requires pos <= n
    ensures Onward(pos, n) == (pos + 1) % (n + 1) && Backward(pos, n) == (pos + n) % (n + 1)
  {
  }

  lemma ThereAndBackAgain(pos: nat, n: nat)
    requires pos <= n
    ensures Backward(Onward(pos, n), n) == pos && Onward(Backward(pos, n), n) == pos
  {
  }

  /** Cursors at the same position are the same, so moving there and back ends at the same handle. */
  lemma PointsOnce(host: BTreeMap, m: Mem, a: Option<Handle>, p: Path, b: Option<Handle>, q: Path, pos: nat)
    requires Points(host, m, a, p, pos) && Points(host, m, b, q, pos)
    ensures a == b
  {
    if a.Some? {
      var t := host.tree.value;
      RepRegular(m, t);
      IndexOfOnePair(t, p, a.value, q, b.value);
    }
  }

  // ----- Steps

  lemma PointsWithin(host: BTreeMap, m: Mem, cur: Option<Handle>, q: Path, pos: nat)
    requires Points(host, m, cur, q, pos)
    ensures host.In(m) && pos <= |host.Contents()|
  {
  }

  lemma RootHeld(host: BTreeMap, m: Mem)
    requires host.In(m) && host.root.Some?
    ensures host.tree.Some? && host.tree.value.node == host.root.value.node && Holds(m, host.tree.value)
    ensures Balanced(host.tree.value, host.root.value.height)
  {
  }

  /** The outermost leaf edges. */
  method FirstEdge(host: BTreeMap, pool: Pool) returns (edge: Handle, ghost q: Path)
    requires pool.Valid() && host.In(pool.Mem()) && host.root.Some?
    ensures Beside(host, pool.Mem(), edge, q, 0)
  {
    hide Holds, Balanced, SubAt, ValidPath, Trees.Before, Pool.Mem, Pool.Valid;
    RootHeld(host, pool.Mem());
    AtRoot(host.tree.value);
    edge, q := FirstLeafEdge(host.root.value.node, pool, host.tree.value, []);
  }

  method LastEdge(host: BTreeMap, pool: Pool) returns (edge: Handle, ghost q: Path)
    requires pool.Valid() && host.In(pool.Mem()) && host.root.Some?
    ensures Beside(host, pool.Mem(), edge, q, |host.Contents()|)
  {
    hide Holds, Balanced, SubAt, ValidPath, Trees.Before, Flat, Pool.Mem, Pool.Valid;
    RootHeld(host, pool.Mem());
    AtRoot(host.tree.value);
    edge, q := LastLeafEdge(host.root.value.node, pool, host.tree.value, []);
    assert [] + q == q;
  }

  method EdgeAfter(host: BTreeMap, kv: Handle, pool: Pool, ghost q: Path, ghost pos: nat)
    returns (edge: Handle, ghost p: Path)
    requires pool.Valid() && Points(host, pool.Mem(), Some(kv), q, pos)
    ensures Beside(host, pool.Mem(), edge, p, pos + 1)
  {
    hide Holds, Balanced, LeafEdge, Gap, Index, Kv, Flat, Pool.Mem, Pool.Valid;
    RootHeld(host, pool.Mem());
    edge, p := NextLeafEdge(kv, pool, host.tree.value, q);
  }

  method EdgeBefore(host: BTreeMap, kv: Handle, pool: Pool, ghost q: Path, ghost pos: nat)
    returns (edge: Handle, ghost p: Path)
    requires pool.Valid() && Points(host, pool.Mem(), Some(kv), q, pos)
    ensures Beside(host, pool.Mem(), edge, p, pos)
  {
    hide Holds, Balanced, LeafEdge, Gap, Index, Kv, Flat, Pool.Mem, Pool.Valid;
    RootHeld(host, pool.Mem());
    edge, p := NextBackLeafEdge(kv, pool, host.tree.value, q);
  }

  method KvRight(host: BTreeMap, edge: Handle, pool: Pool, ghost p: Path, ghost gap: nat)
    returns (kv: Option<Handle>, ghost q: Path)
    requires pool.Valid() && Beside(host, pool.Mem(), edge, p, gap)
    ensures Points(host, pool.Mem(), kv, q, gap)
  {
    hide Holds, Balanced, LeafEdge, Gap, Index, Kv, Flat, Pool.Mem, Pool.Valid;
    RootHeld(host, pool.Mem());
    kv, q := NextKv(edge, pool, host.tree.value, p);
  }

  method KvLeft(host: BTreeMap, edge: Handle, pool: Pool, ghost p: Path, ghost gap: nat)
    returns (kv: Option<Handle>, ghost q: Path)
    requires pool.Valid() && Beside(host, pool.Mem(), edge, p, gap)
    ensures Points(host, pool.Mem(), kv, q, Backward(gap, |host.Contents()|))
  {
    hide Holds, Balanced, LeafEdge, Gap, Index, Kv, Flat, Pool.Mem, Pool.Valid;
    RootHeld(host, pool.Mem());
    kv, q := NextBackKv(edge, pool, host.tree.value, p);
  }

  // ----- Edits beside a cursor

  lemma LeafSides(t: Tree, q: Path, kv: Handle, g: nat)
    requires InLeaf(t, q, kv, g)
    ensures g < |Flat(t)| && LeafEdge(t, q, kv) && Gap(t, q, kv) == g
    ensures var e := Handle(kv.node, kv.idx + 1); LeafEdge(t, q, e) && Gap(t, q, e) == g + 1
  {
    PairAfterEdge(t, q, kv.idx);
  }

  lemma PutLonger(f: seq<KV>, g: nat, kv: KV)
    requires g <= |f|
    ensures |Put(f, g, kv)| == |f| + 1
  {
  }

  /** Inserts a pair at an edge, and returns the edges on both sides of it. */
  method InsertBeside(host: BTreeMap, edge: Handle, kv: KV, pool: Pool, ghost p: Path, ghost gap: nat)
    returns (left: Handle, right: Handle, ghost q: Path)
    requires pool.Valid() && Beside(host, pool.Mem(), edge, p, gap)
    modifies host.Parts(), pool, pool.nodes, pool.kvBuffers, pool.edgeBuffers
    ensures pool.Valid() && fresh(pool.Repr() - old(pool.Repr())) && host.root == old(host.root)
    ensures Edited(old(pool.Mem()), pool.Mem(), old(host.Owned()), host.Owned())
    ensures gap <= |old(host.Contents())| && host.Contents() == Put(old(host.Contents()), gap, kv)
    ensures |host.Contents()| == |old(host.Contents())| + 1
    ensures Beside(host, pool.Mem(), left, q, gap) && Beside(host, pool.Mem(), right, q, gap + 1)
  {
    hide Holds, LeafEdge, Gap, Flat, Edited, Bag, Keeps, Put, InLeaf, Pool.Mem, Pool.Valid;
    PutLonger(host.Contents(), gap, kv);
    var handle;
    handle, q := host.InsertAtEdge(edge, kv, pool, p);
    LeafSides(host.tree.value, q, handle, gap);
    left, right := handle, Handle(handle.node, handle.idx + 1);
  }

  /** Once an internal root without pairs is gone, a pair is found one step sooner. */
  lemma LoweredPair(t: Tree, h: nat, p: Path, kv: Handle)
    requires h > 0 && Full(t, h, 0) && t.kvs == [] && Kv(t, p, kv)
    ensures |t.kids| == 1 && p != [] && Kv(t.kids[0], p[1..], kv) && Index(t.kids[0], p[1..], kv) == Index(t, p, kv)
  {
    EmptiedRoot(t, h);
    IndexBelow(t, p, kv);
  }

  /** Takes out a pair; the next one, or the one before, is found before an emptied root is popped. */
  method TakePair(root: Root, length: nat, kv: Handle, back: bool, pool: Pool, ghost t: Tree, ghost p: Path)
    returns (oldKv: KV, next: Option<Handle>, ghost t': Tree, ghost q: Path)
    requires pool.Valid() && Keeps(pool.Mem(), root.node, root.height, length, t) && Kv(t, p, kv)
    modifies root, pool, pool.nodes, pool.kvBuffers, pool.edgeBuffers
    ensures pool.Valid() && pool.Repr() <= old(pool.Repr()) && Becomes(old(pool.Mem()), pool.Mem(), t, t')
    ensures length > 0 && Keeps(pool.Mem(), root.node, root.height, length - 1, t')
    ensures var g := Index(t, p, kv); g < |Flat(t)| && oldKv == Flat(t)[g] && Flat(t') == Take(Flat(t), g)
    ensures Found(t', q, next, if back then Index(t, p, kv) - 1 else Index(t, p, kv))
  {
    hide Holds, Becomes, Balanced, Full, LeafEdge, Kv, Index, Gap, Found, Take, Flat, Pool.Mem, Pool.Valid;
    ghost var m := pool.Mem();
    ghost var i := if back then Index(t, p, kv) - 1 else Index(t, p, kv);
    var edge, emptied; ghost var t1, p1;
    oldKv, edge, emptied, t1, p1 := Remove.RemoveKvTracking(kv, root, false, pool, t, p);
    ghost var m1 := pool.Mem();
    assert Holds(m1, t1) by { Fix.BecomesHolds(m, m1, t, t1); }
    next, q := Neighbour(edge, back, pool, t1, p1);
    t' := t1;
    if emptied {
      FoundBelow(t1, root.height, q, next, i);
      t' := PopEmptied(root, pool, m, t, t1);
      if next.Some? { q := q[1..]; }
    }
    TakeShorter(Flat(t), Index(t, p, kv));
    KeepsOf(m, pool.Mem(), root.node, root.height, length - 1, t, t');
  }

  lemma TakeShorter(f: seq<KV>, g: nat)
    requires g < |f|
    ensures |Take(f, g)| == |f| - 1
  {
  }

  /** The pair with index `i`, or none if there is no such pair. */
  ghost predicate Found(t: Tree, q: Path, kv: Option<Handle>, i: int) {
    if kv.Some? then i >= 0 && Kv(t, q, kv.value) && Index(t, q, kv.value) == i else i < 0 || i >= |Flat(t)|
  }

  method Neighbour(edge: Handle, back: bool, pool: Pool, ghost t: Tree, ghost p: Path)
    returns (kv: Option<Handle>, ghost q: Path)
    requires pool.Valid() && Holds(pool.Mem(), t) && LeafEdge(t, p, edge)
    ensures Found(t, q, kv, if back then Gap(t, p, edge) - 1 else Gap(t, p, edge))
  {
    hide Holds, LeafEdge, Gap, Kv, Index, Flat, Pool.Mem, Pool.Valid;
    if back {
      kv, q := NextBackKv(edge, pool, t, p);
    } else {
      kv, q := NextKv(edge, pool, t, p);
    }
  }

  lemma FoundBelow(t: Tree, h: nat, q: Path, kv: Option<Handle>, i: int)
    requires h > 0 && Full(t, h, 0) && t.kvs == [] && Found(t, q, kv, i)
    ensures |t.kids| == 1 && (kv.Some? ==> q != []) && Found(t.kids[0], if kv.Some? then q[1..] else q, kv, i)
  {
    EmptiedRoot(t, h);
    if kv.Some? { LoweredPair(t, h, q, kv.value); }
  }

  // ----- The cursors

  /** A cursor that only reads. */
  class Cursor {
    const host: BTreeMap
    var current: Option<Handle>
    ghost var path: Path
    ghost var pos: nat

    ghost predicate In(m: Mem)
      reads this, host.Parts()
    {
      this !in host.Parts() && Points(host, m, current, path, pos)
    }

    constructor (host: BTreeMap, current: Option<Handle>, ghost m: Mem, ghost path: Path, ghost pos: nat)
      requires Points(host, m, current, path, pos)
      ensures In(m) && this.host == host && this.pos == pos && this.current == current
    {
      this.host, this.current, this.path, this.pos := host, current, path, pos;
    }

    method Set(current: Option<Handle>, ghost m: Mem, ghost path: Path, ghost pos: nat)
      requires this !in host.Parts() && Points(host, m, current, path, pos)
      modifies this
      ensures In(m) && this.pos == pos && this.current == current && this.path == path
    {
      this.current, this.path, this.pos := current, path, pos;
    }

    /** Moves on along the circle: from the last pair to the ghost, and from there to the first. */
    method MoveNext(pool: Pool)
      requires pool.Valid() && In(pool.Mem())
      modifies this
      ensures In(pool.Mem()) && old(pos) <= |host.Contents()| && pos == Onward(old(pos), |host.Contents()|)
    {
      hide Points, Pool.Mem, Pool.Valid;
      var cur; ghost var q;
      cur, q := NextOf(host, current, pool, path, pos);
      Set(cur, pool.Mem(), q, Onward(pos, |host.Contents()|));
    }

    /** Moves back along the circle: from the first pair to the ghost, and from there to the last. */
    method MovePrev(pool: Pool)
      requires pool.Valid() && In(pool.Mem())
      modifies this
      ensures In(pool.Mem()) && old(pos) <= |host.Contents()| && pos == Backward(old(pos), |host.Contents()|)
    {
      hide Points, Pool.Mem, Pool.Valid;
      var cur; ghost var q;
      cur, q := PrevOf(host, current, pool, path, pos);
      Set(cur, pool.Mem(), q, Backward(pos, |host.Contents()|));
    }

    /** Moving on and back ends at the same handle. */
    method NextThenPrev(pool: Pool)
      requires pool.Valid() && In(pool.Mem())
      modifies this
      ensures In(pool.Mem()) && pos == old(pos) && current == old(current)
    {
      hide Points, Onward, Backward, Pool.Mem, Pool.Valid;
      ghost var c, p, i, n := current, path, pos, |host.Contents()|;
      PointsWithin(host, pool.Mem(), current, path, pos);
      ThereAndBackAgain(i, n);
      MoveNext(pool);
      MovePrev(pool);
      PointsOnce(host, pool.Mem(), c, p, current, path, i);
    }

    /** Moving back and on ends at the same handle. */
    method PrevThenNext(pool: Pool)
      requires pool.Valid() && In(pool.Mem())
      modifies this
      ensures In(pool.Mem()) && pos == old(pos) && current == old(current)
    {
      hide Points, Onward, Backward, Pool.Mem, Pool.Valid;
      ghost var c, p, i, n := current, path, pos, |host.Contents()|;
      PointsWithin(host, pool.Mem(), current, path, pos);
      ThereAndBackAgain(i, n);
      MovePrev(pool);
      MoveNext(pool);
      PointsOnce(host, pool.Mem(), c, p, current, path, i);
    }

    /** The pair at the cursor, if it is not at the ghost. */
    method KeyValue(pool: Pool) returns (kv: Option<KV>)
      requires pool.Valid() && In(pool.Mem())
      ensures kv == PairAt(host.Contents(), pos)
    {
      hide Points, Pool.Mem, Pool.Valid;
      kv := PairOf(host, current, pool, path, pos);
    }

    /** The pair that moving on leads to. */
    method PeekNext(pool: Pool) returns (kv: Option<KV>)
      requires pool.Valid() && In(pool.Mem())
      ensures pos <= |host.Contents()| && kv == PairAt(host.Contents(), Onward(pos, |host.Contents()|))
    {
      hide Points, Pool.Mem, Pool.Valid;
      var cur; ghost var q;
      cur, q := NextOf(host, current, pool, path, pos);
      kv := PairOf(host, cur, pool, q, Onward(pos, |host.Contents()|));
    }

    /** The pair that moving back leads to: at the ghost, the last one. */
    method PeekPrev(pool: Pool) returns (kv: Option<KV>)
      requires pool.Valid() && In(pool.Mem())
      ensures pos <= |host.Contents()| && kv == PairAt(host.Contents(), Backward(pos, |host.Contents()|))
    {
      hide Points, Pool.Mem, Pool.Valid;
      var cur; ghost var q;
      cur, q := PrevOf(host, current, pool, path, pos);
      kv := PairOf(host, cur, pool, q, Backward(pos, |host.Contents()|));
    }
  }

  /** A cursor that edits the map beside it. */
  class CursorMut {
    const host: BTreeMap
    var current: Option<Handle>
    ghost var path: Path
    ghost var pos: nat

    ghost predicate In(m: Mem)
      reads this, host.Parts()
    {
      this !in host.Parts() && Points(host, m, current, path, pos)
    }

    constructor (host: BTreeMap, current: Option<Handle>, ghost m: Mem, ghost path: Path, ghost pos: nat)
      requires Points(host, m, current, path, pos)
      ensures In(m) && this.host == host && this.pos == pos && this.current == current
    {
      this.host, this.current, this.path, this.pos := host, current, path, pos;
    }

    method Set(current: Option<Handle>, ghost m: Mem, ghost path: Path, ghost pos: nat)
      requires this !in host.Parts() && Points(host, m, current, path, pos)
      modifies this
      ensures In(m) && this.pos == pos && this.current == current && this.path == path
    {
      this.current, this.path, this.pos := current, path, pos;
    }

    /** Moves on along the circle: from the last pair to the ghost, and from there to the first. */
    method MoveNext(pool: Pool)
      requires pool.Valid() && In(pool.Mem())
      modifies this
      ensures In(pool.Mem()) && old(pos) <= |host.Contents()| && pos == Onward(old(pos), |host.Contents()|)
    {
      hide Points, Pool.Mem, Pool.Valid;
      var cur; ghost var q;
      cur, q := NextOf(host, current, pool, path, pos);
      Set(cur, pool.Mem(), q, Onward(pos, |host.Contents()|));
    }

    /** Moves back along the circle: from the first pair to the ghost, and from there to the last. */
    method MovePrev(pool: Pool)
      requires pool.Valid() && In(pool.Mem())
      modifies this
      ensures In(pool.Mem()) && old(pos) <= |host.Contents()| && pos == Backward(old(pos), |host.Contents()|)
    {
      hide Points, Pool.Mem, Pool.Valid;
      var cur; ghost var q;
      cur, q := PrevOf(host, current, pool, path, pos);
      Set(cur, pool.Mem(), q, Backward(pos, |host.Contents()|));
    }

    /** The pair at the cursor, if it is not at the ghost. */
    method KeyValue(pool: Pool) returns (kv: Option<KV>)
      requires pool.Valid() && In(pool.Mem())
      ensures kv == PairAt(host.Contents(), pos)
    {
      hide Points, Pool.Mem, Pool.Valid;
      kv := PairOf(host, current, pool, path, pos);
    }

    /** The pair that moving on leads to. */
    method PeekNext(pool: Pool) returns (kv: Option<KV>)
      requires pool.Valid() && In(pool.Mem())
      ensures pos <= |host.Contents()| && kv == PairAt(host.Contents(), Onward(pos, |host.Contents()|))
    {
      hide Points, Pool.Mem, Pool.Valid;
      var cur; ghost var q;
      cur, q := NextOf(host, current, pool, path, pos);
      kv := PairOf(host, cur, pool, q, Onward(pos, |host.Contents()|));
    }

    /** The pair that moving back leads to, but at the ghost the first one. */
    method PeekPrev(pool: Pool) returns (kv: Option<KV>)
      requires pool.Valid() && In(pool.Mem())
      ensures pos <= |host.Contents()| && kv == SeenBack(host.Contents(), pos)
    {
      hide Points, Pool.Mem, Pool.Valid;
      PointsWithin(host, pool.Mem(), current, path, pos);
      PointsGhost(host, pool.Mem(), current, path, pos);
      var cur; ghost var q;
      if current.None? {
        cur, q := NextOf(host, current, pool, path, pos);
      } else {
        cur, q := PrevOf(host, current, pool, path, pos);
      }
      kv := PairOf(host, cur, pool, q, if pos == |host.Contents()| then 0 else Backward(pos, |host.Contents()|));
    }

    /** A read-only cursor at the same place. */
    method AsCursor(ghost m: Mem) returns (cursor: Cursor)
      requires In(m)
      ensures fresh(cursor) && cursor.In(m) && cursor.host == host && cursor.pos == pos && cursor.current == current
    {
      hide Points;
      cursor := new Cursor(host, current, m, path, pos);
    }

    /** Inserts a pair behind the cursor, which stays at its pair; at the ghost, inserts it in front of all. */
    method InsertAfter(kv: KV, pool: Pool)
      requires pool.Valid() && In(pool.Mem())
      modifies this, host.Parts(), pool, pool.nodes, pool.kvBuffers, pool.edgeBuffers
      ensures pool.Valid() && fresh(pool.Repr() - old(pool.Repr())) && fresh(host.Parts() - old(host.Parts()))
      ensures In(pool.Mem()) && Edited(old(pool.Mem()), pool.Mem(), old(host.Owned()), host.Owned())
      ensures var (f, i) := (old(host.Contents()), old(pos));
        i <= |f| && host.Contents() == PutBehind(f, i, kv) && pos == if i == |f| then i + 1 else i
    {
      hide Points, Edited, Put, Onward, BTreeMap.Contents, BTreeMap.Owned, Pool.Mem, Pool.Valid;
      var cur; ghost var q;
      cur, q := PutAfter(host, current, kv, pool, path, pos);
      Set(cur, pool.Mem(), q, if current.None? then pos + 1 else pos);
    }

    /** Inserts a pair before the cursor, which stays at its pair; at the ghost, inserts it behind all. */
    method InsertBefore(kv: KV, pool: Pool)
      requires pool.Valid() && In(pool.Mem())
      modifies this, host.Parts(), pool, pool.nodes, pool.kvBuffers, pool.edgeBuffers
      ensures pool.Valid() && fresh(pool.Repr() - old(pool.Repr())) && fresh(host.Parts() - old(host.Parts()))
      ensures In(pool.Mem()) && Edited(old(pool.Mem()), pool.Mem(), old(host.Owned()), host.Owned())
      ensures var (f, i) := (old(host.Contents()), old(pos));
        i <= |f| && host.Contents() == PutAhead(f, i, kv) && pos == i + 1
    {
      hide Points, Edited, Pool.Mem, Pool.Valid;
      var cur; ghost var q;
      cur, q := PutBefore(host, current, kv, pool, path, pos);
      Set(cur, pool.Mem(), q, pos + 1);
    }

    /** Takes out the pair at the cursor, which then is at the next one. */
    method RemoveCurrent(pool: Pool) returns (kv: Option<KV>)
      requires pool.Valid() && In(pool.Mem())
      modifies this, host.Parts(), pool, pool.nodes, pool.kvBuffers, pool.edgeBuffers
      ensures pool.Valid() && pool.Repr() <= old(pool.Repr()) && host.root == old(host.root)
      ensures In(pool.Mem()) && Edited(old(pool.Mem()), pool.Mem(), old(host.Owned()), host.Owned())
      ensures var (f, i) := (old(host.Contents()), old(pos));
        i <= |f| && kv == PairAt(f, i) && host.Contents() == (if i < |f| then Take(f, i) else f) && pos == i
    {
      hide Points, Edited, Pool.Mem, Pool.Valid;
      ghost var n := |host.Contents()|;
      PointsWithin(host, pool.Mem(), current, path, pos);
      PointsGhost(host, pool.Mem(), current, path, pos);
      if current.None? {
        host.OwnedSame(pool.Mem());
        return None;
      }
      var cur; ghost var q;
      kv, cur, q := TakeOut(host, current.value, false, pool, path, pos);
      Set(cur, pool.Mem(), q, pos);
    }

    /** Takes out the pair at the cursor, which then is at the one before. */
    method RemoveCurrentAndMoveBack(pool: Pool) returns (kv: Option<KV>)
      requires pool.Valid() && In(pool.Mem())
      modifies this, host.Parts(), pool, pool.nodes, pool.kvBuffers, pool.edgeBuffers
      ensures pool.Valid() && pool.Repr() <= old(pool.Repr()) && host.root == old(host.root)
      ensures In(pool.Mem()) && Edited(old(pool.Mem()), pool.Mem(), old(host.Owned()), host.Owned())
      ensures var (f, i) := (old(host.Contents()), old(pos));
        && i <= |f| && kv == PairAt(f, i) && host.Contents() == (if i < |f| then Take(f, i) else f)
        && pos == if i == |f| then i else Backward(i, |f| - 1)
    {
      hide Points, Edited, Pool.Mem, Pool.Valid;
      PointsWithin(host, pool.Mem(), current, path, pos);
      PointsGhost(host, pool.Mem(), current, path, pos);
      if current.None? {
        host.OwnedSame(pool.Mem());
        return None;
      }
      ghost var n := |host.Contents()|;
      var cur; ghost var q;
      kv, cur, q := TakeOut(host, current.value, true, pool, path, pos);
      Set(cur, pool.Mem(), q, Backward(pos, n - 1));
    }
  }

  /** The pair at a position on the circle. */
  ghost function PairAt(f: seq<KV>, pos: nat): Option<KV> { if pos < |f| then Some(f[pos]) else None }

  /** What a mutable cursor takes for the pair before a position. */
  ghost function SeenBack(f: seq<KV>, pos: nat): Option<KV>
    requires pos <= |f|
  {
    PairAt(f, if pos == |f| then 0 else Backward(pos, |f|))
  }

  /** A pair put behind a position, and before it. */
  ghost function PutBehind(f: seq<KV>, pos: nat, x: KV): seq<KV>
    requires pos <= |f|
  {
    Put(f, Onward(pos, |f|), x)
  }

  ghost function PutAhead(f: seq<KV>, pos: nat, x: KV): seq<KV>
    requires pos <= |f|
  {
    Put(f, pos, x)
  }

  /** The pair at a position, the next one and the one before, where the ghost lies between the last and the first. */
  lemma PairsAround(f: seq<KV>, pos: nat)
    requires pos <= |f|
    ensures PairAt(f, pos) == if pos < |f| then Some(f[pos]) else None
    ensures PairAt(f, Onward(pos, |f|)) ==
      if pos + 1 < |f| then Some(f[pos + 1]) else if pos == |f| && f != [] then Some(f[0]) else None
    ensures PairAt(f, Backward(pos, |f|)) == if pos > 0 then Some(f[pos - 1]) else None
  {
  }

  /** At a pair a mutable cursor sees the pair before, none at the first; at the ghost it sees the first pair. */
  lemma SeenBackIs(f: seq<KV>, pos: nat)
    requires pos <= |f|
    ensures 0 < pos < |f| ==> SeenBack(f, pos) == Some(f[pos - 1])
    ensures 0 == pos < |f| ==> SeenBack(f, pos) == None
    ensures pos == |f| ==> SeenBack(f, pos) == if f == [] then None else Some(f[0])
  {
  }

  /** A pair put before a position is there, unchanged, and the other pairs are as they were around it. */
  lemma PutAheadIs(f: seq<KV>, pos: nat, x: KV, i: nat)
    requires pos <= |f| && i <= |f|
    ensures |PutAhead(f, pos, x)| == |f| + 1
    ensures PutAhead(f, pos, x)[i] == if i < pos then f[i] else if i == pos then x else f[i - 1]
  {
  }

  /** A pair put behind a position comes next there; behind the ghost, it comes first. */
  lemma PutBehindIs(f: seq<KV>, pos: nat, x: KV, i: nat)
    requires pos <= |f| && i <= |f|
    ensures |PutBehind(f, pos, x)| == |f| + 1
    ensures pos < |f| ==> PutBehind(f, pos, x)[i] == if i <= pos then f[i] else if i == pos + 1 then x else f[i - 1]
    ensures pos == |f| ==> PutBehind(f, pos, x)[i] == if i == 0 then x else f[i - 1]
  {
  }

  lemma PointsGhost(host: BTreeMap, m: Mem, cur: Option<Handle>, q: Path, pos: nat)
    requires Points(host, m, cur, q, pos)
    ensures cur.None? <==> pos == |host.Contents()|
  {
  }

  lemma PointsNone(host: BTreeMap, m: Mem, q: Path)
    requires host.In(m)
    ensures Points(host, m, None, q, |host.Contents()|)
  {
  }

  lemma NoRoot(host: BTreeMap, m: Mem)
    requires host.In(m) && host.root.None?
    ensures host.Contents() == []
  {
  }

  /** The pair right of the first leaf edge, or left of the last, looking into that leaf only. */
  method FirstOf(host: BTreeMap, pool: Pool) returns (cur: Option<Handle>, ghost q: Path)
    requires pool.Valid() && host.In(pool.Mem()) && host.root.Some?
    ensures Points(host, pool.Mem(), cur, q, 0)
  {
    hide Kv, Index, Flat, Holds, Balanced, Pool.Mem, Pool.Valid;
    cur, q := FirstEntry(host.root.value, host.length, pool, host.tree.value);
  }

  method LastOf(host: BTreeMap, pool: Pool) returns (cur: Option<Handle>, ghost q: Path)
    requires pool.Valid() && host.In(pool.Mem()) && host.root.Some?
    ensures Points(host, pool.Mem(), cur, q, Backward(|host.Contents()|, |host.Contents()|))
  {
    hide Kv, Index, Flat, Holds, Balanced, Pool.Mem, Pool.Valid;
    cur, q := LastEntry(host.root.value, host.length, pool, host.tree.value);
  }

  method NextOf(host: BTreeMap, current: Option<Handle>, pool: Pool, ghost path: Path, ghost pos: nat)
    returns (cur: Option<Handle>, ghost q: Path)
    requires pool.Valid() && Points(host, pool.Mem(), current, path, pos)
    ensures pos <= |host.Contents()| && Points(host, pool.Mem(), cur, q, Onward(pos, |host.Contents()|))
  {
    hide Points, Beside, BTreeMap.In, Pool.Mem, Pool.Valid;
    PointsWithin(host, pool.Mem(), current, path, pos);
    PointsGhost(host, pool.Mem(), current, path, pos);
    if current.None? {
      cur, q := None, [];
      if host.root.Some? {
        cur, q := FirstOf(host, pool);
      } else {
        NoRoot(host, pool.Mem());
        PointsNone(host, pool.Mem(), q);
      }
    } else {
      var edge; ghost var p;
      edge, p := EdgeAfter(host, current.value, pool, path, pos);
      cur, q := KvRight(host, edge, pool, p, pos + 1);
    }
  }

  method PrevOf(host: BTreeMap, current: Option<Handle>, pool: Pool, ghost path: Path, ghost pos: nat)
    returns (cur: Option<Handle>, ghost q: Path)
    requires pool.Valid() && Points(host, pool.Mem(), current, path, pos)
    ensures pos <= |host.Contents()| && Points(host, pool.Mem(), cur, q, Backward(pos, |host.Contents()|))
  {
    hide Points, Beside, BTreeMap.In, Pool.Mem, Pool.Valid;
    PointsWithin(host, pool.Mem(), current, path, pos);
    PointsGhost(host, pool.Mem(), current, path, pos);
    if current.None? {
      cur, q := None, [];
      if host.root.Some? {
        cur, q := LastOf(host, pool);
      } else {
        NoRoot(host, pool.Mem());
        PointsNone(host, pool.Mem(), q);
      }
    } else {
      var edge; ghost var p;
      edge, p := EdgeBefore(host, current.value, pool, path, pos);
      cur, q := KvLeft(host, edge, pool, p, pos);
    }
  }

  method PairOf(host: BTreeMap, cur: Option<Handle>, pool: Pool, ghost q: Path, ghost pos: nat) returns (kv: Option<KV>)
    requires pool.Valid() && Points(host, pool.Mem(), cur, q, pos)
    ensures kv == PairAt(host.Contents(), pos)
  {
    hide Kv, Index, Flat, Holds, Balanced, Pool.Mem, Pool.Valid;
    if cur.None? { return None; }
    RootHeld(host, pool.Mem());
    var x := ReadPair(cur.value, pool, host.tree.value, q);
    kv := Some(x);
  }

  method PutAlone(host: BTreeMap, kv: KV, pool: Pool) returns (ghost q: Path)
    requires pool.Valid() && host.In(pool.Mem()) && host.root.None?
    modifies host.Parts(), pool, pool.nodes, pool.kvBuffers, pool.edgeBuffers
    ensures pool.Valid() && fresh(pool.Repr() - old(pool.Repr())) && fresh(host.Parts() - old(host.Parts()))
    ensures Edited(old(pool.Mem()), pool.Mem(), old(host.Owned()), host.Owned())
    ensures old(host.Contents()) == [] && host.Contents() == Put([], 0, kv) && Points(host, pool.Mem(), None, q, 1)
  {
    hide Points, BTreeMap.In, Edited, BTreeMap.Owned, BTreeMap.Contents, Pool.Mem, Pool.Valid;
    NoRoot(host, pool.Mem());
    var _, _ := host.InsertFirst(kv, pool);
    q := [];
    PointsNone(host, pool.Mem(), q);
  }

  /** The edge behind a cursor; behind the ghost, the first one. */
  method EdgeBehind(host: BTreeMap, current: Option<Handle>, pool: Pool, ghost path: Path, ghost pos: nat)
    returns (edge: Handle, ghost p: Path)
    requires pool.Valid() && Points(host, pool.Mem(), current, path, pos) && (current.None? ==> host.root.Some?)
    ensures pos <= |host.Contents()| && Beside(host, pool.Mem(), edge, p, Onward(pos, |host.Contents()|))
  {
    hide Points, Beside, BTreeMap.In, BTreeMap.Contents, Pool.Mem, Pool.Valid;
    PointsWithin(host, pool.Mem(), current, path, pos);
    PointsGhost(host, pool.Mem(), current, path, pos);
    if current.None? {
      edge, p := FirstEdge(host, pool);
    } else {
      edge, p := EdgeAfter(host, current.value, pool, path, pos);
    }
  }

  method PutAfter(host: BTreeMap, current: Option<Handle>, kv: KV, pool: Pool, ghost path: Path, ghost pos: nat)
    returns (cur: Option<Handle>, ghost q: Path)
    requires pool.Valid() && Points(host, pool.Mem(), current, path, pos)
    modifies host.Parts(), pool, pool.nodes, pool.kvBuffers, pool.edgeBuffers
    ensures pool.Valid() && fresh(pool.Repr() - old(pool.Repr())) && fresh(host.Parts() - old(host.Parts()))
    ensures Edited(old(pool.Mem()), pool.Mem(), old(host.Owned()), host.Owned())
    ensures var f := old(host.Contents()); pos <= |f| && host.Contents() == Put(f, Onward(pos, |f|), kv)
    ensures (current.None? <==> pos == old(|host.Contents()|))
    ensures Points(host, pool.Mem(), cur, q, if current.None? then pos + 1 else pos)
  {
    hide Points, Beside, Edited, Put, BTreeMap.In, BTreeMap.Owned, BTreeMap.Contents;
    hide Pool.Mem, Pool.Valid;
    PointsWithin(host, pool.Mem(), current, path, pos);
    PointsGhost(host, pool.Mem(), current, path, pos);
    if current.None? && host.root.None? {
      q := PutAlone(host, kv, pool);
      return None, q;
    }
    var edge; ghost var p;
    edge, p := EdgeBehind(host, current, pool, path, pos);
    ghost var gap := Onward(pos, |host.Contents()|);
    var left, right;
    left, right, p := InsertBeside(host, edge, kv, pool, p, gap);
    cur, q := KvLeft(host, left, pool, p, gap);
  }

  method PutBefore(host: BTreeMap, current: Option<Handle>, kv: KV, pool: Pool, ghost path: Path, ghost pos: nat)
    returns (cur: Option<Handle>, ghost q: Path)
    requires pool.Valid() && Points(host, pool.Mem(), current, path, pos)
    modifies host.Parts(), pool, pool.nodes, pool.kvBuffers, pool.edgeBuffers
    ensures pool.Valid() && fresh(pool.Repr() - old(pool.Repr())) && fresh(host.Parts() - old(host.Parts()))
    ensures Edited(old(pool.Mem()), pool.Mem(), old(host.Owned()), host.Owned())
    ensures var f := old(host.Contents()); pos <= |f| && host.Contents() == Put(f, pos, kv)
    ensures Points(host, pool.Mem(), cur, q, pos + 1)
  {
    hide Points, Beside, BTreeMap.In, Edited, BTreeMap.Owned, BTreeMap.Contents, Put, Pool.Mem, Pool.Valid;
    PointsWithin(host, pool.Mem(), current, path, pos);
    PointsGhost(host, pool.Mem(), current, path, pos);
    var edge; ghost var p;
    if current.None? {
      if host.root.None? {
        q := PutAlone(host, kv, pool);
        return None, q;
      }
      edge, p := LastEdge(host, pool);
    } else {
      edge, p := EdgeBefore(host, current.value, pool, path, pos);
    }
    var left, right;
    left, right, p := InsertBeside(host, edge, kv, pool, p, pos);
    cur, q := KvRight(host, right, pool, p, pos + 1);
  }

  method TakeOut(host: BTreeMap, kv: Handle, back: bool, pool: Pool, ghost path: Path, ghost pos: nat)
    returns (oldKv: Option<KV>, cur: Option<Handle>, ghost q: Path)
    requires pool.Valid() && Points(host, pool.Mem(), Some(kv), path, pos)
    modifies host.Parts(), pool, pool.nodes, pool.kvBuffers, pool.edgeBuffers
    ensures pool.Valid() && pool.Repr() <= old(pool.Repr()) && host.root == old(host.root)
    ensures Edited(old(pool.Mem()), pool.Mem(), old(host.Owned()), host.Owned())
    ensures var f := old(host.Contents()); pos < |f| && oldKv == Some(f[pos]) && host.Contents() == Take(f, pos)
    ensures Points(host, pool.Mem(), cur, q, if back then Backward(pos, |host.Contents()|) else pos)
  {
    hide Becomes, Holds, Flat, Kv, Index, Edited, Take, Bag, SubAt, ValidPath, Keeps, Found, Pool.Mem, Pool.Valid;
    ghost var m, t := pool.Mem(), host.tree.value;
    TakeShorter(host.Contents(), pos);
    var x; ghost var t';
    x, cur, t', q := TakePair(host.root.value, host.length, kv, back, pool, t, path);
    oldKv := Some(x);
    BecomesEdited(m, pool.Mem(), t, t');
    host.SetTree(host.length - 1, pool.Mem(), t');
    PointsFound(host, pool.Mem(), cur, q, back, pos);
  }

  lemma PointsFound(host: BTreeMap, m: Mem, cur: Option<Handle>, q: Path, back: bool, pos: nat)
    requires host.In(m) && host.tree.Some? && pos <= |host.Contents()|
    requires Found(host.tree.value, q, cur, if back then pos - 1 else pos)
    ensures Points(host, m, cur, q, if back then Backward(pos, |host.Contents()|) else pos)
  {
    hide Kv, Index, Flat, Keeps;
    if cur.Some? { Remove.IndexWithin(host.tree.value, q, cur.value); }
  }

  // ----- Cursors at bounds

  /** The first pair above a bound, or none. */
  method FromLowerBound(host: BTreeMap, comp: Comparator, bound: SearchBound, pool: Pool)
    returns (kv: Option<Handle>, ghost q: Path)
    requires pool.Valid() && host.In(pool.Mem()) && Monotone(host.Contents(), comp)
    ensures Points(host, pool.Mem(), kv, q, LowerCut(host.Contents(), comp, bound))
  {
    hide Holds, Flat, Balanced, LeafEdge, Gap, Kv, Index, Monotone, Points, Beside, LowerCut, Pool.Mem, Pool.Valid;
    kv, q := None, [];
    if host.root.None? {
      NoRoot(host, pool.Mem());
      PointsNone(host, pool.Mem(), q);
    } else {
      var edge;
      edge, q := LowerEdge(host, comp, bound, pool);
      kv, q := KvRight(host, edge, pool, q, LowerCut(host.Contents(), comp, bound));
    }
  }

  /** The last pair below a bound, or none. */
  method FromUpperBound(host: BTreeMap, comp: Comparator, bound: SearchBound, pool: Pool)
    returns (kv: Option<Handle>, ghost q: Path)
    requires pool.Valid() && host.In(pool.Mem()) && Monotone(host.Contents(), comp)
    ensures Points(host, pool.Mem(), kv, q, Backward(UpperCut(host.Contents(), comp, bound), |host.Contents()|))
  {
    hide Holds, Flat, Balanced, LeafEdge, Gap, Kv, Index, Monotone, Points, Beside, UpperCut, Pool.Mem, Pool.Valid;
    kv, q := None, [];
    if host.root.None? {
      NoRoot(host, pool.Mem());
      PointsNone(host, pool.Mem(), q);
    } else {
      var edge;
      edge, q := UpperEdge(host, comp, bound, pool);
      kv, q := KvLeft(host, edge, pool, q, UpperCut(host.Contents(), comp, bound));
    }
  }

  /** A cursor at the first pair above a bound, or at the ghost. */
  method AtLowerBound(host: BTreeMap, comp: Comparator, bound: SearchBound, pool: Pool) returns (cursor: Cursor)
    requires pool.Valid() && host.In(pool.Mem()) && Monotone(host.Contents(), comp)
    ensures fresh(cursor) && cursor.host == host && cursor.In(pool.Mem())
    ensures cursor.pos == LowerCut(host.Contents(), comp, bound)
  {
    hide Points, Monotone, LowerCut, BTreeMap.In, Pool.Mem, Pool.Valid;
    var kv; ghost var q;
    kv, q := FromLowerBound(host, comp, bound, pool);
    cursor := new Cursor(host, kv, pool.Mem(), q, LowerCut(host.Contents(), comp, bound));
  }

  /** A cursor at the last pair below a bound, or at the ghost. */
  method AtUpperBound(host: BTreeMap, comp: Comparator, bound: SearchBound, pool: Pool) returns (cursor: Cursor)
    requires pool.Valid() && host.In(pool.Mem()) && Monotone(host.Contents(), comp)
    ensures fresh(cursor) && cursor.host == host && cursor.In(pool.Mem())
    ensures cursor.pos == Backward(UpperCut(host.Contents(), comp, bound), |host.Contents()|)
  {
    hide Points, Monotone, UpperCut, BTreeMap.In, Pool.Mem, Pool.Valid;
    var kv; ghost var q;
    kv, q := FromUpperBound(host, comp, bound, pool);
    cursor := new Cursor(host, kv, pool.Mem(), q, Backward(UpperCut(host.Contents(), comp, bound), |host.Contents()|));
  }

  /** A cursor at the first pair above a bound, or at the ghost. */
  method AtLowerBoundMut(host: BTreeMap, comp: Comparator, bound: SearchBound, pool: Pool) returns (cursor: CursorMut)
    requires pool.Valid() && host.In(pool.Mem()) && Monotone(host.Contents(), comp)
    ensures fresh(cursor) && cursor.host == host && cursor.In(pool.Mem())
    ensures cursor.pos == LowerCut(host.Contents(), comp, bound)
  {
    hide Points, Monotone, LowerCut, BTreeMap.In, Pool.Mem, Pool.Valid;
    var kv; ghost var q;
    kv, q := FromLowerBound(host, comp, bound, pool);
    cursor := new CursorMut(host, kv, pool.Mem(), q, LowerCut(host.Contents(), comp, bound));
  }

  /** A cursor at the last pair below a bound, or at the ghost. */
  method AtUpperBoundMut(host: BTreeMap, comp: Comparator, bound: SearchBound, pool: Pool) returns (cursor: CursorMut)
    requires pool.Valid() && host.In(pool.Mem()) && Monotone(host.Contents(), comp)
    ensures fresh(cursor) && cursor.host == host && cursor.In(pool.Mem())
    ensures cursor.pos == Backward(UpperCut(host.Contents(), comp, bound), |host.Contents()|)
  {
    hide Points, Monotone, UpperCut, BTreeMap.In, Pool.Mem, Pool.Valid;
    var kv; ghost var q;
    kv, q := FromUpperBound(host, comp, bound, pool);
    cursor := new CursorMut(host, kv, pool.Mem(), q,
                            Backward(UpperCut(host.Contents(), comp, bound), |host.Contents()|));
  }

  method LowerEdge(host: BTreeMap, comp: Comparator, bound: SearchBound, pool: Pool)
    returns (edge: Handle, ghost p: Path)
    requires pool.Valid() && host.In(pool.Mem()) && host.root.Some? && Monotone(host.Contents(), comp)
    ensures Beside(host, pool.Mem(), edge, p, LowerCut(host.Contents(), comp, bound))
  {
    hide Holds, Flat, Balanced, LeafEdge, Gap, Monotone, LowerCut, UpperCut, SubAt, Trees.Before, Pool.Mem, Pool.Valid;
    RootHeld(host, pool.Mem());
    var t := host.tree.value;
    AtRoot(t);
    assert [] + Flat(t) == Flat(t);
    edge, p := Ranges.LowerBound(host.root.value.node, comp, bound, pool, t, [], bound);
  }

  method UpperEdge(host: BTreeMap, comp: Comparator, bound: SearchBound, pool: Pool)
    returns (edge: Handle, ghost p: Path)
    requires pool.Valid() && host.In(pool.Mem()) && host.root.Some? && Monotone(host.Contents(), comp)
    ensures Beside(host, pool.Mem(), edge, p, UpperCut(host.Contents(), comp, bound))
  {
    hide Holds, Flat, Balanced, LeafEdge, Gap, Monotone, LowerCut, UpperCut, SubAt, Trees.Before, Pool.Mem, Pool.Valid;
    RootHeld(host, pool.Mem());
    ghost var t := host.tree.value;
    AtRoot(t);
    edge, p := Ranges.UpperBound(host.root.value.node, comp, bound, pool, t, [], bound);
  }

  // ----- Where the documentation promises more

  /** A mutable cursor sees the pair that moving back leads to, as a read-only cursor does, exactly if it is not at the
      ghost or there are not two pairs. */
  lemma PeekPrevOffGhost(f: seq<KV>, lt: Precedence, pos: nat)
    requires pos <= |f| && (forall x :: !lt(x, x)) && Sorted(f, lt)
    ensures SeenBack(f, pos) == PairAt(f, Backward(pos, |f|)) <==> pos < |f| || |f| <= 1
  {
    if pos == |f| && |f| > 1 { assert lt(f[0].key, f[|f| - 1].key); }
  }

  /** With two pairs, the pair before the ghost is the second, but a mutable cursor sees the first. */
  lemma PeekPrevFails(x: KV, y: KV)
    requires x != y
    ensures PairAt([x, y], Backward(2, 2)) == Some(y) && SeenBack([x, y], 2) == Some(x) != Some(y)
  {
  }

  lemma PutKeepsOrder(f: seq<KV>, lt: Precedence, gap: nat, x: KV)
    requires gap <= |f| && (forall x, y, z :: lt(x, y) && lt(y, z) ==> lt(x, z)) && Sorted(f, lt)
    ensures Sorted(Put(f, gap, x), lt) <==>
      (gap > 0 ==> lt(f[gap - 1].key, x.key)) && (gap < |f| ==> lt(x.key, f[gap].key))
  {
    var g := Put(f, gap, x);
    assert forall i :: 0 <= i < |g| ==> g[i] == if i < gap then f[i] else if i == gap then x else f[i - 1];
    if (gap > 0 ==> lt(f[gap - 1].key, x.key)) && (gap < |f| ==> lt(x.key, f[gap].key)) {
      forall i, j | 0 <= i < j < |g| ensures lt(g[i].key, g[j].key) {
        if i < gap { assert lt(f[i].key, x.key); }
        if j > gap { assert lt(x.key, f[j - 1].key); }
      }
    } else if gap > 0 && !lt(f[gap - 1].key, x.key) {
      assert !lt(g[gap - 1].key, g[gap].key);
    } else {
      assert !lt(g[gap].key, g[gap + 1].key);
    }
  }

  /** Inserting does not check keys. Behind a position it keeps the pairs in order exactly if the new key lies between
      those of the pair there and of the next one, if any. */
  lemma InsertAfterKeepsOrder(f: seq<KV>, lt: Precedence, pos: nat, x: KV)
    requires pos <= |f| && (forall x, y, z :: lt(x, y) && lt(y, z) ==> lt(x, z)) && Sorted(f, lt)
    ensures var (here, next) := (PairAt(f, pos), PairAt(f, Onward(pos, |f|)));
      Sorted(PutBehind(f, pos, x), lt) <==>
        (here.Some? ==> lt(here.value.key, x.key)) && (next.Some? ==> lt(x.key, next.value.key))
  {
    PutKeepsOrder(f, lt, Onward(pos, |f|), x);
  }

  /** And before a position, if it lies between those of the pair before and of the one there, if any. */
  lemma InsertBeforeKeepsOrder(f: seq<KV>, lt: Precedence, pos: nat, x: KV)
    requires pos <= |f| && (forall x, y, z :: lt(x, y) && lt(y, z) ==> lt(x, z)) && Sorted(f, lt)
    ensures var (previous, here) := (PairAt(f, Backward(pos, |f|)), PairAt(f, pos));
      Sorted(PutAhead(f, pos, x), lt) <==>
        (previous.Some? ==> lt(previous.value.key, x.key)) && (here.Some? ==> lt(x.key, here.value.key))
  {
    PutKeepsOrder(f, lt, pos, x);
  }

  /** A smaller key goes in behind a pair, and leaves the pairs out of order. */
  lemma InsertAfterFails(lt: Precedence, x: KV, y: KV)
    requires lt(y.key, x.key) && !lt(x.key, y.key)
    ensures PutBehind([x], 0, y) == [x, y] && Sorted([x], lt) && !Sorted(PutBehind([x], 0, y), lt)
  {
    var g := [x, y];
    assert !lt(g[0].key, g[1].key);
  }
}
