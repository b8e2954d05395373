/** The owning iterator: takes the pairs of a tree from both ends and releases its nodes on the way. */
module IntoIters {
  import opened Nodes
  import opened Options
  import opened Trees
  import opened Memory
  import opened Places
  import opened Navigate
  import opened Dying

  /** A leaf edge, or the root as long as nothing has been taken from this end. */
  datatype LazyHandle = AtTop(root: Node) | AtEdge(edge: Handle)

  ghost predicate FrontIn(t: Tree, p: Path, lo: nat, h: LazyHandle) {
    match h
    case AtTop(root) => root == t.node && p == [] && lo == 0
    case AtEdge(e) => LeafEdge(t, p, e) && Gap(t, p, e) == lo
  }

  ghost predicate BackIn(t: Tree, q: Path, hi: nat, h: LazyHandle) {
    match h
    case AtTop(root) => root == t.node && q == [] && hi == |Flat(t)|
    case AtEdge(e) => LeafEdge(t, q, e) && Gap(t, q, e) == hi
  }

  lemma FrontReach(t: Tree, p: Path, lo: nat, h: LazyHandle)
    requires FrontIn(t, p, lo, h)
    ensures FrontFrom(t, Reach(p, false), lo)
  {
  }

  lemma BackReach(t: Tree, q: Path, hi: nat, h: LazyHandle)
    requires BackIn(t, q, hi, h)
    ensures BackFrom(t, Reach(q, false), hi) && hi <= |Flat(t)|
  {
    if h.AtEdge? { FlatAt(t, q); }
  }

  /** Once no pair is left between them, nothing is left right of the front leaf. */
  lemma EndsMeet(t: Tree, p: Path, e: Handle, q: Path, b: LazyHandle, hi: nat)
    requires LeafEdge(t, p, e) && Gap(t, p, e) == hi && BackIn(t, q, hi, b)
    ensures Met(t, p, Reach(q, false))
  {
    if b.AtEdge? {
      GapOfOneEdge(t, p, e, q, b.edge);
    } else {
      forall x: Path | ValidPath(t, x) ensures !Precedes(p, x) {
        if Precedes(p, x) { PrecedesBefore(t, p, x); }
        FlatAt(t, x);
      }
    }
  }

  lemma TopSpared(t: Tree)
    ensures FirstSpared([], Reach([], false)) && LastSpared(t, [], Reach([], false))
  {
  }

  lemma FirstReached(m0: Mem, m: Mem, t: Tree, z: Path, b: Reach)
    requires Remains(m0, m, t, Reach([], false), b) && Zeros(z)
    ensures Remains(m0, m, t, Reach(z, false), b)
  {
    forall x: Path | ValidPath(t, x) ensures LiveAt(x, Reach([], false), b) <==> LiveAt(x, Reach(z, false), b) {
      ZerosFirst(z, x);
    }
    SameFreed(m0, m, t, Reach([], false), b, Reach(z, false), b);
  }

  lemma LastReached(m0: Mem, m: Mem, t: Tree, f: Reach, w: Path)
    requires Remains(m0, m, t, f, Reach([], false)) && Rightmost(t, w)
    ensures Remains(m0, m, t, f, Reach(w, false))
  {
    forall x: Path | ValidPath(t, x) ensures LiveAt(x, f, Reach([], false)) <==> LiveAt(x, f, Reach(w, false)) {
      RightmostLast(t, w, x);
    }
    SameFreed(m0, m, t, f, Reach([], false), f, Reach(w, false));
  }

  /** The leaf edge of the front, found from the root if it is not there yet. */
  method FrontEdge(front: LazyHandle, pool: Pool, ghost m0: Mem, ghost t: Tree, ghost p: Path, ghost lo: nat,
                   ghost q: Path, ghost hi: nat)
    returns (edge: Handle, ghost p': Path)
    requires pool.Valid() && FrontIn(t, p, lo, front) && BackFrom(t, Reach(q, false), hi)
    requires Remains(m0, pool.Mem(), t, Reach(p, false), Reach(q, false))
    ensures LeafEdge(t, p', edge) && Gap(t, p', edge) == lo
    ensures Remains(m0, pool.Mem(), t, Reach(p', false), Reach(q, false))
  {
    hide Remains, SubAt, ValidPath, Before, FirstSpared, LastSpared, BackFrom, Pool.Mem, Pool.Valid;
    match front {
      case AtEdge(e) => edge, p' := e, p;
      case AtTop(root) =>
        AtRoot(t);
        TopSpared(t);
        edge, p' := DyingFirstLeafEdge(root, pool, m0, t, Reach([], false), Reach(q, false), [], hi);
        assert [] + p' == p';
        FirstReached(m0, pool.Mem(), t, p', Reach(q, false));
    }
  }

  method BackEdge(back: LazyHandle, pool: Pool, ghost m0: Mem, ghost t: Tree, ghost p: Path, ghost lo: nat,
                  ghost q: Path, ghost hi: nat)
    returns (edge: Handle, ghost q': Path)
    requires pool.Valid() && BackIn(t, q, hi, back) && FrontFrom(t, Reach(p, false), lo) && lo <= hi
    requires Remains(m0, pool.Mem(), t, Reach(p, false), Reach(q, false))
    ensures LeafEdge(t, q', edge) && Gap(t, q', edge) == hi
    ensures Remains(m0, pool.Mem(), t, Reach(p, false), Reach(q', false))
  {
    hide Remains, SubAt, ValidPath, Before, FirstSpared, LastSpared, FrontFrom, Pool.Mem, Pool.Valid;
    match back {
      case AtEdge(e) => edge, q' := e, q;
      case AtTop(root) =>
        AtRoot(t);
        TopSpared(t);
        edge, q' := DyingLastLeafEdge(root, pool, m0, t, Reach(p, false), Reach([], false), [], lo);
        assert [] + q' == q';
        LastReached(m0, pool.Mem(), t, Reach(p, false), q');
    }
  }

  /** How far a tree `t`, held in memory `m0`, has been walked: the pairs from `lo` to `hi` are left, and the nodes
      left of `p` and right of `q` are released. */
  datatype Walk = Walk(m0: Mem, t: Tree, p: Path, q: Path, lo: nat, hi: nat)

  ghost predicate Walking(w: Walk, m: Mem, front: LazyHandle, back: LazyHandle, length: nat) {
    && w.lo + length == w.hi <= |Flat(w.t)| && FrontIn(w.t, w.p, w.lo, front) && BackIn(w.t, w.q, w.hi, back)
    && Remains(w.m0, m, w.t, Reach(w.p, false), Reach(w.q, false))
  }

  ghost function PairsLeft(w: Walk): seq<KV>
    requires w.lo <= w.hi <= |Flat(w.t)|
  {
    Flat(w.t)[w.lo..w.hi]
  }

  lemma WalkingLeft(w: Walk, m: Mem, front: LazyHandle, back: LazyHandle, length: nat)
    requires Walking(w, m, front, back, length)
    ensures w.lo + length == w.hi <= |Flat(w.t)| && |PairsLeft(w)| == length
  {
  }

  /** The walk only depends on the nodes of its tree. */
  lemma WalkingKept(w: Walk, m: Mem, m': Mem, front: LazyHandle, back: LazyHandle, length: nat)
    requires Walking(w, m, front, back, length)
    requires forall n :: n in Bag(w.t) ==> (n in m <==> n in m') && (n in m ==> m'[n] == m[n])
    ensures Walking(w, m', front, back, length)
  {
    var f, b := Reach(w.p, false), Reach(w.q, false);
    forall x: Path | ValidPath(w.t, x) ensures SubAt(w.t, x).node in m' <==> LiveAt(x, f, b) { NodeIn(w.t, x); }
  }

  lemma PairsShorter(w: Walk)
    requires w.lo < w.hi <= |Flat(w.t)|
    ensures PairsLeft(w)[0] == Flat(w.t)[w.lo] && PairsLeft(w)[1..] == Flat(w.t)[w.lo + 1..w.hi]
    ensures PairsLeft(w)[w.hi - w.lo - 1] == Flat(w.t)[w.hi - 1]
    ensures PairsLeft(w)[..w.hi - w.lo - 1] == Flat(w.t)[w.lo..w.hi - 1]
  {
  }

  method WalkFront(front: LazyHandle, pool: Pool, ghost w: Walk, ghost back: LazyHandle, ghost length: nat)
    returns (next: Handle, kv: KV, ghost w': Walk)
    requires pool.Valid() && Walking(w, pool.Mem(), front, back, length) && length > 0
    modifies pool
    ensures pool.Valid() && pool.Repr() <= old(pool.Repr()) && Shrunk(old(pool.Mem()), pool.Mem(), Bag(w.t))
    ensures w'.t == w.t && Walking(w', pool.Mem(), AtEdge(next), back, length - 1) && w'.lo <= w'.hi <= |Flat(w'.t)|
    ensures kv == PairsLeft(w)[0] && PairsLeft(w') == PairsLeft(w)[1..]
  {
    hide Remains, SubAt, ValidPath, Before, Shrunk, BackFrom, Flat, Pool.Mem, Pool.Valid;
    BackReach(w.t, w.q, w.hi, back);
    var edge; ghost var p;
    edge, p := FrontEdge(front, pool, w.m0, w.t, w.p, w.lo, w.q, w.hi);
    next, kv, p := DeallocatingNext(edge, pool, w.m0, w.t, p, Reach(w.q, false), w.lo, w.hi);
    w' := w.(p := p, lo := w.lo + 1);
    PairsShorter(w);
  }

  method WalkBack(back: LazyHandle, pool: Pool, ghost w: Walk, ghost front: LazyHandle, ghost length: nat)
    returns (next: Handle, kv: KV, ghost w': Walk)
    requires pool.Valid() && Walking(w, pool.Mem(), front, back, length) && length > 0
    modifies pool
    ensures pool.Valid() && pool.Repr() <= old(pool.Repr()) && Shrunk(old(pool.Mem()), pool.Mem(), Bag(w.t))
    ensures w'.t == w.t && Walking(w', pool.Mem(), front, AtEdge(next), length - 1) && w'.lo <= w'.hi <= |Flat(w'.t)|
    ensures kv == PairsLeft(w)[length - 1] && PairsLeft(w') == PairsLeft(w)[..length - 1]
  {
    hide Remains, SubAt, ValidPath, Before, Shrunk, FrontFrom, Flat, Pool.Mem, Pool.Valid;
    FrontReach(w.t, w.p, w.lo, front);
    var edge; ghost var q;
    edge, q := BackEdge(back, pool, w.m0, w.t, w.p, w.lo, w.q, w.hi);
    next, kv, q := DeallocatingNextBack(edge, pool, w.m0, w.t, q, Reach(w.p, false), w.lo, w.hi);
    w' := w.(q := q, hi := w.hi - 1);
    PairsShorter(w);
  }

  method WalkEnd(front: LazyHandle, pool: Pool, ghost w: Walk, ghost back: LazyHandle)
    requires pool.Valid() && Walking(w, pool.Mem(), front, back, 0)
    modifies pool
    ensures pool.Valid() && pool.Repr() <= old(pool.Repr()) && Shrunk(old(pool.Mem()), pool.Mem(), Bag(w.t))
    ensures forall n :: n in Bag(w.t) ==> n !in pool.Mem()
  {
    hide Remains, SubAt, ValidPath, Before, Met, Shrunk, BackFrom, Flat, Pool.Mem, Pool.Valid;
    BackReach(w.t, w.q, w.hi, back);
    var edge; ghost var p;
    edge, p := FrontEdge(front, pool, w.m0, w.t, w.p, w.lo, w.q, w.hi);
    EndsMeet(w.t, p, edge, w.q, back, w.hi);
    DeallocatingEnd(edge, pool, w.m0, w.t, p, Reach(w.q, false), w.hi);
  }

  class IntoIter {
    var front: Option<LazyHandle>
    var back: Option<LazyHandle>
    var length: nat
    ghost var walk: Option<Walk>

    /** The nodes of the tree, until they are released. */
    ghost function Owned(): multiset<Node>
      reads this
    {
      if front.None? || walk.None? then multiset{} else Bag(walk.value.t)
    }

    ghost predicate In(m: Mem)
      reads this
    {
      && (front.None? ==> length == 0)
      && (front.Some? ==> back.Some? && walk.Some? && Walking(walk.value, m, front.value, back.value, length))
    }

    /** The pairs still to come. */
    ghost function Rest(m: Mem): (f: seq<KV>)
      requires In(m)
      reads this
      ensures |f| == length
    {
      if front.None? then [] else PairsLeft(walk.value)
    }

    /** Over the whole of a tree. */
    constructor (root: Node, length: nat, ghost m: Mem, ghost t: Tree)
      requires Holds(m, t) && t.node == root && length == |Flat(t)|
      ensures In(m) && Rest(m) == Flat(t) && Owned() == Bag(t)
    {
      front, back, this.length := Some(AtTop(root)), Some(AtTop(root)), length;
      walk := Some(Walk(m, t, [], [], 0, |Flat(t)|));
      new;
      RemainsAll(m, t);
    }

    /** Over no tree at all. */
    constructor Empty(ghost m: Mem)
      ensures In(m) && Rest(m) == [] && Owned() == multiset{}
    {
      front, back, length, walk := None, None, 0, None;
    }

    method TakeFront(pool: Pool) returns (kv: KV)
      requires pool.Valid() && In(pool.Mem()) && length > 0
      modifies this, pool
      ensures pool.Valid() && pool.Repr() <= old(pool.Repr()) && Shrunk(old(pool.Mem()), pool.Mem(), old(Owned()))
      ensures In(pool.Mem()) && Owned() == old(Owned())
      ensures var f := old(Rest(pool.Mem())); kv == f[0] && Rest(pool.Mem()) == f[1..]
    {
      hide Walking, Shrunk, Flat, Bag, PairsLeft, IntoIter.In, IntoIter.Owned, IntoIter.Rest, Pool.Mem, Pool.Valid,
           Pool.Repr;
      Opened(pool.Mem());
      var next; ghost var w;
      next, kv, w := WalkFront(front.value, pool, walk.value, back.value, length);
      SetFront(next, w, pool.Mem());
    }

    lemma Opened(m: Mem)
      requires In(m) && length > 0
      ensures front.Some? && back.Some? && walk.Some? && Walking(walk.value, m, front.value, back.value, length)
      ensures walk.value.lo <= walk.value.hi <= |Flat(walk.value.t)| && |PairsLeft(walk.value)| == length
      ensures Rest(m) == PairsLeft(walk.value) && Owned() == Bag(walk.value.t)
    {
      hide Walking, Flat, Bag;
      WalkingLeft(walk.value, m, front.value, back.value, length);
    }

    method SetFront(next: Handle, ghost w: Walk, ghost m: Mem)
      requires front.Some? && back.Some? && walk.Some? && length > 0 && w.t == walk.value.t
      requires Walking(w, m, AtEdge(next), back.value, length - 1) && w.lo <= w.hi <= |Flat(w.t)|
      modifies this
      ensures In(m) && Owned() == Bag(w.t) && Rest(m) == PairsLeft(w)
    {
      hide Walking, Flat, Bag, Pool.Mem, Pool.Valid;
      length, front, walk := length - 1, Some(AtEdge(next)), Some(w);
    }

    method SetBack(next: Handle, ghost w: Walk, ghost m: Mem)
      requires front.Some? && back.Some? && walk.Some? && length > 0 && w.t == walk.value.t
      requires Walking(w, m, front.value, AtEdge(next), length - 1) && w.lo <= w.hi <= |Flat(w.t)|
      modifies this
      ensures In(m) && Owned() == Bag(w.t) && Rest(m) == PairsLeft(w)
    {
      hide Walking, Flat, Bag, Pool.Mem, Pool.Valid;
      length, back, walk := length - 1, Some(AtEdge(next)), Some(w);
    }

    method Next(pool: Pool) returns (kv: Option<KV>)
      requires pool.Valid() && In(pool.Mem())
      modifies this, pool
      ensures pool.Valid() && pool.Repr() <= old(pool.Repr()) && Shrunk(old(pool.Mem()), pool.Mem(), old(Owned()))
      ensures In(pool.Mem())
      ensures var f := old(Rest(pool.Mem()));
        if f == [] then kv.None? && Rest(pool.Mem()) == [] && Owned() == multiset{}
        else kv == Some(f[0]) && Rest(pool.Mem()) == f[1..] && Owned() == old(Owned())
      ensures kv.None? ==> forall n :: n in old(Owned()) ==> n !in pool.Mem()
    {
      hide Walking, Shrunk, Flat, Pool.Mem, Pool.Valid;
      if length == 0 {
        End(pool);
        kv := None;
      } else {
        var pair := TakeFront(pool);
        kv := Some(pair);
      }
    }

    method TakeBack(pool: Pool) returns (kv: KV)
      requires pool.Valid() && In(pool.Mem()) && length > 0
      modifies this, pool
      ensures pool.Valid() && pool.Repr() <= old(pool.Repr()) && Shrunk(old(pool.Mem()), pool.Mem(), old(Owned()))
      ensures In(pool.Mem()) && Owned() == old(Owned())
      ensures var f := old(Rest(pool.Mem())); kv == f[|f| - 1] && Rest(pool.Mem()) == f[..|f| - 1]
    {
      hide Walking, Shrunk, Flat, Bag, PairsLeft, IntoIter.In, IntoIter.Owned, IntoIter.Rest, Pool.Mem, Pool.Valid,
           Pool.Repr;
      Opened(pool.Mem());
      var next; ghost var w;
      next, kv, w := WalkBack(back.value, pool, walk.value, front.value, length);
      SetBack(next, w, pool.Mem());
    }

    method NextBack(pool: Pool) returns (kv: Option<KV>)
      requires pool.Valid() && In(pool.Mem())
      modifies this, pool
      ensures pool.Valid() && pool.Repr() <= old(pool.Repr()) && Shrunk(old(pool.Mem()), pool.Mem(), old(Owned()))
      ensures In(pool.Mem())
      ensures var f := old(Rest(pool.Mem()));
        if f == [] then kv.None? && Rest(pool.Mem()) == [] && Owned() == multiset{}
        else kv == Some(f[|f| - 1]) && Rest(pool.Mem()) == f[..|f| - 1] && Owned() == old(Owned())
      ensures kv.None? ==> forall n :: n in old(Owned()) ==> n !in pool.Mem()
    {
      hide Walking, Shrunk, Flat, Pool.Mem, Pool.Valid;
      if length == 0 {
        End(pool);
        kv := None;
      } else {
        var pair := TakeBack(pool);
        kv := Some(pair);
      }
    }

    /** Releases what is left of the tree once all pairs are taken. */
    method End(pool: Pool)
      requires pool.Valid() && In(pool.Mem()) && length == 0
      modifies this, pool
      ensures pool.Valid() && pool.Repr() <= old(pool.Repr()) && Shrunk(old(pool.Mem()), pool.Mem(), old(Owned()))
      ensures In(pool.Mem()) && Rest(pool.Mem()) == [] && Owned() == multiset{}
      ensures forall n :: n in old(Owned()) ==> n !in pool.Mem()
    {
      hide Walking, Shrunk, Pool.Mem, Pool.Valid;
      ShrunkNone(pool.Mem(), Owned());
      match front {
        case None =>
        case Some(f) =>
          WalkEnd(f, pool, walk.value, back.value);
          front := None;
      }
    }

    /** Dropping the iterator takes the rest of the pairs and releases the rest of the tree. */
    method Drop(pool: Pool)
      requires pool.Valid() && In(pool.Mem())
      modifies this, pool
      ensures pool.Valid() && pool.Repr() <= old(pool.Repr()) && Shrunk(old(pool.Mem()), pool.Mem(), old(Owned()))
      ensures In(pool.Mem()) && Owned() == multiset{} && forall n :: n in old(Owned()) ==> n !in pool.Mem()
    {
      hide Walking, Shrunk, Flat, Pool.Mem, Pool.Valid;
      ghost var m0 := pool.Mem();
      ShrunkNone(m0, Owned());
      while true
        invariant pool.Valid() && pool.Repr() <= old(pool.Repr()) && In(pool.Mem()) && Owned() == old(Owned())
        invariant Shrunk(m0, pool.Mem(), Owned())
        decreases length
      {
        ghost var m, o := pool.Mem(), Owned();
        var kv := Next(pool);
        ShrunkTrans(m0, m, pool.Mem(), o);
        if kv.None? { return; }
      }
    }
  }

  /** Nor does anything else that leaves its nodes alone. */
  lemma InSpared(iter: IntoIter, m: Mem, m': Mem)
    requires iter.In(m)
    requires forall n :: n in iter.Owned() ==> (n in m <==> n in m') && (n in m ==> m'[n] == m[n])
    ensures iter.In(m') && iter.Rest(m') == iter.Rest(m)
  {
    if iter.front.Some? {
      WalkingKept(iter.walk.value, m, m', iter.front.value, iter.back.value, iter.length);
    }
  }

  /** Releasing nodes elsewhere does not disturb an iterator. */
  lemma InKept(iter: IntoIter, m: Mem, m': Mem, o: multiset<Node>)
    requires iter.In(m) && Shrunk(m, m', o) && Apart(o, iter.Owned())
    ensures iter.In(m') && iter.Rest(m') == iter.Rest(m)
  {
    if iter.front.Some? {
      WalkingKept(iter.walk.value, m, m', iter.front.value, iter.back.value, iter.length);
    }
  }

  // ----- Runs

  /** What the calls `true` for the front and `false` for the back take from the pairs `f`. */
  ghost function Taken(f: seq<KV>, calls: seq<bool>): seq<Option<KV>> {
    if calls == [] then []
    else if f == [] then [None] + Taken(f, calls[1..])
    else if calls[0] then [Some(f[0])] + Taken(f[1..], calls[1..])
    else [Some(f[|f| - 1])] + Taken(f[..|f| - 1], calls[1..])
  }

  /** Each call is answered, as long as pairs are left: one at the front by the pair behind as many pairs as there were
      calls at the front before, one at the back by the pair before as many as there were at the back. */
  lemma {:induction false} TakenAt(f: seq<KV>, calls: seq<bool>, k: nat)
    requires k < |calls|
    ensures |Taken(f, calls)| == |calls|
    ensures var (fronts, backs) := (multiset(calls[..k])[true], multiset(calls[..k])[false]);
      && fronts + backs == k
      && Taken(f, calls)[k] ==
         if k >= |f| then None else if calls[k] then Some(f[fronts]) else Some(f[|f| - 1 - backs])
    decreases |calls|
  {
    hide Taken;
    TakenFirst(f, calls);
    if k > 0 {
      var left := LeftBy(f, calls[0]);
      TakenAt(left, calls[1..], k - 1);
      CallsBefore(calls, k);
    } else {
      assert calls[..k] == [];
    }
  }

  /** The pairs left by one call. */
  ghost function LeftBy(f: seq<KV>, front: bool): seq<KV> {
    if f == [] then [] else if front then f[1..] else f[..|f| - 1]
  }

  lemma TakenFirst(f: seq<KV>, calls: seq<bool>)
    requires calls != []
    ensures |Taken(f, calls)| == |calls|
    ensures Taken(f, calls)[0] == if f == [] then None else if calls[0] then Some(f[0]) else Some(f[|f| - 1])
    ensures Taken(f, calls)[1..] == Taken(LeftBy(f, calls[0]), calls[1..])
  {
    TakenLength(LeftBy(f, calls[0]), calls[1..]);
  }

  lemma CallsBefore(calls: seq<bool>, k: nat)
    requires 0 < k <= |calls|
    ensures multiset(calls[..k])[true] == multiset(calls[1..][..k - 1])[true] + if calls[0] then 1 else 0
    ensures multiset(calls[..k])[false] == multiset(calls[1..][..k - 1])[false] + if calls[0] then 0 else 1
  {
    assert calls[..k] == [calls[0]] + calls[1..][..k - 1];
  }

  lemma {:induction false} TakenLength(f: seq<KV>, calls: seq<bool>)
    ensures |Taken(f, calls)| == |calls|
    decreases |calls|
  {
    if calls != [] { TakenLength(LeftBy(f, calls[0]), calls[1..]); }
  }

  /** Any run of calls on either end, then dropping the iterator: the calls take the two ends of what is left, and
      in the end every node of the tree has been released, and nothing else touched. */
  method RunAndDrop(iter: IntoIter, calls: seq<bool>, pool: Pool) returns (taken: seq<Option<KV>>)
    requires pool.Valid() && iter.In(pool.Mem())
    modifies iter, pool
    ensures pool.Valid() && pool.Repr() <= old(pool.Repr()) && Shrunk(old(pool.Mem()), pool.Mem(), old(iter.Owned()))
    ensures taken == Taken(old(iter.Rest(pool.Mem())), calls)
    ensures forall n :: n in old(iter.Owned()) ==> n !in pool.Mem()
    decreases |calls|
  {
    hide Walking, Shrunk, Flat, Pool.Mem, Pool.Valid;
    ghost var m0, f, o := pool.Mem(), iter.Rest(pool.Mem()), iter.Owned();
    if calls == [] {
      iter.Drop(pool);
      return [];
    }
    var kv := None;
    if calls[0] { kv := iter.Next(pool); } else { kv := iter.NextBack(pool); }
    ghost var m1 := pool.Mem();
    taken := RunAndDrop(iter, calls[1..], pool);
    taken := [kv] + taken;
    RunShrunk(m0, m1, pool.Mem(), o, if f == [] then multiset{} else o);
  }

  lemma RunShrunk(m: Mem, m': Mem, m'': Mem, o: multiset<Node>, o': multiset<Node>)
    requires Shrunk(m, m', o) && Shrunk(m', m'', o') && o' <= o
    requires o' == o || forall n :: n in o ==> n !in m'
    requires forall n :: n in o' ==> n !in m''
    ensures Shrunk(m, m'', o) && forall n :: n in o ==> n !in m''
  {
  }
}
