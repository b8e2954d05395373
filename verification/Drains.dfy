/** Taking out the pairs that a predicate accepts while walking over a map, and `retain`. */
module Drains {
  import opened Nodes
  import opened Options
  import opened Trees
  import opened Memory
  import opened Shapes
  import opened Places
  import opened Navigate
  import opened Maps

  /** What a predicate does with a pair it is shown: its own next state, whether it accepts the pair, and the value it
      leaves in the map. */
  datatype Verdict<S> = Verdict(state: S, accepts: bool, val: Val)

  // ----- What a whole walk does

  /** The pairs that stay, with the values the predicate leaves. */
  ghost function Kept<S>(f: seq<KV>, pred: (S, Key, Val) -> Verdict<S>, s: S): seq<KV> {
    if f == [] then
      []
    else
      var v := pred(s, f[0].key, f[0].val);
      (if v.accepts then [] else [KV(f[0].key, v.val)]) + Kept(f[1..], pred, v.state)
  }

  /** The pairs that are taken out. */
  ghost function Gone<S>(f: seq<KV>, pred: (S, Key, Val) -> Verdict<S>, s: S): seq<KV> {
    if f == [] then
      []
    else
      var v := pred(s, f[0].key, f[0].val);
      (if v.accepts then [KV(f[0].key, v.val)] else []) + Gone(f[1..], pred, v.state)
  }

  /** The state of the predicate when it has seen all pairs. */
  ghost function StateAfter<S>(f: seq<KV>, pred: (S, Key, Val) -> Verdict<S>, s: S): S {
    if f == [] then s else StateAfter(f[1..], pred, pred(s, f[0].key, f[0].val).state)
  }

  /** The state passes from pair to pair. */
  lemma StateAfterNext<S>(f: seq<KV>, pred: (S, Key, Val) -> Verdict<S>, s: S, i: nat)
    requires i < |f|
    ensures StateAfter(f[..0], pred, s) == s
    ensures StateAfter(f[..i + 1], pred, s) == pred(StateAfter(f[..i], pred, s), f[i].key, f[i].val).state
  {
    WalkInTwo(f[..i], [f[i]], pred, s);
    assert f[..i + 1] == f[..i] + [f[i]] && [f[i]][1..] == [];
  }

  lemma {:induction false} WalkInTwo<S>(f: seq<KV>, g: seq<KV>, pred: (S, Key, Val) -> Verdict<S>, s: S)
    ensures var s' := StateAfter(f, pred, s);
      && Kept(f + g, pred, s) == Kept(f, pred, s) + Kept(g, pred, s')
      && Gone(f + g, pred, s) == Gone(f, pred, s) + Gone(g, pred, s')
      && StateAfter(f + g, pred, s) == StateAfter(g, pred, s')
  {
    if f == [] {
      assert f + g == g;
    } else {
      var v := pred(s, f[0].key, f[0].val);
      WalkHead(f + g, pred, s);
      WalkHead(f, pred, s);
      assert (f + g)[1..] == f[1..] + g;
      WalkInTwo(f[1..], g, pred, v.state);
      var s' := StateAfter(f, pred, s);
      var x := KV(f[0].key, v.val);
      Associative(if v.accepts then [] else [x], Kept(f[1..], pred, v.state), Kept(g, pred, s'));
      Associative(if v.accepts then [x] else [], Gone(f[1..], pred, v.state), Gone(g, pred, s'));
    }
  }

  lemma WalkHead<S>(f: seq<KV>, pred: (S, Key, Val) -> Verdict<S>, s: S)
    requires f != []
    ensures var v := pred(s, f[0].key, f[0].val);
      var x := KV(f[0].key, v.val);
      && Kept(f, pred, s) == (if v.accepts then [] else [x]) + Kept(f[1..], pred, v.state)
      && Gone(f, pred, s) == (if v.accepts then [x] else []) + Gone(f[1..], pred, v.state)
      && StateAfter(f, pred, s) == StateAfter(f[1..], pred, v.state)
  {
  }

  /** Every pair is judged once, by the predicate in the state the pairs before it left; by that it stays or goes, in
      order, with its key and the value the predicate gives it; and nothing else stays or goes. */
  lemma PairKeptOrGone<S>(f: seq<KV>, pred: (S, Key, Val) -> Verdict<S>, s: S, i: nat)
    requires i < |f|
    ensures var v := pred(StateAfter(f[..i], pred, s), f[i].key, f[i].val);
      var stays, goes := |Kept(f[..i], pred, s)|, |Gone(f[..i], pred, s)|;
      && stays + goes == i
      && (!v.accepts ==> stays < |Kept(f, pred, s)| && Kept(f, pred, s)[stays] == KV(f[i].key, v.val))
      && (v.accepts ==> goes < |Gone(f, pred, s)| && Gone(f, pred, s)[goes] == KV(f[i].key, v.val))
    ensures |Kept(f, pred, s)| + |Gone(f, pred, s)| == |f|
  {
    KeptOrGone(f[..i], pred, s);
    KeptOrGone(f, pred, s);
    WalkInTwo(f[..i], f[i..], pred, s);
    assert f[..i] + f[i..] == f;
  }

  /** What is taken out are the pairs accepted, with the values the predicate gives them, and nothing else. */
  lemma {:induction false} GoneHas<S>(f: seq<KV>, pred: (S, Key, Val) -> Verdict<S>, s: S, x: KV)
    ensures x in Gone(f, pred, s) <==>
      exists i :: 0 <= i < |f| && AcceptedAs(pred(StateAfter(f[..i], pred, s), f[i].key, f[i].val), f[i].key, x)
  {
    if f != [] {
      var v := pred(s, f[0].key, f[0].val);
      var g := f[1..];
      GoneHas(g, pred, v.state, x);
      assert f[..0] == [];
      forall i | 0 < i < |f| ensures StateAfter(f[..i], pred, s) == StateAfter(g[..i - 1], pred, v.state) {
        assert f[..i][0] == f[0] && f[..i][1..] == g[..i - 1];
      }
      assert x in Gone(f, pred, s) <==> AcceptedAs(v, f[0].key, x) || x in Gone(g, pred, v.state);
      if j :| 0 <= j < |g| && AcceptedAs(pred(StateAfter(g[..j], pred, v.state), g[j].key, g[j].val), g[j].key, x) {
        assert g[j] == f[j + 1] && StateAfter(f[..j + 1], pred, s) == StateAfter(g[..j], pred, v.state);
      }
    }
  }

  ghost predicate AcceptedAs<S>(v: Verdict<S>, key: Key, x: KV) { v.accepts && x == KV(key, v.val) }

  lemma {:induction false} KeptOrGone<S>(f: seq<KV>, pred: (S, Key, Val) -> Verdict<S>, s: S)
    ensures |Kept(f, pred, s)| + |Gone(f, pred, s)| == |f|
  {
    if f != [] { KeptOrGone(f[1..], pred, pred(s, f[0].key, f[0].val).state); }
  }

  /** Where a walk is: the pairs it passed and left in the map, those ahead, and the state of the predicate. */
  datatype Stage<S> = Stage(passed: seq<KV>, ahead: seq<KV>, state: S)

  /** The next pair that comes out, if any, and where the walk is then. */
  ghost function Drained<S>(at: Stage<S>, pred: (S, Key, Val) -> Verdict<S>): (Option<KV>, Stage<S>)
    decreases |at.ahead|
  {
    if at.ahead == [] then
      (None, at)
    else
      var x := at.ahead[0];
      var v := pred(at.state, x.key, x.val);
      if v.accepts then
        (Some(KV(x.key, v.val)), Stage(at.passed, at.ahead[1..], v.state))
      else
        Drained(Stage(at.passed + [KV(x.key, v.val)], at.ahead[1..], v.state), pred)
  }

  /** A draining step goes just as far as the first pair accepted, or to the end if there is none. */
  lemma {:induction false} DrainedStops<S>(at: Stage<S>, pred: (S, Key, Val) -> Verdict<S>)
    ensures var ((kv, end), f) := (Drained(at, pred), at.ahead);
      var n := |f| - |end.ahead|;
      && 0 <= n <= |f| && end.ahead == f[n..] && end.state == StateAfter(f[..n], pred, at.state)
      && end.passed == at.passed + Kept(f[..n], pred, at.state)
      && (kv.None? ==> n == |f| && Gone(f, pred, at.state) == [])
      && (kv.Some? ==>
            && n > 0 && Gone(f[..n - 1], pred, at.state) == []
            && var v := pred(StateAfter(f[..n - 1], pred, at.state), f[n - 1].key, f[n - 1].val);
               v.accepts && kv == Some(KV(f[n - 1].key, v.val)))
    decreases |at.ahead|
  {
    hide Gone, Kept, StateAfter;
    var f := at.ahead;
    DrainedAtOnce(f, pred, at.state);
    if f != [] {
      assert f[..0] == [];
      var v := pred(at.state, f[0].key, f[0].val);
      if !v.accepts {
        var next := Stage(at.passed + [KV(f[0].key, v.val)], f[1..], v.state);
        DrainedStops(next, pred);
        var n := |f[1..]| - |Drained(next, pred).1.ahead|;
        DrainedOn(f, pred, at.state, n);
        if n > 0 {
          DrainedOn(f, pred, at.state, n - 1);
          assert f[1..][n - 1] == f[n];
        }
        if n + 1 == |f| { assert f[..n + 1] == f && f[1..][..n] == f[1..]; }
      }
    }
  }

  lemma DrainedAtOnce<S>(f: seq<KV>, pred: (S, Key, Val) -> Verdict<S>, s: S)
    ensures Gone([], pred, s) == Kept([], pred, s) == [] && StateAfter([], pred, s) == s
    ensures f != [] ==> var v := pred(s, f[0].key, f[0].val);
      StateAfter(f[..1], pred, s) == v.state && (v.accepts ==> Kept(f[..1], pred, s) == [])
  {
    if f != [] { assert f[..1] == [f[0]] && [f[0]][1..] == []; }
  }

  lemma DrainedOn<S>(f: seq<KV>, pred: (S, Key, Val) -> Verdict<S>, s: S, n: nat)
    requires n < |f| && !pred(s, f[0].key, f[0].val).accepts
    ensures var v := pred(s, f[0].key, f[0].val);
      && Gone(f[..n + 1], pred, s) == Gone(f[1..][..n], pred, v.state)
      && Kept(f[..n + 1], pred, s) == [KV(f[0].key, v.val)] + Kept(f[1..][..n], pred, v.state)
      && StateAfter(f[..n + 1], pred, s) == StateAfter(f[1..][..n], pred, v.state)
  {
    assert f[..n + 1][0] == f[0] && f[..n + 1][1..] == f[1..][..n];
  }

  /** What one draining step leaves to be taken out, to be kept, and as final state, is what was before, but for the
      pair that came out. */
  lemma {:induction false} DrainedSplits<S>(at: Stage<S>, pred: (S, Key, Val) -> Verdict<S>)
    ensures var (kv, end) := Drained(at, pred);
      && end.passed + Kept(end.ahead, pred, end.state) == at.passed + Kept(at.ahead, pred, at.state)
      && (if kv.Some? then [kv.value] else []) + Gone(end.ahead, pred, end.state) == Gone(at.ahead, pred, at.state)
      && StateAfter(end.ahead, pred, end.state) == StateAfter(at.ahead, pred, at.state)
      && (kv.None? ==> end.ahead == [])
    decreases |at.ahead|
  {
    if at.ahead != [] {
      var x := at.ahead[0];
      var v := pred(at.state, x.key, x.val);
      if !v.accepts {
        DrainedSplits(Stage(at.passed + [KV(x.key, v.val)], at.ahead[1..], v.state), pred);
      }
    }
  }

  // ----- Steps of the walk

  /** A walk over a map has passed `gap` pairs and stands at a leaf edge, or is over. */
  ghost predicate Standing(host: BTreeMap, m: Mem, cur: Option<Handle>, p: Path, gap: nat)
    reads host.Parts()
  {
    && host.In(m) && gap <= |host.Contents()| && (cur.None? ==> gap == |host.Contents()|)
    && (cur.Some? ==> host.tree.Some? && LeafEdge(host.tree.value, p, cur.value))
    && (cur.Some? ==> Gap(host.tree.value, p, cur.value) == gap)
  }

  /** A walk over a map has passed `gap` pairs and stands at the pair after them. */
  ghost predicate Facing(host: BTreeMap, m: Mem, kv: Handle, q: Path, gap: nat)
    reads host.Parts()
  {
    && host.In(m) && host.tree.Some? && Kv(host.tree.value, q, kv)
    && Index(host.tree.value, q, kv) == gap < |host.Contents()|
  }

  /** The first leaf edge, if the map has a root. */
  method FirstEdge(host: BTreeMap, pool: Pool) returns (cur: Option<Handle>, ghost q: Path)
    requires pool.Valid() && host.In(pool.Mem())
    ensures Standing(host, pool.Mem(), cur, q, 0)
  {
    hide Holds, Balanced, Flat, Pool.Mem, Pool.Valid;
    if host.root.None? { return None, []; }
    ghost var t := host.tree.value;
    KeepsHeld(pool.Mem(), host.root.value.node, host.root.value.height, host.length, t);
    var edge;
    edge, q := FirstEdgeBelow(host.root.value.node, pool, t);
    cur := Some(edge);
  }

  method FirstEdgeBelow(root: Node, pool: Pool, ghost t: Tree) returns (edge: Handle, ghost q: Path)
    requires pool.Valid() && Holds(pool.Mem(), t) && t.node == root
    ensures LeafEdge(t, q, edge) && Gap(t, q, edge) == 0
  {
    hide Holds, SubAt, ValidPath, Before, Pool.Mem, Pool.Valid;
    AtRoot(t);
    edge, q := FirstLeafEdge(root, pool, t, []);
  }

  /** The pair ahead, if there is one. */
  method Ahead(host: BTreeMap, edge: Handle, pool: Pool, ghost p: Path, ghost gap: nat)
    returns (kv: Option<Handle>, ghost q: Path)
    requires pool.Valid() && Standing(host, pool.Mem(), Some(edge), p, gap)
    ensures kv.None? ==> gap == |host.Contents()|
    ensures kv.Some? ==> Facing(host, pool.Mem(), kv.value, q, gap)
  {
    hide Holds, LeafEdge, Kv, Index, Gap, Flat, Balanced, Pool.Mem, Pool.Valid;
    KeepsHeld(pool.Mem(), host.root.value.node, host.root.value.height, host.length, host.tree.value);
    kv, q := NextKv(edge, pool, host.tree.value, p);
  }

  method Show(host: BTreeMap, kv: Handle, pool: Pool, ghost q: Path, ghost gap: nat) returns (x: KV)
    requires pool.Valid() && Facing(host, pool.Mem(), kv, q, gap)
    ensures x == host.Contents()[gap]
  {
    hide Holds, Kv, Index, Flat, Balanced, Pool.Mem, Pool.Valid;
    KeepsHeld(pool.Mem(), host.root.value.node, host.root.value.height, host.length, host.tree.value);
    x := ReadPair(kv, pool, host.tree.value, q);
  }

  /** Gives the pair ahead the value that the predicate left. */
  method Revalue(host: BTreeMap, kv: Handle, val: Val, pool: Pool, ghost q: Path, ghost gap: nat)
    requires pool.Valid() && Facing(host, pool.Mem(), kv, q, gap)
    modifies host, pool.nodes, pool.kvBuffers, pool.edgeBuffers
    ensures pool.Valid() && Edited(old(pool.Mem()), pool.Mem(), old(host.Owned()), host.Owned())
    ensures host.root == old(host.root) && Facing(host, pool.Mem(), kv, q, gap)
    ensures var f := old(host.Contents()); gap < |f| && host.Contents() == f[gap := KV(f[gap].key, val)]
  {
    hide Holds, Kv, Index, Flat, Edited, Bag, Keeps, Pool.Mem, Pool.Valid;
    var oldVal := host.ReplaceOccupied(kv, val, pool, q);
  }

  /** Passes the pair ahead. */
  method PassBy(host: BTreeMap, kv: Handle, pool: Pool, ghost q: Path, ghost gap: nat)
    returns (edge: Handle, ghost p: Path)
    requires pool.Valid() && Facing(host, pool.Mem(), kv, q, gap)
    ensures Standing(host, pool.Mem(), Some(edge), p, gap + 1)
  {
    hide Holds, LeafEdge, Kv, Index, Gap, Flat, Balanced, Pool.Mem, Pool.Valid;
    KeepsHeld(pool.Mem(), host.root.value.node, host.root.value.height, host.length, host.tree.value);
    edge, p := NextLeafEdge(kv, pool, host.tree.value, q);
  }

  /** Takes out the pair ahead. */
  method TakeOut(host: BTreeMap, kv: Handle, pool: Pool, ghost q: Path, ghost gap: nat)
    returns (x: KV, edge: Handle, ghost p: Path)
    requires pool.Valid() && Facing(host, pool.Mem(), kv, q, gap)
    modifies host.Parts(), pool, pool.nodes, pool.kvBuffers, pool.edgeBuffers
    ensures pool.Valid() && pool.Repr() <= old(pool.Repr())
    ensures Edited(old(pool.Mem()), pool.Mem(), old(host.Owned()), host.Owned())
    ensures host.root == old(host.root) && Standing(host, pool.Mem(), Some(edge), p, gap)
    ensures var f := old(host.Contents()); gap < |f| && x == f[gap] && host.Contents() == f[..gap] + f[gap + 1..]
  {
    hide Holds, LeafEdge, Kv, Index, Gap, Flat, Edited, Bag, Keeps, Pool.Mem, Pool.Valid;
    x, edge, p := host.RemoveTracked(kv, pool, q);
  }

  lemma Halves(f: seq<KV>, g: nat, y: KV)
    requires g < |f|
    ensures f[g := y][..g + 1] == f[..g] + [y] && f[g := y][g + 1..] == f[g..][1..]
    ensures var f' := f[g := y][..g] + f[g := y][g + 1..]; f'[..g] == f[..g] && f'[g..] == f[g..][1..]
  {
  }

  method TakeRevalued(host: BTreeMap, kv: Handle, val: Val, pool: Pool, ghost q: Path, ghost gap: nat)
    returns (out: Option<KV>, edge: Handle, ghost p: Path)
    requires pool.Valid() && Facing(host, pool.Mem(), kv, q, gap)
    modifies host.Parts(), pool, pool.nodes, pool.kvBuffers, pool.edgeBuffers
    ensures pool.Valid() && pool.Repr() <= old(pool.Repr())
    ensures Edited(old(pool.Mem()), pool.Mem(), old(host.Owned()), host.Owned())
    ensures host.root == old(host.root) && Standing(host, pool.Mem(), Some(edge), p, gap)
    ensures gap < |old(host.Contents())| && gap <= |host.Contents()|
    ensures out == Some(KV(old(host.Contents())[gap].key, val))
    ensures var (f, f') := (old(host.Contents()), host.Contents()); f'[..gap] == f[..gap] && f'[gap..] == f[gap..][1..]
  {
    hide Facing, Standing, Edited, Bag, Flat, Pool.Mem, Pool.Valid;
    ghost var m, o, f := pool.Mem(), host.Owned(), host.Contents();
    Revalue(host, kv, val, pool, q, gap);
    ghost var m1, o1 := pool.Mem(), host.Owned();
    var x;
    x, edge, p := TakeOut(host, kv, pool, q, gap);
    out := Some(x);
    Halves(f, gap, KV(f[gap].key, val));
    EditedTrans(m, m1, pool.Mem(), o, o1, host.Owned());
  }

  method PassRevalued(host: BTreeMap, kv: Handle, val: Val, pool: Pool, ghost q: Path, ghost gap: nat)
    returns (edge: Handle, ghost p: Path)
    requires pool.Valid() && Facing(host, pool.Mem(), kv, q, gap)
    modifies host, pool.nodes, pool.kvBuffers, pool.edgeBuffers
    ensures pool.Valid() && Edited(old(pool.Mem()), pool.Mem(), old(host.Owned()), host.Owned())
    ensures host.root == old(host.root) && Standing(host, pool.Mem(), Some(edge), p, gap + 1)
    ensures gap < |old(host.Contents())| && gap + 1 <= |host.Contents()|
    ensures var (f, f') := (old(host.Contents()), host.Contents());
      f'[..gap + 1] == f[..gap] + [KV(f[gap].key, val)] && f'[gap + 1..] == f[gap..][1..]
  {
    hide Facing, Standing, Edited, Bag, Flat, Pool.Mem, Pool.Valid;
    ghost var f := host.Contents();
    Revalue(host, kv, val, pool, q, gap);
    Halves(f, gap, KV(f[gap].key, val));
    edge, p := PassBy(host, kv, pool, q, gap);
  }

  // ----- The iterator

  class DrainFilter<S(!new)> {
    const host: BTreeMap
    const pred: (S, Key, Val) -> Verdict<S>
    var state: S
    /** The leaf edge before the next pair, or none if the walk is over. */
    var cur: Option<Handle>
    ghost var path: Path
    ghost var gap: nat
    /** The pairs the predicate was shown. */
    ghost var shown: seq<KV>

    ghost predicate In(m: Mem)
      reads this, host.Parts()
    {
      this !in host.Parts() && Standing(host, m, cur, path, gap)
    }

    ghost function At(): Stage<S>
      reads this, host
      requires gap <= |host.Contents()|
    {
      Stage(host.Contents()[..gap], host.Contents()[gap..], state)
    }

    constructor (host: BTreeMap, pred: (S, Key, Val) -> Verdict<S>, state: S, cur: Option<Handle>, ghost m: Mem,
                 ghost path: Path)
      requires Standing(host, m, cur, path, 0)
      ensures this.host == host && this.pred == pred && In(m)
      ensures At() == Stage([], host.Contents(), state) && shown == []
    {
      this.host, this.pred, this.state := host, pred, state;
      this.cur, this.path, gap, shown := cur, path, 0, [];
    }

    method SetCur(cur: Option<Handle>, ghost path: Path, ghost gap: nat, ghost m: Mem)
      requires this !in host.Parts() && Standing(host, m, cur, path, gap)
      modifies this
      ensures In(m) && state == old(state) && shown == old(shown) && this.gap == gap
    {
      this.cur, this.path, this.gap := cur, path, gap;
    }

    method Ask(x: KV) returns (v: Verdict<S>)
      modifies this
      ensures v == pred(old(state), x.key, x.val) && state == v.state && shown == old(shown) + [x]
      ensures cur == old(cur) && path == old(path) && gap == old(gap)
    {
      v := pred(state, x.key, x.val);
      state := v.state;
      shown := shown + [x];
    }

    method TakeAhead(kv: Handle, val: Val, pool: Pool, ghost q: Path) returns (out: Option<KV>)
      requires pool.Valid() && this !in host.Parts() && Facing(host, pool.Mem(), kv, q, gap)
      modifies this, host.Parts(), pool, pool.nodes, pool.kvBuffers, pool.edgeBuffers
      ensures pool.Valid() && pool.Repr() <= old(pool.Repr())
      ensures Edited(old(pool.Mem()), pool.Mem(), old(host.Owned()), host.Owned())
      ensures In(pool.Mem()) && host.root == old(host.root) && state == old(state) && shown == old(shown)
      ensures gap < |old(host.Contents())| && gap <= |host.Contents()| && gap == old(gap)
      ensures var (f, f') := (old(host.Contents()), host.Contents());
        out == Some(KV(f[gap].key, val)) && f'[..gap] == f[..gap] && f'[gap..] == f[gap..][1..]
    {
      hide Facing, Standing, Edited, Bag, Flat, Pool.Mem, Pool.Valid;
      var edge; ghost var p;
      out, edge, p := TakeRevalued(host, kv, val, pool, q, gap);
      SetCur(Some(edge), p, gap, pool.Mem());
    }

    method PassAhead(kv: Handle, val: Val, pool: Pool, ghost q: Path)
      requires pool.Valid() && this !in host.Parts() && Facing(host, pool.Mem(), kv, q, gap)
      modifies this, host, pool.nodes, pool.kvBuffers, pool.edgeBuffers
      ensures pool.Valid() && Edited(old(pool.Mem()), pool.Mem(), old(host.Owned()), host.Owned())
      ensures In(pool.Mem()) && host.root == old(host.root) && state == old(state) && shown == old(shown)
      ensures old(gap) < |old(host.Contents())| && gap <= |host.Contents()| && gap == old(gap) + 1
      ensures var (f, f', g) := (old(host.Contents()), host.Contents(), old(gap));
        f'[..gap] == f[..g] + [KV(f[g].key, val)] && f'[gap..] == f[g..][1..]
    {
      hide Facing, Standing, Edited, Bag, Flat, Pool.Mem, Pool.Valid;
      var edge; ghost var p;
      edge, p := PassRevalued(host, kv, val, pool, q, gap);
      SetCur(Some(edge), p, gap + 1, pool.Mem());
    }

    /** Shows the pair ahead to the predicate, and takes it out or passes it. */
    method Judge(kv: Handle, pool: Pool, ghost q: Path) returns (out: Option<KV>)
      requires pool.Valid() && this !in host.Parts() && Facing(host, pool.Mem(), kv, q, gap)
      modifies this, host.Parts(), pool, pool.nodes, pool.kvBuffers, pool.edgeBuffers
      ensures pool.Valid() && pool.Repr() <= old(pool.Repr())
      ensures Edited(old(pool.Mem()), pool.Mem(), old(host.Owned()), host.Owned())
      ensures In(pool.Mem()) && host.root == old(host.root)
      ensures old(gap) < |old(host.Contents())| && gap <= |host.Contents()|
      ensures var at := old(At());
        var x := at.ahead[0];
        var v := pred(at.state, x.key, x.val);
        && shown == old(shown) + [x] && out == (if v.accepts then Some(KV(x.key, v.val)) else None)
        && At() == Stage(at.passed + (if v.accepts then [] else [KV(x.key, v.val)]), at.ahead[1..], v.state)
    {
      hide Facing, Standing, Edited, Bag, Flat, Pool.Mem, Pool.Valid;
      FacingLess(host, pool.Mem(), kv, q, gap);
      var x := Show(host, kv, pool, q, gap);
      var v := Ask(x);
      if v.accepts {
        out := TakeAhead(kv, v.val, pool, q);
      } else {
        PassAhead(kv, v.val, pool, q);
        out := None;
      }
    }

    /** One round of the loop of `Next`: ends the walk, or shows a pair to the predicate. */
    method Round(edge: Handle, pool: Pool) returns (over: bool, out: Option<KV>)
      requires pool.Valid() && In(pool.Mem()) && cur == Some(edge)
      modifies this, host.Parts(), pool, pool.nodes, pool.kvBuffers, pool.edgeBuffers
      ensures pool.Valid() && pool.Repr() <= old(pool.Repr())
      ensures Edited(old(pool.Mem()), pool.Mem(), old(host.Owned()), host.Owned())
      ensures In(pool.Mem()) && host.root == old(host.root)
      ensures old(gap) <= |old(host.Contents())| && gap <= |host.Contents()|
      ensures over ==> old(At()).ahead == [] && At() == old(At()) && shown == old(shown) && out.None?
      ensures !over ==>
        old(At()).ahead != [] && |At().ahead| < |old(At()).ahead| && shown == old(shown) + [old(At()).ahead[0]]
      ensures !over ==>
        if out.Some? then (out, At()) == Drained(old(At()), pred) else Drained(At(), pred) == Drained(old(At()), pred)
      ensures !over ==> At().ahead == old(At()).ahead[1..]
    {
      hide Facing, Standing, Edited, Bag, Flat, Drained, Pool.Mem, Pool.Valid;
      StandingWithin(host, pool.Mem(), cur, path, gap);
      var kv; ghost var q;
      kv, q := Ahead(host, edge, pool, path, gap);
      if kv.None? {
        host.OwnedSame(pool.Mem());
        StandingOver(host, pool.Mem(), edge, path, gap);
        SetCur(None, path, gap, pool.Mem());
        over, out := true, None;
      } else {
        FacingLess(host, pool.Mem(), kv.value, q, gap);
        ghost var at := At();
        out := Judge(kv.value, pool, q);
        over := false;
        DrainedOnce(at, pred);
      }
    }

    /** Takes out the next pair the predicate accepts, leaving those it does not accept with the values it gives
        them, or ends the walk. */
    method Next(pool: Pool) returns (out: Option<KV>)
      requires pool.Valid() && In(pool.Mem())
      modifies this, host.Parts(), pool, pool.nodes, pool.kvBuffers, pool.edgeBuffers
      ensures pool.Valid() && pool.Repr() <= old(pool.Repr())
      ensures Edited(old(pool.Mem()), pool.Mem(), old(host.Owned()), host.Owned())
      ensures In(pool.Mem()) && host.root == old(host.root)
      ensures old(gap) <= |old(host.Contents())| && gap <= |host.Contents()|
      ensures (out, At()) == Drained(old(At()), pred) && shown + At().ahead == old(shown) + old(At()).ahead
    {
      hide Facing, Standing, Edited, Bag, Flat, Drained, Pool.Mem, Pool.Valid;
      StandingWithin(host, pool.Mem(), cur, path, gap);
      out := None;
      ghost var m0, o0, at := pool.Mem(), host.Owned(), At();
      host.OwnedSame(m0);
      while cur.Some?
        invariant pool.Valid() && pool.Repr() <= old(pool.Repr()) && In(pool.Mem()) && host.root == old(host.root)
        invariant Edited(m0, pool.Mem(), o0, host.Owned()) && out.None?
        invariant gap <= |host.Contents()| && Drained(At(), pred) == Drained(at, pred)
        invariant shown + At().ahead == old(shown) + at.ahead
        decreases |At().ahead|
      {
        ghost var m, o, s, a := pool.Mem(), host.Owned(), shown, At().ahead;
        var over;
        over, out := Round(cur.value, pool);
        EditedTrans(m0, m, pool.Mem(), o0, o, host.Owned());
        if over {
          DrainedOver(At(), pred);
          return;
        }
        ShownNext(s, a);
        if out.Some? { return; }
      }
      StandingNowhere(host, pool.Mem(), path, gap);
      DrainedOver(At(), pred);
    }

    /** Dropping the iterator finishes the walk, and drops what it takes out. */
    method Drop(pool: Pool) returns (ghost gone: seq<KV>)
      requires pool.Valid() && In(pool.Mem())
      modifies this, host.Parts(), pool, pool.nodes, pool.kvBuffers, pool.edgeBuffers
      ensures pool.Valid() && pool.Repr() <= old(pool.Repr())
      ensures Edited(old(pool.Mem()), pool.Mem(), old(host.Owned()), host.Owned())
      ensures In(pool.Mem()) && host.root == old(host.root) && host.In(pool.Mem())
      ensures old(gap) <= |old(host.Contents())|
      ensures var at := old(At());
        && host.Contents() == at.passed + Kept(at.ahead, pred, at.state)
        && state == StateAfter(at.ahead, pred, at.state) && gone == Gone(at.ahead, pred, at.state)
        && shown == old(shown) + at.ahead
    {
      hide Facing, Standing, Edited, Bag, Flat, Drained, Kept, Gone, StateAfter, Pool.Mem, Pool.Valid;
      StandingWithin(host, pool.Mem(), cur, path, gap);
      ghost var m0, o0, at := pool.Mem(), host.Owned(), At();
      host.OwnedSame(m0);
      gone := [];
      var more := true;
      while more
        invariant pool.Valid() && pool.Repr() <= old(pool.Repr()) && In(pool.Mem()) && host.root == old(host.root)
        invariant Edited(m0, pool.Mem(), o0, host.Owned())
        invariant gap <= |host.Contents()| && Continues(at, At(), gone, pred) && (!more ==> At().ahead == [])
        invariant shown + At().ahead == old(shown) + at.ahead
        decreases more, |At().ahead|
      {
        ghost var m, o, at1 := pool.Mem(), host.Owned(), At();
        var out := Next(pool);
        more := out.Some?;
        EditedTrans(m0, m, pool.Mem(), o0, o, host.Owned());
        gone := ContinuesNext(at, at1, gone, pred);
      }
      StandingWithin(host, pool.Mem(), cur, path, gap);
      ContinuesToEnd(at, At(), gone, pred);
    }
  }

  /** A walk came from `at` to `at'`, taking out `gone`. */
  ghost predicate Continues<S>(at: Stage<S>, at': Stage<S>, gone: seq<KV>, pred: (S, Key, Val) -> Verdict<S>) {
    && at'.passed + Kept(at'.ahead, pred, at'.state) == at.passed + Kept(at.ahead, pred, at.state)
    && gone + Gone(at'.ahead, pred, at'.state) == Gone(at.ahead, pred, at.state)
    && StateAfter(at'.ahead, pred, at'.state) == StateAfter(at.ahead, pred, at.state)
  }

  lemma ContinuesNext<S>(at: Stage<S>, at': Stage<S>, gone: seq<KV>, pred: (S, Key, Val) -> Verdict<S>)
    returns (gone': seq<KV>)
    requires Continues(at, at', gone, pred)
    ensures var (kv, at'') := Drained(at', pred);
      && Continues(at, at'', gone', pred) && (if kv.Some? then |at''.ahead| < |at'.ahead| else at''.ahead == [])
  {
    var (kv, at'') := Drained(at', pred);
    DrainedSplits(at', pred);
    DrainedShorter(at', pred);
    gone' := gone + if kv.Some? then [kv.value] else [];
    assert gone' + Gone(at''.ahead, pred, at''.state) == gone + Gone(at'.ahead, pred, at'.state);
  }

  lemma {:induction false} DrainedShorter<S>(at: Stage<S>, pred: (S, Key, Val) -> Verdict<S>)
    ensures var (kv, end) := Drained(at, pred); if kv.Some? then |end.ahead| < |at.ahead| else end.ahead == []
    decreases |at.ahead|
  {
    if at.ahead != [] {
      var x := at.ahead[0];
      var v := pred(at.state, x.key, x.val);
      if !v.accepts { DrainedShorter(Stage(at.passed + [KV(x.key, v.val)], at.ahead[1..], v.state), pred); }
    }
  }

  lemma ContinuesToEnd<S>(at: Stage<S>, at': Stage<S>, gone: seq<KV>, pred: (S, Key, Val) -> Verdict<S>)
    requires Continues(at, at', gone, pred) && at'.ahead == []
    ensures at'.passed + at'.ahead == at.passed + Kept(at.ahead, pred, at.state)
    ensures gone == Gone(at.ahead, pred, at.state) && at'.state == StateAfter(at.ahead, pred, at.state)
  {
  }

  /** The predicate that accepts what another does not. */
  function Not<S>(pred: (S, Key, Val) -> Verdict<S>): (S, Key, Val) -> Verdict<S> {
    (s, k, v) => var x := pred(s, k, v); x.(accepts := !x.accepts)
  }

  /** Keeps the pairs that a predicate accepts, with the values it gives them. */
  method Retain<S(!new)>(host: BTreeMap, pred: (S, Key, Val) -> Verdict<S>, s: S, pool: Pool)
    returns (s': S, ghost shown: seq<KV>)
    requires pool.Valid() && host.In(pool.Mem())
    modifies host.Parts(), pool, pool.nodes, pool.kvBuffers, pool.edgeBuffers
    ensures pool.Valid() && pool.Repr() <= old(pool.Repr())
    ensures Edited(old(pool.Mem()), pool.Mem(), old(host.Owned()), host.Owned())
    ensures host.In(pool.Mem()) && host.root == old(host.root) && shown == old(host.Contents())
    ensures host.Contents() == Gone(old(host.Contents()), pred, s) && s' == StateAfter(old(host.Contents()), pred, s)
  {
    hide Standing, Edited, Bag, Flat, Kept, Gone, StateAfter, Not, Pool.Mem, Pool.Valid;
    KeptByNot(host.Contents(), pred, s);
    var first; ghost var path;
    first, path := FirstEdge(host, pool);
    var drain := new DrainFilter<S>(host, Not(pred), s, first, pool.Mem(), path);
    ghost var gone := drain.Drop(pool);
    s', shown := drain.state, drain.shown;
  }

  lemma {:induction false} KeptByNot<S>(f: seq<KV>, pred: (S, Key, Val) -> Verdict<S>, s: S)
    ensures Kept(f, Not(pred), s) == Gone(f, pred, s) && StateAfter(f, Not(pred), s) == StateAfter(f, pred, s)
    ensures forall f: seq<KV> :: [] + f == f
  {
    if f != [] { KeptByNot(f[1..], pred, pred(s, f[0].key, f[0].val).state); }
  }

  lemma ShownNext(s: seq<KV>, a: seq<KV>)
    requires a != []
    ensures s + [a[0]] + a[1..] == s + a
  {
  }

  lemma DrainedOnce<S>(at: Stage<S>, pred: (S, Key, Val) -> Verdict<S>)
    requires at.ahead != []
    ensures var x := at.ahead[0];
      var v := pred(at.state, x.key, x.val);
      var at' := Stage(at.passed + (if v.accepts then [] else [KV(x.key, v.val)]), at.ahead[1..], v.state);
      Drained(at, pred) == if v.accepts then (Some(KV(x.key, v.val)), at') else Drained(at', pred)
  {
    assert at.passed + [] == at.passed;
  }

  lemma DrainedOver<S>(at: Stage<S>, pred: (S, Key, Val) -> Verdict<S>)
    requires at.ahead == []
    ensures Drained(at, pred) == (None, at)
  {
  }

  lemma StandingWithin(host: BTreeMap, m: Mem, cur: Option<Handle>, p: Path, gap: nat)
    requires Standing(host, m, cur, p, gap)
    ensures gap <= |host.Contents()| && host.In(m)
  {
  }

  lemma StandingOver(host: BTreeMap, m: Mem, edge: Handle, p: Path, gap: nat)
    requires Standing(host, m, Some(edge), p, gap) && gap == |host.Contents()|
    ensures Standing(host, m, None, p, gap)
  {
  }

  lemma StandingNowhere(host: BTreeMap, m: Mem, p: Path, gap: nat)
    requires Standing(host, m, None, p, gap)
    ensures gap == |host.Contents()|
  {
  }

  lemma FacingLess(host: BTreeMap, m: Mem, kv: Handle, q: Path, gap: nat)
    requires Facing(host, m, kv, q, gap)
    ensures gap < |host.Contents()| && host.In(m)
  {
  }
}
