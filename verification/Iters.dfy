/** The borrowing iterators: over a whole map from both ends, and any run of calls on them and on ranges. */
module Iters {
  import opened Nodes
  import opened Options
  import opened Trees
  import opened Memory
  import opened Places
  import opened Navigate
  import opened IntoIters
  import opened Shapes
  import opened Search
  import opened Ranges
  import opened Maps

  /** The leaf edge of a lazy handle at the front, found from the root if it is not there yet. */
  method InitFront(front: LazyHandle, pool: Pool, ghost t: Tree, ghost p: Path, ghost lo: nat)
    returns (edge: Handle, ghost p': Path)
    requires pool.Valid() && Holds(pool.Mem(), t) && FrontIn(t, p, lo, front)
    ensures LeafEdge(t, p', edge) && Gap(t, p', edge) == lo
  {
    hide Holds, SubAt, ValidPath, Before, Pool.Mem, Pool.Valid;
    match front {
      case AtEdge(e) => edge, p' := e, p;
      case AtTop(root) =>
        AtRoot(t);
        edge, p' := FirstLeafEdge(root, pool, t, []);
    }
  }

  method InitBack(back: LazyHandle, pool: Pool, ghost t: Tree, ghost q: Path, ghost hi: nat)
    returns (edge: Handle, ghost q': Path)
    requires pool.Valid() && Holds(pool.Mem(), t) && BackIn(t, q, hi, back)
    ensures LeafEdge(t, q', edge) && Gap(t, q', edge) == hi
  {
    hide Holds, SubAt, ValidPath, Before, Pool.Mem, Pool.Valid;
    match back {
      case AtEdge(e) => edge, q' := e, q;
      case AtTop(root) =>
        AtRoot(t);
        edge, q' := LastLeafEdge(root, pool, t, []);
        assert [] + q' == q';
    }
  }

  class Iter {
    var front: Option<LazyHandle>
    var back: Option<LazyHandle>
    var length: nat
    ghost var p: Path
    ghost var q: Path
    ghost var lo: nat

    ghost predicate In(t: Option<Tree>)
      reads this
    {
      && (front.Some? <==> t.Some?) && (back.Some? <==> t.Some?) && (t.None? ==> lo == length == 0)
      && (t.Some? ==> lo + length <= |Flat(t.value)| && FrontIn(t.value, p, lo, front.value)
                      && BackIn(t.value, q, lo + length, back.value))
    }

    ghost function Rest(t: Option<Tree>): seq<KV>
      requires In(t)
      reads this
    {
      if t.None? then [] else Flat(t.value)[lo..lo + length]
    }

    /** An iterator over the pairs of a map. */
    constructor (host: BTreeMap, ghost m: Mem)
      requires host.In(m)
      ensures In(host.tree) && Rest(host.tree) == host.Contents() && length == |host.Contents()|
    {
      length, lo, p, q := host.length, 0, [], [];
      if host.root.Some? {
        front, back := Some(AtTop(host.root.value.node)), Some(AtTop(host.root.value.node));
      } else {
        front, back := None, None;
      }
    }

    method Next(pool: Pool, ghost t: Option<Tree>) returns (kv: Option<KV>)
      requires pool.Valid() && In(t) && (t.Some? ==> Holds(pool.Mem(), t.value))
      modifies this
      ensures In(t)
      ensures var f := old(Rest(t));
        if f == [] then kv == None && Rest(t) == f else kv == Some(f[0]) && Rest(t) == f[1..]
    {
      hide Holds, SubAt, ValidPath, Before, Flat, LeafEdge, Gap, BackIn, Pool.Mem, Pool.Valid;
      if length == 0 { return None; }
      var edge, pair; ghost var r;
      edge, r := InitFront(front.value, pool, t.value, p, lo);
      pair, edge, r := NextUnchecked(edge, pool, t.value, r);
      SetFront(edge, t.value, r);
      kv := Some(pair);
    }

    method SetFront(edge: Handle, ghost t: Tree, ghost r: Path)
      requires In(Some(t)) && length > 0 && LeafEdge(t, r, edge) && Gap(t, r, edge) == lo + 1
      modifies this
      ensures In(Some(t)) && length == old(length) - 1 && lo == old(lo) + 1
      ensures Rest(Some(t)) == old(Rest(Some(t)))[1..]
    {
      hide LeafEdge, Gap, BackIn, Flat, Pool.Mem, Pool.Valid;
      length, front, lo, p := length - 1, Some(AtEdge(edge)), lo + 1, r;
    }

    method NextBack(pool: Pool, ghost t: Option<Tree>) returns (kv: Option<KV>)
      requires pool.Valid() && In(t) && (t.Some? ==> Holds(pool.Mem(), t.value))
      modifies this
      ensures In(t)
      ensures var f := old(Rest(t));
        if f == [] then kv == None && Rest(t) == f else kv == Some(f[|f| - 1]) && Rest(t) == f[..|f| - 1]
    {
      hide Holds, SubAt, ValidPath, Before, Flat, LeafEdge, Gap, FrontIn, Pool.Mem, Pool.Valid;
      if length == 0 { return None; }
      var edge, pair; ghost var r;
      edge, r := InitBack(back.value, pool, t.value, q, lo + length);
      pair, edge, r := NextBackUnchecked(edge, pool, t.value, r);
      SetBack(edge, t.value, r);
      kv := Some(pair);
    }

    method SetBack(edge: Handle, ghost t: Tree, ghost r: Path)
      requires In(Some(t)) && length > 0 && LeafEdge(t, r, edge) && Gap(t, r, edge) == lo + length - 1
      modifies this
      ensures In(Some(t)) && length == old(length) - 1 && lo == old(lo)
      ensures Rest(Some(t)) == old(Rest(Some(t)))[..length]
    {
      hide LeafEdge, Gap, FrontIn, Flat, Pool.Mem, Pool.Valid;
      ghost var f, hi := Flat(t), lo + length;
      assert f[lo..hi][..length - 1] == f[lo..hi - 1];
      length, back, q := length - 1, Some(AtEdge(edge)), r;
    }
  }

  /** Any run of calls on either end of an iterator takes the ends of what is left. */
  method RunIter(iter: Iter, calls: seq<bool>, pool: Pool, ghost t: Option<Tree>) returns (taken: seq<Option<KV>>)
    requires pool.Valid() && iter.In(t) && (t.Some? ==> Holds(pool.Mem(), t.value))
    modifies iter
    ensures iter.In(t) && taken == Taken(old(iter.Rest(t)), calls)
    decreases |calls|
  {
    hide Holds, Flat, Iter.In, Iter.Rest, Pool.Mem, Pool.Valid;
    if calls == [] { return []; }
    var kv := None;
    if calls[0] { kv := iter.Next(pool, t); } else { kv := iter.NextBack(pool, t); }
    taken := RunIter(iter, calls[1..], pool, t);
    taken := [kv] + taken;
  }

  /** Any run of calls on either end of a range takes the ends of its pairs. */
  method RunRange(range: LeafRange, calls: seq<bool>, pool: Pool, ghost t: Option<Tree>)
    returns (taken: seq<Option<KV>>)
    requires pool.Valid() && range.In(t) && (t.Some? ==> Holds(pool.Mem(), t.value))
    modifies range
    ensures range.In(t) && taken == Taken(old(range.Rest(t)), calls)
    decreases |calls|
  {
    hide Holds, Flat, LeafRange.In, LeafRange.Rest, Pool.Mem, Pool.Valid;
    if calls == [] { return []; }
    var kv := None;
    if calls[0] { kv := range.NextChecked(pool, t); } else { kv := range.NextBackChecked(pool, t); }
    taken := RunRange(range, calls[1..], pool, t);
    taken := [kv] + taken;
  }

  // ----- Ranges of a map

  /** The range of a map between two bounds. */
  method RangeOf(host: BTreeMap, lower: Comparator, l0: SearchBound, upper: Comparator, u0: SearchBound, pool: Pool)
    returns (range: LeafRange)
    requires pool.Valid() && host.In(pool.Mem()) && Monotone(host.Contents(), lower) && Monotone(host.Contents(), upper)
    ensures fresh(range) && range.In(host.tree)
    ensures range.Rest(host.tree) == Between(host.Contents(), lower, l0, upper, u0)
  {
    hide Holds, Balanced, Flat, Monotone, LowerCut, UpperCut, LeafRange.In, LeafRange.Rest, Pool.Mem, Pool.Valid;
    if host.root.None? {
      range := new LeafRange.Empty();
    } else {
      range := RangeSearch(host.root.value.node, lower, l0, upper, u0, pool, host.tree.value, host.root.value.height);
    }
  }

  /** Any run of calls on either end of a range of any map takes the ends of the pairs between the bounds. */
  method RunRangeOf(host: BTreeMap, lower: Comparator, l0: SearchBound, upper: Comparator, u0: SearchBound,
                    calls: seq<bool>, pool: Pool)
    returns (taken: seq<Option<KV>>)
    requires pool.Valid() && host.In(pool.Mem()) && Monotone(host.Contents(), lower) && Monotone(host.Contents(), upper)
    ensures taken == Taken(Between(host.Contents(), lower, l0, upper, u0), calls)
  {
    hide Flat, Monotone, Between, Taken, Holds, Balanced, LeafRange.In, LeafRange.Rest, Pool.Mem, Pool.Valid;
    var range := RangeOf(host, lower, l0, upper, u0, pool);
    taken := RunRange(range, calls, pool, host.tree);
  }
}
