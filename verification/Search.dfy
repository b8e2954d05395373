/** Searching a tree with comparators. A comparator says of a key on which side of it the sought place lies:
    Greater if the place lies right of the key, Less if left of it, Equal if it is that key's. */
module Search {
  import opened Nodes
  import opened Trees
  import opened Memory
  import opened Edits
  import opened Places
  import opened Navigate

  datatype Ordering = Less | Equal | Greater

  type Comparator = Key -> Ordering

  // ----- Comparators on sequences of pairs

  /** Along the pairs the comparator says Greater, then at most once Equal, then Less. */
  ghost predicate Monotone(f: seq<KV>, comp: Comparator) {
    forall i, j :: 0 <= i < j < |f| ==> comp(f[i].key) == Greater || comp(f[j].key) == Less
  }

  /** How many pairs lie before the place. */
  ghost function Cut(f: seq<KV>, comp: Comparator): (c: nat)
    ensures c <= |f| && forall i :: 0 <= i < c ==> comp(f[i].key) == Greater
    ensures c < |f| ==> comp(f[c].key) != Greater
  {
    if f == [] || comp(f[0].key) != Greater then 0 else 1 + Cut(f[1..], comp)
  }

  /** Whether the place is that of a pair. */
  ghost predicate Hit(f: seq<KV>, comp: Comparator) { Cut(f, comp) < |f| && comp(f[Cut(f, comp)].key) == Equal }

  lemma CutIs(f: seq<KV>, comp: Comparator, c: nat)
    requires c <= |f| && (forall i :: 0 <= i < c ==> comp(f[i].key) == Greater)
    requires (c < |f| ==> comp(f[c].key) != Greater)
    ensures Cut(f, comp) == c
  {
  }

  lemma MonotonePart(a: seq<KV>, b: seq<KV>, comp: Comparator)
    requires Monotone(a + b, comp)
    ensures Monotone(a, comp) && Monotone(b, comp)
  {
    var f := a + b;
    assert forall i :: 0 <= i < |a| ==> f[i] == a[i];
    forall i, j | 0 <= i < j < |b| ensures comp(b[i].key) == Greater || comp(b[j].key) == Less {
      assert f[|a| + i] == b[i] && f[|a| + j] == b[j];
    }
  }

  lemma CutBehind(a: seq<KV>, b: seq<KV>, comp: Comparator)
    requires Monotone(a + b, comp) && (a == [] || comp(a[|a| - 1].key) == Greater)
    ensures Cut(a + b, comp) == |a| + Cut(b, comp) && (Hit(a + b, comp) <==> Hit(b, comp))
  {
    var f, n := a + b, Cut(b, comp);
    forall i | 0 <= i < |a| + n ensures comp(f[i].key) == Greater {
      if i < |a| - 1 { assert comp(f[|a| - 1].key) == Greater; }
      if i >= |a| { assert f[i] == b[i - |a|]; }
    }
    CutIs(f, comp, |a| + n);
  }

  lemma CutAhead(b: seq<KV>, c: seq<KV>, comp: Comparator)
    requires c == [] || comp(c[0].key) == Less
    ensures Cut(b + c, comp) == Cut(b, comp) && (Hit(b + c, comp) <==> Hit(b, comp))
  {
    CutIs(b + c, comp, Cut(b, comp));
  }

  /** With only Greater before them and only Less behind them, the place lies among the pairs `b`. */
  lemma CutBetween(a: seq<KV>, b: seq<KV>, c: seq<KV>, comp: Comparator)
    requires Monotone(a + b + c, comp)
    requires (a == [] || comp(a[|a| - 1].key) == Greater) && (c == [] || comp(c[0].key) == Less)
    ensures Monotone(b, comp)
    ensures Cut(a + b + c, comp) == |a| + Cut(b, comp) && (Hit(a + b + c, comp) <==> Hit(b, comp))
  {
    hide Monotone, Cut, Hit;
    MonotonePart(a + b, c, comp);
    MonotonePart(a, b, comp);
    CutAhead(a + b, c, comp);
    CutBehind(a, b, comp);
  }

  /** Where a pair is hit, the place is its. */
  lemma HitAt(f: seq<KV>, comp: Comparator, i: nat)
    requires Monotone(f, comp) && i < |f| && comp(f[i].key) == Equal
    ensures Cut(f, comp) == i && Hit(f, comp)
  {
    CutIs(f, comp, i);
  }

  // ----- One node

  datatype IndexResult = KvIndex(idx: nat) | EdgeIndex(idx: nat)

  /** Looks through the pairs of a node from `start` on. `calls` counts the calls of the comparator. */
  method FindKeyIndex(node: Node, comp: Comparator, start: nat, pool: Pool, ghost t: Tree, ghost p: Path)
    returns (r: IndexResult, ghost calls: nat)
    requires pool.Valid() && Holds(pool.Mem(), t) && At(t, p, node) && start <= |SubAt(t, p).kvs|
    ensures var kvs := SubAt(t, p).kvs;
      && start <= r.idx <= |kvs| && forall i :: start <= i < r.idx ==> comp(kvs[i].key) == Greater
    ensures var kvs := SubAt(t, p).kvs;
      if r.KvIndex? then r.idx < |kvs| && comp(kvs[r.idx].key) == Equal
      else r.idx < |kvs| ==> comp(kvs[r.idx].key) == Less
    ensures calls <= CAPACITY
  {
    hide Holds, SubAt, ValidPath, Pool.Mem, Pool.Valid;
    var len := Len(node, pool, t, p);
    var i := start;
    calls := 0;
    while i < len
      invariant start <= i <= len && calls == i - start
      invariant forall j :: start <= j < i ==> comp(SubAt(t, p).kvs[j].key) == Greater
    {
      var kv := KvAt(node, i, pool, t, p);
      calls := calls + 1;
      match comp(kv.key) {
        case Greater =>
        case Equal => return KvIndex(i), calls;
        case Less => return EdgeIndex(i), calls;
      }
      i := i + 1;
    }
    r := EdgeIndex(len);
  }

  /** The part of a node's contents under edge `i`: the child there, or nothing in a leaf. */
  ghost function Under(s: Tree, i: nat): seq<KV>
    requires Arity(s) && i <= |s.kvs|
  {
    if s.kids == [] then [] else Flat(s.kids[i])
  }

  ghost function LeftOf(s: Tree, i: nat): seq<KV>
    requires Arity(s) && i <= |s.kvs|
  {
    if s.kids == [] then s.kvs[..i] else Left(s.kids, s.kvs, i)
  }

  ghost function RightOf(s: Tree, i: nat): seq<KV>
    requires Arity(s) && i <= |s.kvs|
  {
    if s.kids == [] then s.kvs[i..] else Right(s.kids, s.kvs, i)
  }

  lemma NodeParts(s: Tree, i: nat)
    requires Arity(s) && i <= |s.kvs|
    ensures Flat(s) == LeftOf(s, i) + Under(s, i) + RightOf(s, i)
    ensures i > 0 ==> LeftOf(s, i) != [] && LeftOf(s, i)[|LeftOf(s, i)| - 1] == s.kvs[i - 1]
    ensures i == 0 ==> LeftOf(s, i) == []
    ensures i < |s.kvs| ==> RightOf(s, i) != [] && RightOf(s, i)[0] == s.kvs[i]
    ensures i == |s.kvs| ==> RightOf(s, i) == []
    ensures i < |s.kvs| ==> LeftOf(s, i + 1) == LeftOf(s, i) + Under(s, i) + [s.kvs[i]]
  {
    if s.kids != [] {
      WeaveAt(s.kids, s.kvs, i);
      if i < |s.kvs| { LeftNext(s.kids, s.kvs, i); }
    }
  }

  /** What finding edge `i` of a node says about its contents. */
  lemma EdgeFound(s: Tree, comp: Comparator, i: nat)
    requires Arity(s) && i <= |s.kvs| && Monotone(Flat(s), comp)
    requires (i > 0 ==> comp(s.kvs[i - 1].key) == Greater) && (i < |s.kvs| ==> comp(s.kvs[i].key) == Less)
    ensures Monotone(Under(s, i), comp)
    ensures Cut(Flat(s), comp) == |LeftOf(s, i)| + Cut(Under(s, i), comp)
    ensures (Hit(Flat(s), comp) <==> Hit(Under(s, i), comp))
  {
    NodeParts(s, i);
    CutBetween(LeftOf(s, i), Under(s, i), RightOf(s, i), comp);
  }

  /** What finding pair `i` of a node says about its contents. */
  lemma PairFound(s: Tree, comp: Comparator, i: nat)
    requires Arity(s) && i < |s.kvs| && Monotone(Flat(s), comp) && comp(s.kvs[i].key) == Equal
    ensures Cut(Flat(s), comp) == |LeftOf(s, i)| + |Under(s, i)| && Hit(Flat(s), comp)
    ensures |LeftOf(s, i + 1)| == |LeftOf(s, i)| + |Under(s, i)| + 1
  {
    NodeParts(s, i);
    var n := |LeftOf(s, i)| + |Under(s, i)|;
    assert Flat(s)[n] == RightOf(s, i)[0] == s.kvs[i];
    HitAt(Flat(s), comp, n);
  }

  // ----- The whole tree

  datatype SearchResult = Found(kv: Handle) | GoDown(edge: Handle)

  /** The place is in the subtree at `p`. */
  ghost predicate PlaceIn(t: Tree, p: Path, comp: Comparator) {
    && ValidPath(t, p) && Monotone(Flat(SubAt(t, p)), comp)
    && Cut(Flat(t), comp) == |Before(t, p)| + Cut(Flat(SubAt(t, p)), comp)
    && (Hit(Flat(t), comp) <==> Hit(Flat(SubAt(t, p)), comp))
  }

  lemma EdgeSize(t: Tree, p: Path, i: nat)
    requires ValidPath(t, p) && Arity(SubAt(t, p)) && i <= |SubAt(t, p).kvs|
    ensures var s := SubAt(t, p);
      Start(t, p, i) == |Before(t, p)| + |LeftOf(s, i)| && End(t, p, i) == Start(t, p, i) + |Under(s, i)|
  {
  }

  lemma FoundHere(t: Tree, p: Path, comp: Comparator, i: nat)
    requires PlaceIn(t, p, comp) && Arity(SubAt(t, p)) && i < |SubAt(t, p).kvs| && comp(SubAt(t, p).kvs[i].key) == Equal
    ensures Hit(Flat(t), comp) && End(t, p, i) == Cut(Flat(t), comp)
  {
    PairFound(SubAt(t, p), comp, i);
    EdgeSize(t, p, i);
  }

  lemma FurtherDown(t: Tree, p: Path, comp: Comparator, i: nat)
    requires PlaceIn(t, p, comp) && Arity(SubAt(t, p)) && i <= |SubAt(t, p).kvs|
    requires var s := SubAt(t, p);
      (i > 0 ==> comp(s.kvs[i - 1].key) == Greater) && (i < |s.kvs| ==> comp(s.kvs[i].key) == Less)
    ensures SubAt(t, p).kids != [] ==> PlaceIn(t, p + [i], comp)
    ensures SubAt(t, p).kids == [] ==> Cut(Flat(t), comp) == |Before(t, p)| + i && !Hit(Flat(t), comp)
  {
    EdgeFound(SubAt(t, p), comp, i);
    if SubAt(t, p).kids != [] { Step(t, p, i); }
  }

  /** Looks for the place in one node: a pair there, or the edge under which it lies. */
  method SearchNode(node: Node, comp: Comparator, pool: Pool, ghost t: Tree, ghost p: Path)
    returns (r: SearchResult, ghost calls: nat)
    requires pool.Valid() && Holds(pool.Mem(), t) && At(t, p, node) && PlaceIn(t, p, comp)
    ensures r.Found? ==> Kv(t, p, r.kv) && Hit(Flat(t), comp) && Index(t, p, r.kv) == Cut(Flat(t), comp)
    ensures r.GoDown? ==> r.edge.node == node && Arity(SubAt(t, p)) && r.edge.idx <= |SubAt(t, p).kvs|
    ensures r.GoDown? && SubAt(t, p).kids != [] ==> PlaceIn(t, p + [r.edge.idx], comp)
    ensures r.GoDown? && SubAt(t, p).kids == [] ==>
      LeafEdge(t, p, r.edge) && Gap(t, p, r.edge) == Cut(Flat(t), comp) && !Hit(Flat(t), comp)
    ensures calls <= CAPACITY
  {
    hide Holds, SubAt, ValidPath, Before, Monotone, Hit, PlaceIn, Pool.Mem, Pool.Valid;
    ChildArity(pool.Mem(), t, p);
    var i;
    i, calls := FindKeyIndex(node, comp, 0, pool, t, p);
    if i.KvIndex? {
      FoundHere(t, p, comp, i.idx);
      r := Found(Handle(node, i.idx));
    } else {
      FurtherDown(t, p, comp, i.idx);
      r := GoDown(Handle(node, i.idx));
    }
  }

  method DescendTo(node: Node, i: nat, pool: Pool, ghost t: Tree, ghost p: Path) returns (child: Node, ghost q: Path)
    requires pool.Valid() && Holds(pool.Mem(), t) && At(t, p, node) && SubAt(t, p).kids != [] && i <= |SubAt(t, p).kvs|
    ensures q == p + [i] && |q| == |p| + 1 && At(t, q, child) && SubAt(t, q) < SubAt(t, p)
  {
    hide Holds, SubAt, ValidPath, Pool.Mem, Pool.Valid;
    ChildArity(pool.Mem(), t, p);
    q := p + [i];
    child := Descend(node, i, pool, t, p);
  }

  /** The search is at a node under which the place lies. */
  ghost predicate Seeking(t: Tree, q: Path, node: Node, comp: Comparator, calls: nat) {
    At(t, q, node) && PlaceIn(t, q, comp) && calls <= CAPACITY * |q|
  }

  /** The search is over. */
  ghost predicate Answers(t: Tree, q: Path, comp: Comparator, r: SearchResult, calls: nat) {
    && (r.Found? <==> Hit(Flat(t), comp)) && calls <= CAPACITY * (|q| + 1)
    && (r.Found? ==> Kv(t, q, r.kv) && Index(t, q, r.kv) == Cut(Flat(t), comp))
    && (r.GoDown? ==> LeafEdge(t, q, r.edge) && Gap(t, q, r.edge) == Cut(Flat(t), comp))
  }

  method SearchOn(node: Node, comp: Comparator, pool: Pool, ghost t: Tree, ghost p: Path, ghost calls: nat)
    returns (r: SearchResult, over: bool, child: Node, ghost q: Path, ghost calls': nat)
    requires pool.Valid() && Holds(pool.Mem(), t) && Seeking(t, p, node, comp, calls)
    ensures over ==> Answers(t, q, comp, r, calls')
    ensures !over ==>
      Seeking(t, q, child, comp, calls') && ValidPath(t, p) && ValidPath(t, q) && SubAt(t, q) < SubAt(t, p)
  {
    hide Holds, SubAt, ValidPath, Before, Monotone, Hit, PlaceIn, Kv, Index, Cut, Flat, LeafEdge, Gap, Pool.Mem,
         Pool.Valid;
    ghost var c;
    r, c := SearchNode(node, comp, pool, t, p);
    over, child, q, calls' := r.Found?, node, p, calls + c;
    if !over {
      over := IsLeaf(node, pool, t, p);
      if !over { child, q := DescendTo(node, r.edge.idx, pool, t, p); }
    }
  }

  /** Finds the pair the comparator hits, or the leaf edge where such a pair belongs. */
  method SearchTree(start: Node, comp: Comparator, pool: Pool, ghost t: Tree)
    returns (r: SearchResult, ghost q: Path, ghost calls: nat)
    requires pool.Valid() && Holds(pool.Mem(), t) && t.node == start && Monotone(Flat(t), comp)
    ensures r.Found? <==> Hit(Flat(t), comp)
    ensures r.Found? ==> Kv(t, q, r.kv) && Index(t, q, r.kv) == Cut(Flat(t), comp)
    ensures r.GoDown? ==> LeafEdge(t, q, r.edge) && Gap(t, q, r.edge) == Cut(Flat(t), comp)
    ensures calls <= CAPACITY * (|q| + 1)
  {
    hide Holds, SubAt, Seeking, Monotone, Hit, Kv, Index, Cut, Flat, LeafEdge, Gap, Pool.Mem, Pool.Valid;
    var node := start;
    q, calls := [], 0;
    PlaceInRoot(t, q, comp);
    while true
      invariant pool.Valid() && Holds(pool.Mem(), t) && ValidPath(t, q) && Seeking(t, q, node, comp, calls)
      decreases SubAt(t, q)
    {
      var over;
      r, over, node, q, calls := SearchOn(node, comp, pool, t, q, calls);
      if over { return; }
    }
  }

  lemma PlaceInRoot(t: Tree, p: Path, comp: Comparator)
    requires p == [] && Monotone(Flat(t), comp)
    ensures Seeking(t, p, t.node, comp, 0) && ValidPath(t, p)
  {
  }

  // ----- Bounds

  datatype SearchBound = Included | Excluded | AllIncluded | AllExcluded

  /** How many pairs lie before a lower bound, and how many not behind an upper bound. */
  ghost function LowerCut(f: seq<KV>, comp: Comparator, bound: SearchBound): (c: nat)
    ensures c <= |f|
  {
    match bound
    case Included => Cut(f, comp)
    case Excluded => if Hit(f, comp) then Cut(f, comp) + 1 else Cut(f, comp)
    case AllIncluded => 0
    case AllExcluded => |f|
  }

  ghost function UpperCut(f: seq<KV>, comp: Comparator, bound: SearchBound): (c: nat)
    ensures c <= |f|
  {
    match bound
    case Included => if Hit(f, comp) then Cut(f, comp) + 1 else Cut(f, comp)
    case Excluded => Cut(f, comp)
    case AllIncluded => |f|
    case AllExcluded => 0
  }

  /** What landing on a bound means: no pair before a lower bound satisfies it and all from there on do; and the other
      way round for an upper bound. */
  lemma BoundsLand(f: seq<KV>, comp: Comparator, bound: SearchBound, i: nat)
    requires Monotone(f, comp) && i < |f|
    ensures var c := comp(f[i].key);
      i >= LowerCut(f, comp, bound) <==>
        bound.AllIncluded? || (bound.Included? && c != Greater) || (bound.Excluded? && c == Less)
    ensures var c := comp(f[i].key);
      i < UpperCut(f, comp, bound) <==>
        bound.AllIncluded? || (bound.Included? && c != Less) || (bound.Excluded? && c == Greater)
  {
    var c := Cut(f, comp);
    if c < i { assert comp(f[c].key) == Greater || comp(f[i].key) == Less; }
  }

  /** The edge of a node under which a lower bound lies, and the bound to go on with there. */
  method FindLowerBoundIndex(node: Node, comp: Comparator, bound: SearchBound, pool: Pool, ghost t: Tree, ghost p: Path)
    returns (i: nat, next: SearchBound)
    requires pool.Valid() && Holds(pool.Mem(), t) && At(t, p, node) && Monotone(Flat(SubAt(t, p)), comp)
    ensures var s := SubAt(t, p);
      && Arity(s) && i <= |s.kvs| && Monotone(Under(s, i), comp)
      && LowerCut(Flat(s), comp, bound) == |LeftOf(s, i)| + LowerCut(Under(s, i), comp, next)
  {
    hide Holds, SubAt, ValidPath, Monotone, Hit, Cut, LeftOf, Under, Flat, Pool.Mem, Pool.Valid;
    ChildArity(pool.Mem(), t, p);
    var len := Len(node, pool, t, p);
    match bound {
      case AllIncluded =>
        i, next := 0, AllIncluded;
        NodeParts(SubAt(t, p), 0);
        UnderMonotone(SubAt(t, p), i, comp);
      case AllExcluded =>
        i, next := len, AllExcluded;
        NodeEnd(SubAt(t, p));
        UnderMonotone(SubAt(t, p), i, comp);
      case Included =>
        var r, _ := FindKeyIndex(node, comp, 0, pool, t, p);
        if r.KvIndex? {
          i, next := r.idx, AllExcluded;
          PairFound(SubAt(t, p), comp, r.idx);
          UnderMonotone(SubAt(t, p), i, comp);
        } else {
          i, next := r.idx, bound;
          EdgeFound(SubAt(t, p), comp, i);
        }
      case Excluded =>
        var r, _ := FindKeyIndex(node, comp, 0, pool, t, p);
        if r.KvIndex? {
          i, next := r.idx + 1, AllIncluded;
          PairFound(SubAt(t, p), comp, r.idx);
          UnderMonotone(SubAt(t, p), i, comp);
        } else {
          i, next := r.idx, bound;
          EdgeFound(SubAt(t, p), comp, i);
        }
    }
  }

  lemma NodeEnd(s: Tree)
    requires Arity(s)
    ensures |Flat(s)| == |LeftOf(s, |s.kvs|)| + |Under(s, |s.kvs|)|
  {
    NodeParts(s, |s.kvs|);
  }

  lemma UnderMonotone(s: Tree, i: nat, comp: Comparator)
    requires Arity(s) && i <= |s.kvs| && Monotone(Flat(s), comp)
    ensures Monotone(Under(s, i), comp)
  {
    NodeParts(s, i);
    var a, b := LeftOf(s, i), Under(s, i);
    assert Flat(s)[|a|..|a| + |b|] == b;
    PartMonotone(Flat(s), |a|, |a| + |b|, comp);
  }

  lemma PartMonotone(f: seq<KV>, lo: nat, hi: nat, comp: Comparator)
    requires lo <= hi <= |f| && Monotone(f, comp)
    ensures Monotone(f[lo..hi], comp)
  {
    var b := f[lo..hi];
    forall i, j | 0 <= i < j < |b| ensures comp(b[i].key) == Greater || comp(b[j].key) == Less {
      assert b[i] == f[lo + i] && b[j] == f[lo + j];
    }
  }

  /** Edge `j`, and going on with `next` there, is where the upper bound lies; or the bound lies before edge `start`. */
  ghost predicate UpperAt(s: Tree, comp: Comparator, bound: SearchBound, start: nat, j: nat, next: SearchBound) {
    && Arity(s) && start <= j <= |s.kvs|
    && (UpperCut(Flat(s), comp, bound) == |LeftOf(s, j)| + UpperCut(Under(s, j), comp, next)
        || (j == start && UpperCut(Flat(s), comp, bound) <= |LeftOf(s, j)| && UpperCut(Under(s, j), comp, next) == 0))
  }

  /** The pair before `start` not being Greater puts the place before edge `start`. */
  lemma PlaceBefore(s: Tree, comp: Comparator, i: nat)
    requires Arity(s) && 0 < i <= |s.kvs| && Monotone(Flat(s), comp) && comp(s.kvs[i - 1].key) != Greater
    ensures Cut(Flat(s), comp) < |LeftOf(s, i)| && (Hit(Flat(s), comp) ==> Cut(Flat(s), comp) + 1 <= |LeftOf(s, i)|)
    ensures Cut(Under(s, i), comp) == 0 && !Hit(Under(s, i), comp)
  {
    NodeParts(s, i);
    var f, n := Flat(s), |LeftOf(s, i)|;
    assert f[n - 1] == s.kvs[i - 1];
    if Under(s, i) != [] {
      assert f[n] == Under(s, i)[0];
      assert comp(f[n - 1].key) == Greater || comp(f[n].key) == Less;
    }
  }

  lemma UpperFound(s: Tree, comp: Comparator, bound: SearchBound, start: nat, r: IndexResult)
    requires Arity(s) && start <= r.idx <= |s.kvs| && Monotone(Flat(s), comp) && (bound.Included? || bound.Excluded?)
    requires forall i :: start <= i < r.idx ==> comp(s.kvs[i].key) == Greater
    requires if r.KvIndex? then r.idx < |s.kvs| && comp(s.kvs[r.idx].key) == Equal
             else r.idx < |s.kvs| ==> comp(s.kvs[r.idx].key) == Less
    ensures r.EdgeIndex? ==> UpperAt(s, comp, bound, start, r.idx, bound)
    ensures r.KvIndex? && bound.Included? ==> UpperAt(s, comp, bound, start, r.idx + 1, AllExcluded)
    ensures r.KvIndex? && bound.Excluded? ==> UpperAt(s, comp, bound, start, r.idx, AllIncluded)
  {
    hide Monotone, Flat, LeftOf, Under, Hit, Cut;
    var i := r.idx;
    if r.KvIndex? {
      PairFound(s, comp, i);
    } else if i > 0 && comp(s.kvs[i - 1].key) != Greater {
      PlaceBefore(s, comp, i);
    } else {
      EdgeFound(s, comp, i);
    }
  }

  /** The edge of a node, from `start` on, before which an upper bound lies, and the bound to go on with there. */
  method FindUpperBoundIndex(node: Node, comp: Comparator, bound: SearchBound, start: nat, pool: Pool, ghost t: Tree,
                             ghost p: Path)
    returns (j: nat, next: SearchBound)
    requires pool.Valid() && Holds(pool.Mem(), t) && At(t, p, node) && Monotone(Flat(SubAt(t, p)), comp)
    requires start <= |SubAt(t, p).kvs|
    ensures UpperAt(SubAt(t, p), comp, bound, start, j, next) && Monotone(Under(SubAt(t, p), j), comp)
  {
    hide Holds, SubAt, ValidPath, Monotone, Hit, Cut, LeftOf, Under, Flat, Pool.Mem, Pool.Valid;
    ChildArity(pool.Mem(), t, p);
    var len := Len(node, pool, t, p);
    match bound {
      case AllIncluded =>
        j, next := len, AllIncluded;
        NodeEnd(SubAt(t, p));
      case AllExcluded =>
        j, next := start, AllExcluded;
      case Included =>
        var r, _ := FindKeyIndex(node, comp, start, pool, t, p);
        UpperFound(SubAt(t, p), comp, bound, start, r);
        j, next := if r.KvIndex? then r.idx + 1 else r.idx, if r.KvIndex? then AllExcluded else bound;
      case Excluded =>
        var r, _ := FindKeyIndex(node, comp, start, pool, t, p);
        UpperFound(SubAt(t, p), comp, bound, start, r);
        j, next := r.idx, if r.KvIndex? then AllIncluded else bound;
    }
    UnderMonotone(SubAt(t, p), j, comp);
  }
}
