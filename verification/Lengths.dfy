/** Counting the pairs of a tree by visiting its nodes in order, each before the nodes below it. */
module Lengths {
  import opened Nodes
  import opened Options
  import opened Trees
  import opened Memory
  import opened Places
  import opened Navigate
  import opened Roots

  ghost function Sum(kids: seq<Tree>): nat {
    if kids == [] then 0 else |Flat(kids[0])| + Sum(kids[1..])
  }

  /** The pairs counted, and the nodes visited, before the node at `p` is visited. */
  ghost function CountBefore(t: Tree, p: Path): nat
    requires ValidPath(t, p)
    decreases |p|
  {
    if p == [] then 0 else |t.kvs| + Sum(t.kids[..p[0]]) + CountBefore(t.kids[p[0]], p[1..])
  }

  ghost function NodesBefore(t: Tree, p: Path): multiset<Node>
    requires ValidPath(t, p)
    decreases |p|
  {
    if p == [] then multiset{} else multiset{t.node} + Bags(t.kids[..p[0]]) + NodesBefore(t.kids[p[0]], p[1..])
  }

  /** The same once everything at and below `p` has been visited. */
  ghost function CountAfter(t: Tree, p: Path): nat
    requires ValidPath(t, p)
  {
    CountBefore(t, p) + |Flat(SubAt(t, p))|
  }

  ghost function NodesAfter(t: Tree, p: Path): multiset<Node>
    requires ValidPath(t, p)
  {
    NodesBefore(t, p) + Bag(SubAt(t, p))
  }

  lemma {:induction false} SumConcat(a: seq<Tree>, b: seq<Tree>)
    ensures Sum(a + b) == Sum(a) + Sum(b)
    decreases a
  {
    if a == [] {
      assert a + b == b;
    } else {
      assert (a + b)[1..] == a[1..] + b;
      SumConcat(a[1..], b);
    }
  }

  lemma {:induction false} FlatSum(kids: seq<Tree>, kvs: seq<KV>)
    requires |kids| == |kvs| + 1
    ensures |Weave(kids, kvs)| == |kvs| + Sum(kids)
    decreases kids
  {
    if |kids| > 1 {
      FlatSum(kids[1..], kvs[1..]);
    } else {
      assert kids[1..] == [];
    }
  }

  lemma OneMoreKid(kids: seq<Tree>, i: nat)
    requires i < |kids|
    ensures Sum(kids[..i + 1]) == Sum(kids[..i]) + |Flat(kids[i])|
    ensures Bags(kids[..i + 1]) == Bags(kids[..i]) + Bag(kids[i])
  {
    assert kids[..i + 1] == kids[..i] + [kids[i]];
    SumConcat(kids[..i], [kids[i]]);
    BagsConcat(kids[..i], [kids[i]]);
    BagsOne(kids[i]);
    assert [kids[i]][1..] == [];
  }

  /** Where the visit goes on: from a node to its first child, from a child to the next, from the last child to the
      node. */
  lemma {:induction false} VisitStep(t: Tree, p: Path, i: nat)
    requires ValidPath(t, p)
    requires var s := SubAt(t, p); |s.kids| == |s.kvs| + 1 && i < |s.kids|
    ensures ValidPath(t, p + [i]) && SubAt(t, p + [i]) == SubAt(t, p).kids[i]
    ensures var s := SubAt(t, p);
      && CountBefore(t, p + [i]) == CountBefore(t, p) + |s.kvs| + Sum(s.kids[..i])
      && NodesBefore(t, p + [i]) == NodesBefore(t, p) + multiset{s.node} + Bags(s.kids[..i])
    decreases |p|
  {
    var q := p + [i];
    if p == [] {
      assert q[1..] == [];
    } else {
      assert q[0] == p[0] && q[1..] == p[1..] + [i];
      VisitStep(t.kids[p[0]], p[1..], i);
    }
  }

  lemma VisitFirst(t: Tree, p: Path)
    requires ValidPath(t, p) && |SubAt(t, p).kids| == |SubAt(t, p).kvs| + 1
    ensures ValidPath(t, p + [0]) && SubAt(t, p + [0]) == SubAt(t, p).kids[0]
    ensures CountBefore(t, p + [0]) == CountBefore(t, p) + |SubAt(t, p).kvs|
    ensures NodesBefore(t, p + [0]) == NodesBefore(t, p) + multiset{SubAt(t, p).node}
  {
    VisitStep(t, p, 0);
  }

  lemma VisitNext(t: Tree, p: Path, i: nat)
    requires ValidPath(t, p) && |SubAt(t, p).kids| == |SubAt(t, p).kvs| + 1 && i < |SubAt(t, p).kvs|
    ensures ValidPath(t, p + [i]) && ValidPath(t, p + [i + 1]) && SubAt(t, p + [i + 1]) == SubAt(t, p).kids[i + 1]
    ensures CountBefore(t, p + [i + 1]) == CountAfter(t, p + [i])
    ensures NodesBefore(t, p + [i + 1]) == NodesAfter(t, p + [i])
  {
    hide SubAt, ValidPath, CountBefore, NodesBefore, Flat, Bag, Bags, Sum;
    VisitStep(t, p, i);
    VisitStep(t, p, i + 1);
    OneMoreKid(SubAt(t, p).kids, i);
  }

  lemma VisitLast(t: Tree, p: Path, i: nat)
    requires ValidPath(t, p) && |SubAt(t, p).kids| == |SubAt(t, p).kvs| + 1 && i == |SubAt(t, p).kvs|
    ensures ValidPath(t, p + [i]) && CountAfter(t, p + [i]) == CountAfter(t, p)
    ensures NodesAfter(t, p + [i]) == NodesAfter(t, p)
  {
    hide SubAt, ValidPath, CountBefore, NodesBefore, Flat, Bag, Bags, Sum;
    var s := SubAt(t, p);
    VisitStep(t, p, i);
    OneMoreKid(s.kids, i);
    assert s.kids[..i + 1] == s.kids;
    NodeTotals(s);
  }

  lemma NodeTotals(s: Tree)
    requires |s.kids| == |s.kvs| + 1
    ensures |Flat(s)| == |s.kvs| + Sum(s.kids) && Bag(s) == multiset{s.node} + Bags(s.kids)
  {
    FlatSum(s.kids, s.kvs);
  }

  lemma {:induction false} NodesWithin(t: Tree, p: Path)
    requires ValidPath(t, p)
    ensures NodesAfter(t, p) <= Bag(t)
    decreases |p|
  {
    if p != [] {
      NodesWithin(t.kids[p[0]], p[1..]);
      BagsAt(t.kids, p[0]);
    }
  }

  lemma VisitedLess(t: Tree, p: Path)
    requires ValidPath(t, p)
    ensures |NodesBefore(t, p)| < |Bag(t)|
  {
    NodesWithin(t, p);
    var a, b := NodesAfter(t, p), Bag(t);
    assert b == a + (b - a);
    assert SubAt(t, p).node in Bag(SubAt(t, p));
  }

  /** The pair right of an edge of an internal node, in the node or further up. */
  method InternalNextKv(edge: Handle, pool: Pool, ghost t: Tree, ghost p: Path)
    returns (kv: Option<Handle>, ghost q: Path)
    requires pool.Valid() && Holds(pool.Mem(), t) && At(t, p, edge.node) && SubAt(t, p).kids != []
    requires |SubAt(t, p).kids| == |SubAt(t, p).kvs| + 1 && edge.idx <= |SubAt(t, p).kvs|
    requires ValidPath(t, p + [edge.idx])
    ensures kv.Some? ==>
      Kv(t, q, kv.value) && |SubAt(t, q).kids| == |SubAt(t, q).kvs| + 1 && ValidPath(t, q + [kv.value.idx])
    ensures kv.Some? ==> CountAfter(t, q + [kv.value.idx]) == CountAfter(t, p + [edge.idx])
    ensures kv.Some? ==> NodesAfter(t, q + [kv.value.idx]) == NodesAfter(t, p + [edge.idx])
    ensures kv.None? ==> CountAfter(t, p + [edge.idx]) == |Flat(t)| && NodesAfter(t, p + [edge.idx]) == Bag(t)
  {
    hide Holds, SubAt, ValidPath, CountAfter, NodesAfter, Pool.Mem, Pool.Valid;
    var node: Node, idx: nat := edge.node, edge.idx;
    q := p;
    while true
      invariant At(t, q, node) && |SubAt(t, q).kids| == |SubAt(t, q).kvs| + 1 && idx <= |SubAt(t, q).kvs|
      invariant ValidPath(t, q + [idx])
      invariant CountAfter(t, q + [idx]) == CountAfter(t, p + [edge.idx])
      invariant NodesAfter(t, q + [idx]) == NodesAfter(t, p + [edge.idx])
      decreases |q|
    {
      var len := Len(node, pool, t, q);
      if idx < len { return Some(Handle(node, idx)), q; }
      VisitLast(t, q, idx);
      var parent, i := Ascend(node, pool, t, q);
      if parent == null {
        VisitedAll(t, q);
        return None, q;
      }
      VisitedChild(t, q, parent, i);
      node, idx, q := parent, i, q[..|q| - 1];
    }
  }

  lemma VisitedAll(t: Tree, p: Path)
    requires p == [] && ValidPath(t, p)
    ensures CountAfter(t, p) == |Flat(t)| && NodesAfter(t, p) == Bag(t)
  {
  }

  lemma VisitedChild(t: Tree, q: Path, parent: Node, i: nat)
    requires Above(t, q, parent, i)
    ensures |q| > 0 && At(t, q[..|q| - 1], parent) && q == q[..|q| - 1] + [i]
    ensures var s := SubAt(t, q[..|q| - 1]); |s.kids| == |s.kvs| + 1 && i <= |s.kvs|
  {
  }

  /** The number of pairs in the tree. Every node is visited once. */
  method CalcLength(root: Node, pool: Pool, ghost t: Tree) returns (result: nat, ghost visited: multiset<Node>)
    requires pool.Valid() && Holds(pool.Mem(), t) && t.node == root
    ensures result == |Flat(t)| && visited == Bag(t)
  {
    hide Holds, SubAt, ValidPath, CountBefore, NodesBefore, Flat, Bag, Pool.Mem, Pool.Valid;
    var node := root;
    ghost var p: Path := [];
    result, visited := 0, multiset{};
    VisitRoot(t, p);
    while true
      invariant At(t, p, node) && result == CountBefore(t, p) && visited == NodesBefore(t, p)
      decreases |Bag(t)| - |visited|
    {
      VisitedLess(t, p);
      var len := Len(node, pool, t, p);
      result, visited := result + len, visited + multiset{node};
      var next;
      next, p := NextNode(node, len, pool, t, p);
      if next.None? { return; }
      node := next.value;
    }
  }

  /** The node to visit after another: its first child, or what comes after the leaf. */
  method NextNode(node: Node, len: nat, pool: Pool, ghost t: Tree, ghost p: Path)
    returns (next: Option<Node>, ghost q: Path)
    requires pool.Valid() && Holds(pool.Mem(), t) && At(t, p, node) && len == |SubAt(t, p).kvs|
    ensures next.Some? ==> At(t, q, next.value)
    ensures next.Some? ==>
      CountBefore(t, q) == CountBefore(t, p) + len && NodesBefore(t, q) == NodesBefore(t, p) + multiset{node}
    ensures next.None? ==> |Flat(t)| == CountBefore(t, p) + len && Bag(t) == NodesBefore(t, p) + multiset{node}
  {
    hide Holds, SubAt, ValidPath, CountBefore, NodesBefore, CountAfter, NodesAfter, Flat, Bag, Pool.Mem, Pool.Valid;
    var leaf := IsLeaf(node, pool, t, p);
    if leaf {
      VisitLeaf(t, p);
      next, q := NextAfterLeaf(node, pool, t, p);
    } else {
      ChildArity(pool.Mem(), t, p);
      VisitFirst(t, p);
      var child := Descend(node, 0, pool, t, p);
      next, q := Some(child), p + [0];
    }
  }

  lemma VisitRoot(t: Tree, p: Path)
    requires p == []
    ensures At(t, p, t.node) && CountBefore(t, p) == 0 && NodesBefore(t, p) == multiset{}
  {
  }

  lemma VisitLeaf(t: Tree, p: Path)
    requires ValidPath(t, p) && SubAt(t, p).kids == []
    ensures CountAfter(t, p) == CountBefore(t, p) + |SubAt(t, p).kvs|
    ensures NodesAfter(t, p) == NodesBefore(t, p) + multiset{SubAt(t, p).node}
  {
    assert Bags([]) == multiset{};
  }

  /** The node to visit after a leaf. */
  method NextAfterLeaf(leaf: Node, pool: Pool, ghost t: Tree, ghost p: Path) returns (next: Option<Node>, ghost q: Path)
    requires pool.Valid() && Holds(pool.Mem(), t) && At(t, p, leaf) && SubAt(t, p).kids == []
    ensures next.Some? ==>
      At(t, q, next.value) && CountBefore(t, q) == CountAfter(t, p) && NodesBefore(t, q) == NodesAfter(t, p)
    ensures next.None? ==> CountAfter(t, p) == |Flat(t)| && NodesAfter(t, p) == Bag(t)
  {
    hide Holds, SubAt, ValidPath, CountAfter, NodesAfter, CountBefore, NodesBefore, Flat, Bag, Pool.Mem, Pool.Valid;
    var parent, i := Ascend(leaf, pool, t, p);
    if parent == null {
      VisitedAll(t, p);
      return None, p;
    }
    VisitedChild(t, p, parent, i);
    ParentInternal(t, p, parent, i);
    var kv;
    kv, q := InternalNextKv(Handle(parent, i), pool, t, p[..|p| - 1]);
    if kv.None? { return None, q; }
    VisitNext(t, q, kv.value.idx);
    var child := Descend(kv.value.node, kv.value.idx + 1, pool, t, q);
    next, q := Some(child), q + [kv.value.idx + 1];
  }

  lemma ParentInternal(t: Tree, p: Path, parent: Node, i: nat)
    requires Above(t, p, parent, i)
    ensures SubAt(t, p[..|p| - 1]).kids != []
  {
  }

  /** The lengths of the two parts of `total` pairs, counting only the lower of the two trees. */
  method CalcSplitLength(total: nat, a: Root, b: Root, pool: Pool, ghost t: Tree, ghost u: Tree)
    returns (lengthA: nat, lengthB: nat)
    requires pool.Valid() && Holds(pool.Mem(), t) && Holds(pool.Mem(), u) && t.node == a.node && u.node == b.node
    requires total == |Flat(t)| + |Flat(u)|
    ensures lengthA == |Flat(t)| && lengthB == |Flat(u)|
  {
    if a.height < b.height {
      var n, _ := CalcLength(a.node, pool, t);
      lengthA, lengthB := n, total - n;
    } else {
      var n, _ := CalcLength(b.node, pool, u);
      lengthA, lengthB := total - n, n;
    }
  }
}
