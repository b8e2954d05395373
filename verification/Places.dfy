/** Steps from node to node of a tree in memory, and edits at a place of it. The tree and the place are ghosts:
    the code only sees nodes and indices. */
module Places {
  import opened Nodes
  import opened Trees
  import opened Memory
  import opened Edits
  import Balance
  import Cells

  /** The path `p` leads to `n`. */
  ghost predicate At(t: Tree, p: Path, n: Node) { ValidPath(t, p) && SubAt(t, p).node == n }

  lemma AtRoot(t: Tree)
    ensures At(t, [], t.node) && SubAt(t, []) == t && Before(t, []) == []
  {
  }

  lemma SubHeld(m: Mem, t: Tree, p: Path)
    requires Holds(m, t) && ValidPath(t, p)
    ensures Rep(m, SubAt(t, p)) && Once(Bag(SubAt(t, p)))
  {
    RepSub(m, t, p);
    BagAt(t, p);
    OnceSplit(Around(t, p), Bag(SubAt(t, p)), Bag(t));
  }

  lemma SubNode(m: Mem, t: Tree, p: Path)
    requires Holds(m, t) && ValidPath(t, p)
    ensures var s := SubAt(t, p);
      s.node in m && m[s.node].kvs == s.kvs && m[s.node].edges == KidNodes(s.kids) && Arity(s) && |s.kvs| <= CAPACITY
  {
    RepSub(m, t, p);
  }

  // ----- Steps

  method Len(node: Node, pool: Pool, ghost t: Tree, ghost p: Path) returns (len: nat)
    requires pool.Valid() && Holds(pool.Mem(), t) && At(t, p, node)
    ensures node in pool.nodes && len == node.len == |SubAt(t, p).kvs| <= CAPACITY
  {
    hide Holds;
    SubNode(pool.Mem(), t, p);
    assert pool.Mem()[node] == node.View();
    len := node.len;
  }

  method KvAt(node: Node, i: nat, pool: Pool, ghost t: Tree, ghost p: Path) returns (kv: KV)
    requires pool.Valid() && Holds(pool.Mem(), t) && At(t, p, node) && i < |SubAt(t, p).kvs|
    ensures kv == SubAt(t, p).kvs[i]
  {
    hide Holds;
    SubNode(pool.Mem(), t, p);
    assert pool.Mem()[node] == node.View();
    kv := node.kvs[i];
  }

  method IsLeaf(node: Node, pool: Pool, ghost t: Tree, ghost p: Path) returns (leaf: bool)
    requires pool.Valid() && Holds(pool.Mem(), t) && At(t, p, node)
    ensures leaf <==> SubAt(t, p).kids == []
  {
    hide Holds;
    SubNode(pool.Mem(), t, p);
    assert pool.Mem()[node] == node.View();
    leaf := node.edges.Length == 0;
  }

  /** The node an edge leads to. */
  method Descend(node: Node, i: nat, pool: Pool, ghost t: Tree, ghost p: Path) returns (child: Node)
    requires pool.Valid() && Holds(pool.Mem(), t) && At(t, p, node) && i < |SubAt(t, p).kids|
    ensures At(t, p + [i], child) && SubAt(t, p + [i]) == SubAt(t, p).kids[i]
  {
    hide Holds, Pool.Mem, Pool.Valid;
    SubNode(pool.Mem(), t, p);
    assert Rep(pool.Mem(), SubAt(t, p)) by { SubHeld(pool.Mem(), t, p); }
    child := Balance.Descend(node, i, pool, SubAt(t, p));
    Step(t, p, i);
  }

  /** Edge `i` of `parent` leads to the node at `p`. */
  ghost predicate Above(t: Tree, p: Path, parent: Node, i: nat) {
    && p != [] && i == p[|p| - 1] && p == p[..|p| - 1] + [i]
    && ValidPath(t, p) && At(t, p[..|p| - 1], parent)
    && var s := SubAt(t, p[..|p| - 1]);
    && |s.kids| == |s.kvs| + 1 && i < |s.kids| && s.kids[i] == SubAt(t, p)
  }

  method ChildLen(node: Node, i: nat, pool: Pool, ghost t: Tree, ghost p: Path) returns (len: nat)
    requires pool.Valid() && Holds(pool.Mem(), t) && At(t, p, node) && i < |SubAt(t, p).kids|
    ensures len == |SubAt(t, p).kids[i].kvs|
  {
    hide Holds, SubAt, ValidPath, Pool.Mem, Pool.Valid;
    var child := Descend(node, i, pool, t, p);
    len := Len(child, pool, t, p + [i]);
  }

  /** The node above and the edge of it that leads here; none above the root. */
  method Ascend(node: Node, pool: Pool, ghost t: Tree, ghost p: Path) returns (parent: Node?, i: nat)
    requires pool.Valid() && Holds(pool.Mem(), t) && At(t, p, node)
    ensures parent == null <==> p == []
    ensures parent != null ==> parent in pool.nodes && Above(t, p, parent, i)
  {
    ghost var m := pool.Mem();
    SubNode(m, t, p);
    assert m[node] == node.View();
    if p != [] {
      ParentAt(m, t, p);
      StepUp(t, p);
      SubNode(m, t, p[..|p| - 1]);
    }
    parent, i := node.parent, node.parentIdx;
  }

  /** Going up from a node below the root and down again leads back to it. */
  method UpAndDown(node: Node, pool: Pool, ghost t: Tree, ghost p: Path) returns (parent: Node, i: nat, again: Node)
    requires pool.Valid() && Holds(pool.Mem(), t) && At(t, p, node) && p != []
    ensures again == node && At(t, p[..|p| - 1], parent) && i == p[|p| - 1]
  {
    hide Holds, ValidPath, SubAt, Pool.Mem, Pool.Valid;
    var up;
    up, i := Ascend(node, pool, t, p);
    parent := up;
    again := Descend(parent, i, pool, t, p[..|p| - 1]);
  }

  /** Going down any edge and up again leads back to the node and the edge. */
  method DownAndUp(node: Node, i: nat, pool: Pool, ghost t: Tree, ghost p: Path)
    returns (child: Node, again: Node?, j: nat)
    requires pool.Valid() && Holds(pool.Mem(), t) && At(t, p, node) && i < |SubAt(t, p).kids|
    ensures again == node && j == i && child == SubAt(t, p).kids[i].node
  {
    hide Holds, ValidPath, SubAt, Pool.Mem, Pool.Valid;
    child := Descend(node, i, pool, t, p);
    again, j := Ascend(child, pool, t, p + [i]);
    assert (p + [i])[..|p|] == p;
  }

  // ----- Merging and stealing

  lemma EditSub(m: Mem, m': Mem, t: Tree, p: Path, s: Tree)
    requires Holds(m, t) && ValidPath(t, p) && Rep(m', s) && s.node == SubAt(t, p).node && SameLink(m, m', s.node)
    requires Within(m, m', Bag(SubAt(t, p))) && Bag(s) == Bag(SubAt(t, p)) && m'.Keys == m.Keys
    ensures Holds(m', SetAt(t, p, s)) && Edited(m, m', Bag(t), Bag(SetAt(t, p, s)))
  {
    SubHeld(m, t, p);
    RepIn(m, SubAt(t, p));
    EditAt(m, m', t, p, s);
  }

  lemma MergedEdit(m: Mem, m': Mem, s: Tree, i: nat)
    requires Rep(m, s) && Once(Bag(s)) && Pair(s, i) && Within(m, m', Bag(s))
    requires m'.Keys == m.Keys - {s.kids[i + 1].node}
    ensures Once(Bag(Merged(s, i))) && Edited(m, m', Bag(s), Bag(Merged(s, i)))
  {
    BagMerged(s, i);
    OnceSplit(Bag(Merged(s, i)), multiset{s.kids[i + 1].node}, Bag(s));
    RepIn(m, s);
    forall n | n in Bag(Merged(s, i)) ensures n in Bag(s) && n in m' { assert n !in multiset{s.kids[i + 1].node}; }
    forall n | n in Bag(s) && n in m' ensures n in Bag(Merged(s, i)) {}
  }

  method Merge(parent: Node, i: nat, pool: Pool, ghost t: Tree, ghost p: Path) returns (left: Node, ghost t': Tree)
    requires pool.Valid() && Holds(pool.Mem(), t) && At(t, p, parent) && Pair(SubAt(t, p), i)
    requires var s := SubAt(t, p); |s.kids[i].kvs| + 1 + |s.kids[i + 1].kvs| <= CAPACITY
    modifies pool, pool.nodes, pool.kvBuffers, pool.edgeBuffers
    ensures pool.Valid() && pool.Repr() <= old(pool.Repr())
    ensures t' == SetAt(t, p, Merged(SubAt(t, p), i)) && left == SubAt(t, p).kids[i].node
    ensures Becomes(old(pool.Mem()), pool.Mem(), t, t')
  {
    hide Rep, Bag, Bags, Once, Holds, Edited, Within, SameLink, Pool.Mem, Pool.Valid;
    ghost var m, s := pool.Mem(), SubAt(t, p);
    SubHeld(m, t, p);
    left := Balance.DoMerge(parent, i, pool, s);
    MergedEdit(m, pool.Mem(), s, i);
    EditAt(m, pool.Mem(), t, p, Merged(s, i));
    t' := SetAt(t, p, Merged(s, i));
  }

  /** Leaves the left child `n` pairs. */
  method StealLeftTo(parent: Node, i: nat, n: nat, pool: Pool, ghost t: Tree, ghost p: Path) returns (ghost t': Tree)
    requires pool.Valid() && Holds(pool.Mem(), t) && At(t, p, parent) && Pair(SubAt(t, p), i)
    requires var s := SubAt(t, p); n < |s.kids[i].kvs| && |s.kids[i].kvs| - n + |s.kids[i + 1].kvs| <= CAPACITY
    modifies pool.nodes, pool.kvBuffers, pool.edgeBuffers
    ensures pool.Valid() && t' == SetAt(t, p, StolenLeft(SubAt(t, p), i, n))
    ensures Becomes(old(pool.Mem()), pool.Mem(), t, t')
  {
    hide Rep, Bag, Bags, Once, Holds, Edited, Within, SameLink;
    ghost var m, s := pool.Mem(), SubAt(t, p);
    SubHeld(m, t, p);
    Balance.StealLeft(parent, i, n, pool, s);
    BagStolenLeft(s, i, n);
    EditSub(m, pool.Mem(), t, p, StolenLeft(s, i, n));
    t' := SetAt(t, p, StolenLeft(s, i, n));
  }

  method StealLeft(parent: Node, i: nat, count: nat, pool: Pool, ghost t: Tree, ghost p: Path)
    returns (ghost t': Tree, ghost n: nat)
    requires pool.Valid() && Holds(pool.Mem(), t) && At(t, p, parent) && Pair(SubAt(t, p), i)
    requires var s := SubAt(t, p); 0 < count <= |s.kids[i].kvs| && |s.kids[i + 1].kvs| + count <= CAPACITY
    modifies pool.nodes, pool.kvBuffers, pool.edgeBuffers
    ensures pool.Valid() && n + count == |SubAt(t, p).kids[i].kvs| && t' == SetAt(t, p, StolenLeft(SubAt(t, p), i, n))
    ensures Becomes(old(pool.Mem()), pool.Mem(), t, t')
  {
    hide Rep, Bag, Bags, Once, Holds, Edited, Within, SameLink, Pool.Mem, Pool.Valid;
    var left := Descend(parent, i, pool, t, p);
    var oldLeftLen := Len(left, pool, t, p + [i]);
    n := oldLeftLen - count;
    t' := StealLeftTo(parent, i, oldLeftLen - count, pool, t, p);
  }

  /** Takes the right child's pairs up to `n`. */
  method StealRightUpTo(parent: Node, i: nat, n: nat, pool: Pool, ghost t: Tree, ghost p: Path) returns (ghost t': Tree)
    requires pool.Valid() && Holds(pool.Mem(), t) && At(t, p, parent) && Pair(SubAt(t, p), i)
    requires var s := SubAt(t, p); n < |s.kids[i + 1].kvs| && |s.kids[i].kvs| + 1 + n <= CAPACITY
    modifies pool.nodes, pool.kvBuffers, pool.edgeBuffers
    ensures pool.Valid() && t' == SetAt(t, p, StolenRight(SubAt(t, p), i, n))
    ensures Becomes(old(pool.Mem()), pool.Mem(), t, t')
  {
    hide Rep, Bag, Bags, Once, Holds, Edited, Within, SameLink;
    ghost var m, s := pool.Mem(), SubAt(t, p);
    SubHeld(m, t, p);
    Balance.StealRight(parent, i, n, pool, s);
    BagStolenRight(s, i, n);
    EditSub(m, pool.Mem(), t, p, StolenRight(s, i, n));
    t' := SetAt(t, p, StolenRight(s, i, n));
  }

  method StealRight(parent: Node, i: nat, count: nat, pool: Pool, ghost t: Tree, ghost p: Path)
    returns (ghost t': Tree, ghost n: nat)
    requires pool.Valid() && Holds(pool.Mem(), t) && At(t, p, parent) && Pair(SubAt(t, p), i)
    requires var s := SubAt(t, p); 0 < count <= |s.kids[i + 1].kvs| && |s.kids[i].kvs| + count <= CAPACITY
    modifies pool.nodes, pool.kvBuffers, pool.edgeBuffers
    ensures pool.Valid() && n + 1 == count && t' == SetAt(t, p, StolenRight(SubAt(t, p), i, n))
    ensures Becomes(old(pool.Mem()), pool.Mem(), t, t')
  {
    hide Becomes, Holds, Pool.Mem, Pool.Valid;
    n := count - 1;
    t' := StealRightUpTo(parent, i, count - 1, pool, t, p);
  }

  // ----- Pairs of one node

  /** The tree with other pairs in the node at `p`. */
  ghost function SetKvs(t: Tree, p: Path, kvs: seq<KV>): Tree
    requires ValidPath(t, p)
  {
    SetAt(t, p, SubAt(t, p).(kvs := kvs))
  }

  lemma KvsEdit(m: Mem, m': Mem, t: Tree, p: Path, kvs: seq<KV>)
    requires Holds(m, t) && ValidPath(t, p) && SubAt(t, p).node in m
    requires var s := SubAt(t, p); m' == m[s.node := m[s.node].(kvs := kvs)]
    requires |kvs| <= CAPACITY && (SubAt(t, p).kids == [] || |kvs| == |SubAt(t, p).kvs|)
    ensures Becomes(m, m', t, SetKvs(t, p, kvs))
  {
    var s := SubAt(t, p);
    SubHeld(m, t, p);
    OnceSplit(multiset{s.node}, Bags(s.kids), Bag(s));
    RepIn(m, s);
    assert s.node in Bag(s);
    forall n | n in Bags(s.kids) ensures n in m && n in m' && m'[n] == m[n] {
      assert n in Bag(s) && n !in multiset{s.node};
    }
    KvsRep(m, m', s, kvs);
    EditSub(m, m', t, p, s.(kvs := kvs));
  }

  lemma KvsRep(m: Mem, m': Mem, s: Tree, kvs: seq<KV>)
    requires Rep(m, s) && SameOn(m, m', Bags(s.kids))
    requires m' == m[s.node := m[s.node].(kvs := kvs)]
    requires |kvs| <= CAPACITY && (s.kids == [] || |kvs| == |s.kvs|)
    ensures Rep(m', s.(kvs := kvs))
  {
    BagsAll(s.kids);
    forall i | 0 <= i < |s.kids| ensures Rep(m', s.kids[i]) && LinkedTo(m', s.kids[i].node, s.node, i) {
      var k := s.kids[i];
      assert k.node in Bag(k) && Bag(k) <= Bags(s.kids);
      forall n | n in Bags(k.kids) ensures n in Bags(s.kids) { assert n in Bag(k); }
      RepFrame(m, m', k);
    }
  }

  /** The pairs with one more, at index `i`; or without the one there. */
  ghost function Put(kvs: seq<KV>, i: nat, kv: KV): seq<KV>
    requires i <= |kvs|
  {
    kvs[..i] + [kv] + kvs[i..]
  }

  ghost function Take(kvs: seq<KV>, i: nat): seq<KV>
    requires i < |kvs|
  {
    kvs[..i] + kvs[i + 1..]
  }

  /** A pair put in is at its index, with the others around it in order; taken out again, all is as before. */
  lemma PutThenTake(kvs: seq<KV>, i: nat, kv: KV, j: nat)
    requires i <= |kvs| && j <= |kvs|
    ensures |Put(kvs, i, kv)| == |kvs| + 1
    ensures Put(kvs, i, kv)[j] == if j < i then kvs[j] else if j == i then kv else kvs[j - 1]
    ensures Take(Put(kvs, i, kv), i) == kvs
  {
  }

  lemma TakeThenPut(kvs: seq<KV>, i: nat, j: nat)
    requires i < |kvs| && j < |kvs| - 1
    ensures |Take(kvs, i)| == |kvs| - 1 && Take(kvs, i)[j] == kvs[if j < i then j else j + 1]
    ensures Put(Take(kvs, i), i, kvs[i]) == kvs
  {
    assert Take(kvs, i)[..i] == kvs[..i] && Take(kvs, i)[i..] == kvs[i + 1..];
  }

  method InsertInLeaf(leaf: Node, i: nat, kv: KV, pool: Pool, ghost t: Tree, ghost p: Path) returns (ghost t': Tree)
    requires pool.Valid() && Holds(pool.Mem(), t) && At(t, p, leaf) && SubAt(t, p).kids == []
    requires i <= |SubAt(t, p).kvs| < CAPACITY
    modifies pool.nodes, pool.kvBuffers, pool.edgeBuffers
    ensures pool.Valid() && t' == SetKvs(t, p, Put(SubAt(t, p).kvs, i, kv))
    ensures Becomes(old(pool.Mem()), pool.Mem(), t, t')
  {
    hide Holds, Becomes, SubAt, ValidPath;
    ghost var m := pool.Mem();
    SubNode(m, t, p);
    Cells.InsertFit(leaf, i, kv, pool);
    t' := SetKvs(t, p, Put(SubAt(t, p).kvs, i, kv));
    KvsEdit(m, pool.Mem(), t, p, Put(SubAt(t, p).kvs, i, kv));
  }

  method RemoveFromLeaf(leaf: Node, i: nat, pool: Pool, ghost t: Tree, ghost p: Path) returns (kv: KV, ghost t': Tree)
    requires pool.Valid() && Holds(pool.Mem(), t) && At(t, p, leaf) && SubAt(t, p).kids == []
    requires i < |SubAt(t, p).kvs|
    modifies pool.nodes, pool.kvBuffers, pool.edgeBuffers
    ensures pool.Valid() && kv == SubAt(t, p).kvs[i]
    ensures t' == SetKvs(t, p, Take(SubAt(t, p).kvs, i)) && Becomes(old(pool.Mem()), pool.Mem(), t, t')
  {
    hide Holds, Becomes, SubAt, ValidPath;
    ghost var m := pool.Mem();
    SubNode(m, t, p);
    kv := Cells.RemoveKv(leaf, i, pool);
    t' := SetKvs(t, p, Take(SubAt(t, p).kvs, i));
    KvsEdit(m, pool.Mem(), t, p, Take(SubAt(t, p).kvs, i));
  }

  method ReplaceKv(node: Node, i: nat, kv: KV, pool: Pool, ghost t: Tree, ghost p: Path)
    returns (oldKv: KV, ghost t': Tree)
    requires pool.Valid() && Holds(pool.Mem(), t) && At(t, p, node) && i < |SubAt(t, p).kvs|
    modifies pool.nodes, pool.kvBuffers, pool.edgeBuffers
    ensures pool.Valid() && oldKv == SubAt(t, p).kvs[i]
    ensures t' == SetKvs(t, p, SubAt(t, p).kvs[i := kv]) && Becomes(old(pool.Mem()), pool.Mem(), t, t')
  {
    hide Holds, Becomes, SubAt, ValidPath;
    ghost var m := pool.Mem();
    SubNode(m, t, p);
    oldKv := Cells.ReplaceKv(node, i, kv, pool);
    t' := SetKvs(t, p, SubAt(t, p).kvs[i := kv]);
    KvsEdit(m, pool.Mem(), t, p, SubAt(t, p).kvs[i := kv]);
  }
}
