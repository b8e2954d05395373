/** The root of a tree, which grows and shrinks the tree by a level at a time. */
module Roots {
  import opened Nodes
  import opened Trees
  import opened Memory
  import Balance
  import Cells

  /** A new root above `t`, with no pairs. */
  ghost function Raised(n: Node, t: Tree): Tree { Tree(n, [], [t]) }

  lemma RaisedSame(n: Node, t: Tree)
    ensures Flat(Raised(n, t)) == Flat(t) && Bag(Raised(n, t)) == multiset{n} + Bag(t)
  {
    assert [t][1..] == [];
    BagsOne(t);
  }

  lemma RaisedHolds(m: Mem, m': Mem, n: Node, t: Tree, c: Cell, c': Cell)
    requires Holds(m, t) && n !in m
    requires c == Cell(null, c.parentIdx, [], [t.node])
    requires c' == m[t.node].(parent := n, parentIdx := 0)
    requires m' == Cells.Put2(m, n, c, t.node, c')
    ensures Becomes(m, m', t, Raised(n, t))
  {
    hide Once, Bags;
    RepIn(m, t);
    RaisedSame(n, t);
    assert t.node in Bag(t);
    OnceSplit(multiset{t.node}, Bags(t.kids), Bag(t));
    forall x | x in Bags(t.kids) ensures x in m && m'[x] == m[x] { assert x in Bag(t) && x !in multiset{t.node}; }
    RepFrame(m, m', t);
    OnceJoin(multiset{n}, Bag(t));
    assert KidNodes([t]) == [t.node];
  }

  lemma LoweredHolds(m: Mem, m': Mem, t: Tree)
    requires Holds(m, t) && |t.kids| == 1 && t.kids[0].node in m
    requires m' == m[t.kids[0].node := m[t.kids[0].node].(parent := null)] - {t.node}
    ensures Becomes(m, m', t, t.kids[0])
  {
    var k := t.kids[0];
    RepKid(m, t, 0);
    RepIn(m, t);
    BagsOne(k);
    assert t.kids == [k];
    assert Bag(t) == multiset{t.node} + Bag(k);
    OnceSplit(multiset{t.node}, Bag(k), Bag(t));
    OnceSplit(multiset{k.node}, Bags(k.kids), Bag(k));
    assert k.node in Bag(k) && t.node in multiset{t.node};
    forall x | x in Bag(k) ensures x in m && x in m' { assert x in Bag(t); }
    forall x | x in Bags(k.kids) ensures x in m' && m'[x] == m[x] { assert x in Bag(k) && x !in multiset{k.node}; }
    RepFrame(m, m', k);
  }

  lemma RootIn(m: Mem, t: Tree)
    requires Holds(m, t)
    ensures t.node in m
  {
  }

  lemma LoweredNodes(m: Mem, t: Tree)
    requires Holds(m, t) && |t.kids| == 1
    ensures Rep(m, t) && t.node in m && t.kids[0].node in m && t.node != t.kids[0].node
  {
    RepKid(m, t, 0);
    assert t.kids == [t.kids[0]];
    BagsOne(t.kids[0]);
    OnceSplit(multiset{t.node}, Bags(t.kids), Bag(t));
    assert t.kids[0].node in Bag(t.kids[0]);
  }

  method LinkTop(top: Node, node: Node, pool: Pool, ghost m: Mem, ghost t: Tree) returns (ghost t': Tree)
    requires pool.Valid() && Holds(m, t) && t.node == node && top !in m && node in m && top in pool.nodes
    requires var c := pool.Mem()[top]; c.parent == null && c.kvs == [] && c.edges == [node] && pool.Mem() == m[top := c]
    modifies pool.nodes
    ensures pool.Valid() && t' == Raised(top, t) && Becomes(m, pool.Mem(), t, t')
  {
    hide Holds, Becomes;
    ghost var m1 := pool.Mem();
    assert node in m1 && m1[node] == m[node];
    Balance.CorrectLink(top, 0, pool);
    t' := Raised(top, t);
    RaisedHolds(m, pool.Mem(), top, t, m1[top], pool.Mem()[node]);
  }

  method Raise(node: Node, pool: Pool, ghost t: Tree) returns (top: Node, ghost t': Tree)
    requires pool.Valid() && Holds(pool.Mem(), t) && t.node == node
    modifies pool, pool.nodes, pool.kvBuffers, pool.edgeBuffers
    ensures pool.Valid() && fresh(pool.Repr() - old(pool.Repr())) && fresh(top)
    ensures t' == Raised(top, t) && Becomes(old(pool.Mem()), pool.Mem(), t, t')
  {
    hide Holds, Becomes;
    ghost var m := pool.Mem();
    assert node in m by { RootIn(m, t); }
    top := pool.NewAbove(node);
    assert top in pool.Mem() && top !in m;
    t' := LinkTop(top, node, pool, m, t);
  }

  method Lower(top: Node, pool: Pool, ghost t: Tree) returns (child: Node)
    requires pool.Valid() && Holds(pool.Mem(), t) && t.node == top && |t.kids| == 1
    modifies pool, pool.nodes, pool.kvBuffers, pool.edgeBuffers
    ensures pool.Valid() && pool.Repr() <= old(pool.Repr())
    ensures child == t.kids[0].node && Becomes(old(pool.Mem()), pool.Mem(), t, t.kids[0])
  {
    hide Holds, Becomes, Rep;
    ghost var m := pool.Mem();
    assert Rep(m, t) && top in m && t.kids[0].node in m && top != t.kids[0].node by { LoweredNodes(m, t); }
    child := Balance.Descend(top, 0, pool, t);
    Cells.Unhang(child, top, pool);
    LoweredHolds(m, pool.Mem(), t);
  }

  class Root {
    var node: Node
    var height: nat

    /** An empty leaf. */
    constructor (pool: Pool)
      requires pool.Valid()
      modifies pool
      ensures pool.Valid() && fresh(pool.Repr() - old(pool.Repr())) && height == 0
      ensures Created(old(pool.Mem()), pool.Mem(), Tree(node, [], []))
    {
      var leaf := pool.NewLeaf();
      node, height := leaf, 0;
      assert Bag(Tree(leaf, [], [])) == multiset{leaf};
      assert KidNodes([]) == [];
    }

    /** Adds a new internal node with one edge, to the previous root. */
    method PushInternalLevel(pool: Pool, ghost t: Tree) returns (ghost t': Tree)
      requires pool.Valid() && Holds(pool.Mem(), t) && t.node == node
      modifies this, pool, pool.nodes, pool.kvBuffers, pool.edgeBuffers
      ensures pool.Valid() && fresh(pool.Repr() - old(pool.Repr())) && fresh(node)
      ensures t' == Raised(node, t) && height == old(height) + 1
      ensures Becomes(old(pool.Mem()), pool.Mem(), t, t')
    {
      hide Holds, Becomes, Pool.Mem, Pool.Valid;
      var top;
      top, t' := Raise(node, pool, t);
      node, height := top, height + 1;
    }

    /** Removes an internal root with a single edge, which leads to the new root. */
    method PopInternalLevel(pool: Pool, ghost t: Tree)
      requires pool.Valid() && Holds(pool.Mem(), t) && t.node == node && |t.kids| == 1 && height > 0
      modifies this, pool, pool.nodes, pool.kvBuffers, pool.edgeBuffers
      ensures pool.Valid() && pool.Repr() <= old(pool.Repr())
      ensures node == t.kids[0].node && height == old(height) - 1
      ensures Becomes(old(pool.Mem()), pool.Mem(), t, t.kids[0])
    {
      hide Holds, Becomes, Pool.Mem, Pool.Valid;
      var top := node;
      var child := Lower(top, pool, t);
      node, height := child, height - 1;
    }
  }
}
