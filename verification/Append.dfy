/** Building a tree from the merge of two owning iterators, whose nodes are released meanwhile. */
module Append {
  import opened Nodes
  import opened Options
  import opened Trees
  import opened Memory
  import opened Shapes
  import opened Places
  import opened Roots
  import opened IntoIters
  import opened MergeIters
  import opened BulkPush

  /** From `m0` to `m`, the tree `t0` gave way to `t`, and of the nodes `o0` no more than `o` are left. */
  ghost predicate Blend(m0: Mem, m: Mem, t0: Tree, o0: multiset<Node>, t: Tree, o: multiset<Node>) {
    && Holds(m, t) && Within(m0, m, Bag(t0) + o0) && Apart(Bag(t), o0) && o <= o0
    && (forall n :: n in Bag(t) ==> n in Bag(t0) || n !in m0)
    && (forall n :: n in m ==> n in Bag(t) || n in o || (n in m0 && n !in Bag(t0) && n !in o0))
  }

  lemma BlendStart(m: Mem, t: Tree, o: multiset<Node>)
    requires Holds(m, t) && Apart(Bag(t), o)
    ensures Blend(m, m, t, o, t, o)
  {
  }

  lemma BlendDrained(m0: Mem, m: Mem, m': Mem, t0: Tree, o0: multiset<Node>, t: Tree, o: multiset<Node>,
                     o': multiset<Node>)
    requires Blend(m0, m, t0, o0, t, o) && Drained(m, m', o, o')
    ensures Blend(m0, m', t0, o0, t, o')
  {
    RepInTree(m, t);
    HoldsKept(m, m', t);
  }

  lemma RepInTree(m: Mem, t: Tree)
    requires Holds(m, t)
    ensures forall n :: n in Bag(t) ==> n in m
  {
    RepIn(m, t);
  }

  lemma BlendPushed(m0: Mem, m: Mem, m': Mem, t0: Tree, o0: multiset<Node>, t: Tree, o: multiset<Node>, t': Tree)
    requires Blend(m0, m, t0, o0, t, o) && Becomes(m, m', t, t')
    requires forall n :: n in o0 && n !in m ==> n !in m'
    ensures Blend(m0, m', t0, o0, t', o)
    ensures forall n :: n in o0 ==> (n in m <==> n in m') && (n in m ==> m'[n] == m[n])
  {
    forall n | n in Bag(t') ensures n !in o0 && (n in Bag(t0) || n !in m0) {}
  }

  lemma BlendEnd(m0: Mem, m: Mem, t0: Tree, o0: multiset<Node>, t: Tree)
    requires Blend(m0, m, t0, o0, t, multiset{})
    ensures Holds(m, t) && Edited(m0, m, Bag(t0) + o0, Bag(t))
  {
    RepInTree(m, t);
  }

  /** Pushes one pair; no node of `o` comes back to life. */
  method PushBeside(cur: Node, kv: KV, root: Root, pool: Pool, ghost t: Tree, ghost p: Path, ghost o: multiset<Node>,
                    ghost fill: Fill)
    returns (next: Node, ghost t': Tree, ghost p': Path)
    requires pool.Valid() && Holds(pool.Mem(), t) && t.node == root.node && AtEnd(t, root.height, p, cur, fill)
    modifies root, pool, pool.nodes, pool.kvBuffers, pool.edgeBuffers
    ensures pool.Valid() && fresh(pool.Repr() - old(pool.Repr())) && Becomes(old(pool.Mem()), pool.Mem(), t, t')
    ensures t'.node == root.node && AtEnd(t', root.height, p', next, fill) && Flat(t') == Flat(t) + [kv]
    ensures forall n :: n in o && n !in old(pool.Mem()) ==> n !in pool.Mem()
  {
    hide Holds, Becomes, AtEnd, Flat;
    ghost var m := pool.Mem();
    BecomesNothing(m, t);
    next, t', p' := PushLast(cur, kv, root, pool, m, t, t, p, fill);
  }

  lemma MergeSpared(iter: MergeIter, m: Mem, m': Mem)
    requires iter.In(m)
    requires forall n :: n in iter.Owned() ==> (n in m <==> n in m') && (n in m ==> m'[n] == m[n])
    ensures iter.In(m') && iter.RestOfA(m') == iter.RestOfA(m) && iter.RestOfB(m') == iter.RestOfB(m)
  {
    hide Walking;
    InSpared(iter.a, m, m');
    InSpared(iter.b, m, m');
  }

  /** The merge still has the pairs `u` to hand out, and the tree `t` has grown out of `t0`. */
  ghost predicate Appending(iter: MergeIter, m: Mem, cmp: Order, u: seq<KV>, m0: Mem, t0: Tree, o0: multiset<Node>,
                            t: Tree)
    reads iter, iter.a, iter.b
  {
    && iter.In(m) && u == Union(iter.RestOfA(m), iter.RestOfB(m), cmp)
    && Blend(m0, m, t0, o0, t, iter.Owned())
  }

  method NextMerged(iter: MergeIter, cmp: Order, pool: Pool, ghost u: seq<KV>, ghost m0: Mem, ghost t0: Tree,
                    ghost o0: multiset<Node>,
                    ghost t: Tree)
    returns (kv: Option<KV>)
    requires pool.Valid() && Appending(iter, pool.Mem(), cmp, u, m0, t0, o0, t)
    modifies iter, iter.a, iter.b, pool
    ensures pool.Valid() && pool.Repr() <= old(pool.Repr())
    ensures Appending(iter, pool.Mem(), cmp, Rest(u), m0, t0, o0, t) && kv == Head(u)
    ensures kv.None? ==> Holds(pool.Mem(), t) && Edited(m0, pool.Mem(), Bag(t0) + o0, Bag(t))
  {
    hide Holds, Blend, Walking, Drained, Union, Edited, Pool.Mem, Pool.Valid;
    ghost var m, o := pool.Mem(), iter.Owned();
    kv := iter.Next(cmp, pool);
    BlendDrained(m0, m, pool.Mem(), t0, o0, t, o, iter.Owned());
    if kv.None? { BlendEnd(m0, pool.Mem(), t0, o0, t); }
  }

  lemma AppendingParts(iter: MergeIter, m: Mem, cmp: Order, u: seq<KV>, m0: Mem, t0: Tree, o0: multiset<Node>, t: Tree)
    requires Appending(iter, m, cmp, u, m0, t0, o0, t)
    ensures Holds(m, t)
  {
  }

  lemma AppendingPushed(iter: MergeIter, m: Mem, m': Mem, cmp: Order, u: seq<KV>, m0: Mem, t0: Tree, o0: multiset<Node>,
                        t: Tree, t': Tree)
    requires Appending(iter, m, cmp, u, m0, t0, o0, t) && Becomes(m, m', t, t')
    requires forall n :: n in o0 && n !in m ==> n !in m'
    ensures Appending(iter, m', cmp, u, m0, t0, o0, t')
  {
    hide Holds, Becomes, Walking, Union;
    BlendPushed(m0, m, m', t0, o0, t, iter.Owned(), t');
    MergeSpared(iter, m, m');
  }

  method PushMerged(cur: Node, kv: KV, root: Root, iter: MergeIter, pool: Pool, ghost cmp: Order, ghost u: seq<KV>,
                    ghost m0: Mem, ghost t0: Tree, ghost o0: multiset<Node>, ghost t: Tree, ghost p: Path,
                    ghost fill: Fill)
    returns (next: Node, ghost t': Tree, ghost p': Path)
    requires pool.Valid() && Appending(iter, pool.Mem(), cmp, u, m0, t0, o0, t)
    requires t.node == root.node && AtEnd(t, root.height, p, cur, fill)
    modifies root, pool, pool.nodes, pool.kvBuffers, pool.edgeBuffers
    ensures pool.Valid() && fresh(pool.Repr() - old(pool.Repr())) && Appending(iter, pool.Mem(), cmp, u, m0, t0, o0, t')
    ensures t'.node == root.node && AtEnd(t', root.height, p', next, fill) && Flat(t') == Flat(t) + [kv]
  {
    hide Holds, Becomes, AtEnd, Flat, Appending, Pool.Mem, Pool.Valid;
    ghost var m := pool.Mem();
    AppendingParts(iter, m, cmp, u, m0, t0, o0, t);
    next, t', p' := PushBeside(cur, kv, root, pool, t, p, o0, fill);
    AppendingPushed(iter, m, pool.Mem(), cmp, u, m0, t0, o0, t, t');
  }

  lemma AppendingStart(iter: MergeIter, m: Mem, cmp: Order, t: Tree)
    requires iter.In(m) && Holds(m, t) && Apart(Bag(t), iter.Owned())
    ensures Appending(iter, m, cmp, Union(iter.RestOfA(m), iter.RestOfB(m), cmp), m, t, iter.Owned(), t)
  {
    BlendStart(m, t, iter.Owned());
  }

  lemma MovedOver(f: seq<KV>, u: seq<KV>, g: seq<KV>)
    requires u != [] && f + u == g
    ensures f + [u[0]] + u[1..] == g && Rest(u) == u[1..] && Head(u) == Some(u[0])
  {
    assert u == [u[0]] + u[1..];
  }

  /** Pushes all pairs of the merge at the end of the tree, and counts them. */
  method PushAll(root: Root, iter: MergeIter, cmp: Order, length: nat, cur: Node, pool: Pool, ghost t0: Tree,
                 ghost p: Path, ghost fill: Fill)
    returns (length': nat, ghost t: Tree)
    requires pool.Valid() && Holds(pool.Mem(), t0) && t0.node == root.node && AtEnd(t0, root.height, p, cur, fill)
    requires iter.In(pool.Mem()) && Apart(Bag(t0), iter.Owned())
    modifies root, iter, iter.a, iter.b, pool, pool.nodes, pool.kvBuffers, pool.edgeBuffers
    ensures pool.Valid() && fresh(pool.Repr() - old(pool.Repr()))
    ensures t.node == root.node && Pushable(t, root.height, fill)
    ensures Holds(pool.Mem(), t) && Edited(old(pool.Mem()), pool.Mem(), Bag(t0) + old(iter.Owned()), Bag(t))
    ensures var u := old(Union(iter.RestOfA(pool.Mem()), iter.RestOfB(pool.Mem()), cmp));
      Flat(t) == Flat(t0) + u && length' == length + |u|
  {
    hide Holds, Blend, AtEnd, Flat, Walking, Union, Pushable, Edited, Appending, Apart, Pool.Mem, Pool.Valid;
    ghost var m0, o0 := pool.Mem(), iter.Owned();
    ghost var u0 := Union(iter.RestOfA(m0), iter.RestOfB(m0), cmp);
    AppendingStart(iter, m0, cmp, t0);
    length', t := PushRest(root, iter, cmp, length, cur, pool, u0, m0, t0, o0, t0, p, fill);
  }

  method PushRest(root: Root, iter: MergeIter, cmp: Order, length: nat, cur: Node, pool: Pool, ghost u0: seq<KV>,
                  ghost m0: Mem, ghost t0: Tree, ghost o0: multiset<Node>, ghost t1: Tree, ghost p: Path,
                  ghost fill: Fill)
    returns (length': nat, ghost t: Tree)
    requires pool.Valid() && Appending(iter, pool.Mem(), cmp, u0, m0, t0, o0, t1)
    requires t1.node == root.node && AtEnd(t1, root.height, p, cur, fill)
    modifies root, iter, iter.a, iter.b, pool, pool.nodes, pool.kvBuffers, pool.edgeBuffers
    ensures pool.Valid() && fresh(pool.Repr() - old(pool.Repr()))
    ensures t.node == root.node && Pushable(t, root.height, fill)
    ensures Holds(pool.Mem(), t) && Edited(m0, pool.Mem(), Bag(t0) + o0, Bag(t))
    ensures Flat(t) == Flat(t1) + u0 && length' == length + |u0|
  {
    hide Holds, AtEnd, Flat, Pushable, Edited, Appending, Head, Rest, Bag, Pool.Mem, Pool.Valid;
    hide MergeIter.In, MergeIter.Owned, MergeIter.RestOfA, MergeIter.RestOfB;
    var node := cur;
    ghost var q, u := p, u0;
    t, length' := t1, length;
    var over := false;
    while !over
      invariant pool.Valid() && fresh(pool.Repr() - old(pool.Repr())) && t.node == root.node
      invariant !over ==> Appending(iter, pool.Mem(), cmp, u, m0, t0, o0, t) && AtEnd(t, root.height, q, node, fill)
      invariant over ==> u == [] && Pushable(t, root.height, fill)
      invariant over ==> Holds(pool.Mem(), t) && Edited(m0, pool.Mem(), Bag(t0) + o0, Bag(t))
      invariant Flat(t) + u == Flat(t1) + u0 && length' + |u| == length + |u0|
      decreases !over, |u|
    {
      over, node, t, q, u := PushNext(node, root, iter, cmp, pool, u, m0, t0, o0, t, q, fill);
      length' := length' + if over then 0 else 1;
    }
  }

  /** Pushes the next pair of the merge, if there is one. */
  method PushNext(cur: Node, root: Root, iter: MergeIter, cmp: Order, pool: Pool, ghost u: seq<KV>, ghost m0: Mem,
                  ghost t0: Tree,
                  ghost o0: multiset<Node>, ghost t: Tree, ghost p: Path, ghost fill: Fill)
    returns (over: bool, next: Node, ghost t': Tree, ghost p': Path, ghost u': seq<KV>)
    requires pool.Valid() && Appending(iter, pool.Mem(), cmp, u, m0, t0, o0, t)
    requires t.node == root.node && AtEnd(t, root.height, p, cur, fill)
    modifies root, iter, iter.a, iter.b, pool, pool.nodes, pool.kvBuffers, pool.edgeBuffers
    ensures pool.Valid() && fresh(pool.Repr() - old(pool.Repr())) && t'.node == root.node
    ensures over ==> u == [] && u' == u && t' == t && Pushable(t, root.height, fill)
    ensures over ==> Holds(pool.Mem(), t) && Edited(m0, pool.Mem(), Bag(t0) + o0, Bag(t))
    ensures !over ==> Appending(iter, pool.Mem(), cmp, u', m0, t0, o0, t') && AtEnd(t', root.height, p', next, fill)
    ensures !over ==> Flat(t') + u' == Flat(t) + u && |u'| + 1 == |u|
  {
    hide Holds, AtEnd, Flat, Pushable, Edited, Appending, Head, Rest, Bag, Pool.Mem, Pool.Valid;
    hide MergeIter.In, MergeIter.Owned, MergeIter.RestOfA, MergeIter.RestOfB;
    var kv := NextMerged(iter, cmp, pool, u, m0, t0, o0, t);
    HeadOf(u, kv);
    over, next, t', p', u' := kv.None?, cur, t, p, u;
    if over {
      AtEndPushable(t, root.height, p, cur, fill);
    } else {
      MovedOver(Flat(t), u, Flat(t) + u);
      next, t', p' := PushMerged(cur, kv.value, root, iter, pool, cmp, u[1..], m0, t0, o0, t, p, fill);
      u' := u[1..];
    }
  }

  lemma HeadOf(u: seq<KV>, kv: Option<KV>)
    requires kv == Head(u)
    ensures kv.None? <==> u == []
    ensures kv.Some? ==> u != [] && kv.value == u[0]
  {
  }

  lemma AtEndPushable(t: Tree, h: nat, p: Path, leaf: Node, fill: Fill)
    requires AtEnd(t, h, p, leaf, fill)
    ensures Pushable(t, h, fill)
  {
  }

  /** Pushes all pairs of the merge at the end of the tree and then stocks up its right border. */
  method AppendFromSortedIters(root: Root, iter: MergeIter, cmp: Order, length: nat, pool: Pool, ghost t0: Tree,
                               ghost fill: Fill)
    returns (length': nat, ghost t: Tree)
    requires pool.Valid() && Holds(pool.Mem(), t0) && t0.node == root.node && Pushable(t0, root.height, fill)
    requires iter.In(pool.Mem()) && Apart(Bag(t0), iter.Owned())
    modifies root, iter, iter.a, iter.b, pool, pool.nodes, pool.kvBuffers, pool.edgeBuffers
    ensures pool.Valid() && fresh(pool.Repr() - old(pool.Repr()))
    ensures t.node == root.node && Balanced(t, root.height)
    ensures Holds(pool.Mem(), t) && Edited(old(pool.Mem()), pool.Mem(), Bag(t0) + old(iter.Owned()), Bag(t))
    ensures var u := old(Union(iter.RestOfA(pool.Mem()), iter.RestOfB(pool.Mem()), cmp));
      Flat(t) == Flat(t0) + u && length' == length + |u|
  {
    hide Holds, AtEnd, Flat, Bag, Union, Pushable, Edited, Apart, Becomes, Balanced, Along, Pool.Mem, Pool.Valid;
    hide MergeIter.In, MergeIter.Owned, MergeIter.RestOfA, MergeIter.RestOfB;
    var cur; ghost var p;
    cur, p := EndOf(root, pool, t0, fill);
    ghost var m0, was := pool.Mem(), Bag(t0) + iter.Owned();
    ghost var t1;
    length', t1 := PushAll(root, iter, cmp, length, cur, pool, t0, p, fill);
    t := StockUp(root, pool, m0, was, t1, fill);
  }

  /** The last leaf of the tree. */
  method EndOf(root: Root, pool: Pool, ghost t: Tree, ghost fill: Fill) returns (cur: Node, ghost p: Path)
    requires pool.Valid() && Holds(pool.Mem(), t) && t.node == root.node && Pushable(t, root.height, fill)
    ensures AtEnd(t, root.height, p, cur, fill)
  {
    hide Holds, AtEnd, Pushable, Becomes, Along, Pool.Mem, Pool.Valid;
    BecomesNothing(pool.Mem(), t);
    AlongRoot(t, root.height, fill);
    cur, p := LastLeaf(root.node, pool, pool.Mem(), t, t, root.height, [], fill);
  }

  lemma AlongRoot(t: Tree, h: nat, fill: Fill)
    ensures Along(t, h, [], fill) && At(t, [], t.node)
  {
  }

  method StockUp(root: Root, pool: Pool, ghost m0: Mem, ghost was: multiset<Node>, ghost t: Tree, ghost fill: Fill)
    returns (ghost t': Tree)
    requires pool.Valid() && Holds(pool.Mem(), t) && Edited(m0, pool.Mem(), was, Bag(t))
    requires t.node == root.node && Pushable(t, root.height, fill)
    modifies pool.nodes, pool.kvBuffers, pool.edgeBuffers
    ensures pool.Valid() && t'.node == root.node && Balanced(t', root.height) && Flat(t') == Flat(t)
    ensures Holds(pool.Mem(), t') && Edited(m0, pool.Mem(), was, Bag(t'))
  {
    hide Holds, Flat, Pushable, Edited, Balanced, Pool.Mem, Pool.Valid;
    ghost var m := pool.Mem();
    BecomesNothing(m, t);
    t' := FixRightBorderOfPlentiful(root, pool, m, t, t, fill);
    EditedTrans(m0, m, pool.Mem(), was, Bag(t), Bag(t'));
  }
}
