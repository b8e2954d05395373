/** The edits of nodes as functions on trees: cutting a node, joining two nodes, and regrouping two
    neighbouring children. Each keeps the pairs, the order of the leaves and the nodes in use. */
module Edits {
  import opened Nodes
  import opened Trees

  ghost predicate Arity(t: Tree) { t.kids == [] || |t.kids| == |t.kvs| + 1 }

  ghost predicate SameKind(a: Tree, b: Tree) { Arity(a) && Arity(b) && (a.kids == [] <==> b.kids == []) }

  /** The first `n` pairs of a node, with the edges around them. */
  ghost function Head(t: Tree, n: nat): Tree
    requires Arity(t) && n <= |t.kvs|
  {
    Tree(t.node, t.kvs[..n], if t.kids == [] then [] else t.kids[..n + 1])
  }

  /** The pairs of a node from `n` on, with the edges around them, as the node `node`. */
  ghost function Tail(node: Node, t: Tree, n: nat): Tree
    requires Arity(t) && n <= |t.kvs|
  {
    Tree(node, t.kvs[n..], if t.kids == [] then [] else t.kids[n..])
  }

  ghost function Join(node: Node, l: Tree, kv: KV, r: Tree): Tree {
    Tree(node, l.kvs + [kv] + r.kvs, l.kids + r.kids)
  }

  lemma FlatJoin(node: Node, l: Tree, kv: KV, r: Tree)
    requires SameKind(l, r)
    ensures Flat(Join(node, l, kv, r)) == Flat(l) + [kv] + Flat(r)
  {
    if l.kids != [] { WeaveJoin(l.kids, l.kvs, kv, r.kids, r.kvs); }
  }

  lemma JoinAssoc(node: Node, n0: Node, n1: Node, a: Tree, u: KV, b: Tree, v: KV, c: Tree)
    ensures Join(node, Join(n0, a, u, b), v, c) == Join(node, a, u, Join(n1, b, v, c))
  {
  }

  lemma JoinCut(t: Tree, i: nat, node: Node)
    requires Arity(t) && i < |t.kvs|
    ensures SameKind(Head(t, i), Tail(node, t, i + 1))
    ensures t == Join(t.node, Head(t, i), t.kvs[i], Tail(node, t, i + 1))
  {
  }

  lemma FlatCut(t: Tree, i: nat, node: Node)
    requires Arity(t) && i < |t.kvs|
    ensures Flat(t) == Flat(Head(t, i)) + [t.kvs[i]] + Flat(Tail(node, t, i + 1))
  {
    JoinCut(t, i, node);
    FlatJoin(t.node, Head(t, i), t.kvs[i], Tail(node, t, i + 1));
  }

  // ----- Two neighbouring children

  ghost predicate Pair(s: Tree, i: nat) {
    |s.kids| == |s.kvs| + 1 && i < |s.kvs| && SameKind(s.kids[i], s.kids[i + 1])
  }

  /** The children around pair `i` and that pair, replaced. */
  ghost function Regroup(s: Tree, i: nat, l: Tree, kv: KV, r: Tree): Tree
    requires Pair(s, i)
  {
    Tree(s.node, s.kvs[i := kv], s.kids[i := l][i + 1 := r])
  }

  /** The children around pair `i` and that pair, made into one child. */
  ghost function Contract(s: Tree, i: nat, k: Tree): Tree
    requires Pair(s, i)
  {
    Tree(s.node, s.kvs[..i] + s.kvs[i + 1..], s.kids[..i] + [k] + s.kids[i + 2..])
  }

  ghost function Merged(s: Tree, i: nat): Tree
    requires Pair(s, i)
  {
    var (l, r) := (s.kids[i], s.kids[i + 1]);
    Contract(s, i, Join(l.node, l, s.kvs[i], r))
  }

  /** The pairs of the left child from `n` on moved to the right child, pair `n` through the parent. */
  ghost function StolenLeft(s: Tree, i: nat, n: nat): Tree
    requires Pair(s, i) && n < |s.kids[i].kvs|
  {
    var (l, r) := (s.kids[i], s.kids[i + 1]);
    Regroup(s, i, Head(l, n), l.kvs[n], Join(r.node, Tail(r.node, l, n + 1), s.kvs[i], r))
  }

  /** The pairs of the right child up to `n` moved to the left child, pair `n` through the parent. */
  ghost function StolenRight(s: Tree, i: nat, n: nat): Tree
    requires Pair(s, i) && n < |s.kids[i + 1].kvs|
  {
    var (l, r) := (s.kids[i], s.kids[i + 1]);
    Regroup(s, i, Join(l.node, l, s.kvs[i], Head(r, n)), r.kvs[n], Tail(r.node, r, n + 1))
  }

  /** A cut leaves what is before the pair in one part and what is behind it in the other. */
  lemma CutSizes(t: Tree, i: nat, node: Node)
    requires Arity(t) && i < |t.kvs|
    ensures Head(t, i).node == t.node && |Head(t, i).kvs| == i
    ensures Tail(node, t, i + 1).node == node && |Tail(node, t, i + 1).kvs| == |t.kvs| - i - 1
    ensures t.kids != [] ==> |Head(t, i).kids| == i + 1 && |Tail(node, t, i + 1).kids| == |t.kvs| - i
  {
  }

  /** Merging leaves one pair and one child less, and no other child is touched. */
  lemma MergedSizes(s: Tree, i: nat, j: nat)
    requires Pair(s, i) && j < |s.kids| - 1
    ensures var s' := Merged(s, i);
      && s'.node == s.node && |s'.kvs| + 1 == |s.kvs| && |s'.kids| + 1 == |s.kids|
      && s'.kids[i].node == s.kids[i].node && |s'.kids[i].kvs| == |s.kids[i].kvs| + 1 + |s.kids[i + 1].kvs|
      && (j != i ==> s'.kids[j] == s.kids[if j < i then j else j + 1])
  {
  }

  /** How many pairs the two children and their parent have after stealing, and that no other child is touched. */
  lemma StolenLeftSizes(s: Tree, i: nat, n: nat, j: nat)
    requires Pair(s, i) && n < |s.kids[i].kvs| && j < |s.kids|
    ensures var s' := StolenLeft(s, i, n);
      && s'.node == s.node && |s'.kvs| == |s.kvs| && |s'.kids| == |s.kids| && s'.kids[j].node == s.kids[j].node
      && |s'.kids[i].kvs| == n && |s'.kids[i + 1].kvs| == |s.kids[i + 1].kvs| + (|s.kids[i].kvs| - n)
      && (j != i && j != i + 1 ==> s'.kids[j] == s.kids[j])
  {
  }

  lemma StolenRightSizes(s: Tree, i: nat, n: nat, j: nat)
    requires Pair(s, i) && n < |s.kids[i + 1].kvs| && j < |s.kids|
    ensures var s' := StolenRight(s, i, n);
      && s'.node == s.node && |s'.kvs| == |s.kvs| && |s'.kids| == |s.kids| && s'.kids[j].node == s.kids[j].node
      && |s'.kids[i].kvs| == |s.kids[i].kvs| + n + 1 && |s'.kids[i + 1].kvs| == |s.kids[i + 1].kvs| - n - 1
      && (j != i && j != i + 1 ==> s'.kids[j] == s.kids[j])
  {
  }

  lemma RightSuffix(kids: seq<Tree>, kvs: seq<KV>, i: nat, kids': seq<Tree>, kvs': seq<KV>, i': nat)
    requires |kids| == |kvs| + 1 && |kids'| == |kvs'| + 1 && i < |kids| && i' < |kids'|
    requires kids[i + 1..] == kids'[i' + 1..] && kvs[i..] == kvs'[i'..]
    ensures Right(kids, kvs, i) == Right(kids', kvs', i')
  {
    if i < |kvs| {
      assert kvs[i] == kvs[i..][0] == kvs'[i'];
      assert kvs[i + 1..] == kvs[i..][1..] == kvs'[i' + 1..];
    }
  }

  lemma FlatPair(s: Tree, i: nat)
    requires |s.kids| == |s.kvs| + 1 && i < |s.kvs|
    ensures Flat(s) == Left(s.kids, s.kvs, i) + Flat(s.kids[i]) + [s.kvs[i]] + Flat(s.kids[i + 1])
      + Right(s.kids, s.kvs, i + 1)
  {
    WeaveAt(s.kids, s.kvs, i);
    var kids, kvs := s.kids[i + 1..], s.kvs[i + 1..];
    WeaveAt(kids, kvs, 0);
    assert Left(kids, kvs, 0) == [];
    if i + 1 < |s.kvs| {
      assert kids[1..] == s.kids[i + 2..] && kvs[1..] == s.kvs[i + 2..];
    }
  }

  lemma FlatAsJoin(s: Tree, i: nat, node: Node)
    requires Pair(s, i)
    ensures Flat(s) == Left(s.kids, s.kvs, i) + Flat(Join(node, s.kids[i], s.kvs[i], s.kids[i + 1]))
      + Right(s.kids, s.kvs, i + 1)
  {
    FlatPair(s, i);
    FlatJoin(node, s.kids[i], s.kvs[i], s.kids[i + 1]);
  }

  lemma FlatRegroup(s: Tree, i: nat, l: Tree, kv: KV, r: Tree, node: Node)
    requires Pair(s, i) && SameKind(l, r)
    requires Join(node, l, kv, r) == Join(node, s.kids[i], s.kvs[i], s.kids[i + 1])
    ensures Flat(Regroup(s, i, l, kv, r)) == Flat(s)
  {
    var s' := Regroup(s, i, l, kv, r);
    FlatAsJoin(s, i, node);
    FlatAsJoin(s', i, node);
    assert s'.kids[..i] == s.kids[..i] && s'.kvs[..i] == s.kvs[..i];
    LeftPrefix(s.kids, s.kvs, s'.kids, s'.kvs, i);
    assert s'.kids[i + 2..] == s.kids[i + 2..] && s'.kvs[i + 1..] == s.kvs[i + 1..];
    RightSuffix(s.kids, s.kvs, i + 1, s'.kids, s'.kvs, i + 1);
  }

  lemma FlatContract(s: Tree, i: nat, k: Tree)
    requires Pair(s, i)
    requires k == Join(k.node, s.kids[i], s.kvs[i], s.kids[i + 1])
    ensures Flat(Contract(s, i, k)) == Flat(s)
  {
    var s' := Contract(s, i, k);
    FlatAsJoin(s, i, k.node);
    WeaveAt(s'.kids, s'.kvs, i);
    LeftPrefix(s.kids, s.kvs, s'.kids, s'.kvs, i);
    RightSuffix(s.kids, s.kvs, i + 1, s'.kids, s'.kvs, i);
  }

  /** Stealing changes only where the two children are told apart. */
  lemma StolenLeftJoin(node: Node, l: Tree, kv: KV, r: Tree, n: nat)
    requires SameKind(l, r) && n < |l.kvs|
    ensures var r' := Join(r.node, Tail(r.node, l, n + 1), kv, r);
      SameKind(Head(l, n), r') && Join(node, Head(l, n), l.kvs[n], r') == Join(node, l, kv, r)
  {
    JoinCut(l, n, r.node);
    JoinAssoc(node, l.node, r.node, Head(l, n), l.kvs[n], Tail(r.node, l, n + 1), kv, r);
  }

  lemma StolenRightJoin(node: Node, l: Tree, kv: KV, r: Tree, n: nat)
    requires SameKind(l, r) && n < |r.kvs|
    ensures var l' := Join(l.node, l, kv, Head(r, n));
      SameKind(l', Tail(r.node, r, n + 1)) && Join(node, l', r.kvs[n], Tail(r.node, r, n + 1)) == Join(node, l, kv, r)
  {
    JoinCut(r, n, r.node);
    JoinAssoc(node, l.node, r.node, l, kv, Head(r, n), r.kvs[n], Tail(r.node, r, n + 1));
  }

  lemma FlatMerged(s: Tree, i: nat)
    requires Pair(s, i)
    ensures Flat(Merged(s, i)) == Flat(s)
  {
    FlatContract(s, i, Join(s.kids[i].node, s.kids[i], s.kvs[i], s.kids[i + 1]));
  }

  lemma FlatStolenLeft(s: Tree, i: nat, n: nat)
    requires Pair(s, i) && n < |s.kids[i].kvs|
    ensures Flat(StolenLeft(s, i, n)) == Flat(s)
  {
    var l, kv, r := s.kids[i], s.kvs[i], s.kids[i + 1];
    var h, up, t := Head(l, n), l.kvs[n], Join(r.node, Tail(r.node, l, n + 1), kv, r);
    assert SameKind(h, t) && Join(s.node, h, up, t) == Join(s.node, l, kv, r) by {
      StolenLeftJoin(s.node, l, kv, r, n);
    }
    FlatRegroup(s, i, h, up, t, s.node);
  }

  lemma FlatStolenRight(s: Tree, i: nat, n: nat)
    requires Pair(s, i) && n < |s.kids[i + 1].kvs|
    ensures Flat(StolenRight(s, i, n)) == Flat(s)
  {
    var l, kv, r := s.kids[i], s.kvs[i], s.kids[i + 1];
    var h, up, t := Join(l.node, l, kv, Head(r, n)), r.kvs[n], Tail(r.node, r, n + 1);
    assert SameKind(h, t) && Join(s.node, h, up, t) == Join(s.node, l, kv, r) by {
      StolenRightJoin(s.node, l, kv, r, n);
    }
    FlatRegroup(s, i, h, up, t, s.node);
  }

  // ----- The nodes in use

  lemma BagPair(s: Tree, i: nat)
    requires Pair(s, i)
    ensures Bag(s) == multiset{s.node} + Bags(s.kids[..i]) + Bag(s.kids[i]) + Bag(s.kids[i + 1]) + Bags(s.kids[i + 2..])
  {
    BagsAt(s.kids, i);
    assert s.kids[i + 1..][1..] == s.kids[i + 2..];
  }

  lemma BagContract(s: Tree, i: nat, k: Tree)
    requires Pair(s, i)
    ensures Bag(Contract(s, i, k)) == multiset{s.node} + Bags(s.kids[..i]) + Bag(k) + Bags(s.kids[i + 2..])
  {
    var s' := Contract(s, i, k);
    BagsAt(s'.kids, i);
    assert s'.kids[..i] == s.kids[..i] && s'.kids[i + 1..] == s.kids[i + 2..];
  }

  lemma BagRegroup(s: Tree, i: nat, l: Tree, kv: KV, r: Tree)
    requires Pair(s, i)
    ensures var front, back := Bags(s.kids[..i]), Bags(s.kids[i + 2..]);
      Bag(Regroup(s, i, l, kv, r)) == multiset{s.node} + front + Bag(l) + Bag(r) + back
  {
    var s' := Regroup(s, i, l, kv, r);
    BagsAt(s'.kids, i);
    assert s'.kids[..i] == s.kids[..i] && s'.kids[i + 1..][1..] == s.kids[i + 2..];
  }

  lemma BagJoin(node: Node, l: Tree, kv: KV, r: Tree)
    ensures Bag(Join(node, l, kv, r)) == multiset{node} + Bags(l.kids) + Bags(r.kids)
  {
    BagsConcat(l.kids, r.kids);
  }

  lemma BagCut(t: Tree, i: nat, node: Node)
    requires Arity(t) && i < |t.kvs|
    ensures Bags(t.kids) == Bags(Head(t, i).kids) + Bags(Tail(node, t, i + 1).kids)
  {
    if t.kids != [] {
      assert t.kids == t.kids[..i + 1] + t.kids[i + 1..];
      BagsConcat(t.kids[..i + 1], t.kids[i + 1..]);
    }
  }

  /** Merging gives up the right child's node. */
  lemma BagMerged(s: Tree, i: nat)
    requires Pair(s, i)
    ensures Bag(s) == Bag(Merged(s, i)) + multiset{s.kids[i + 1].node}
  {
    var l, r := s.kids[i], s.kids[i + 1];
    BagPair(s, i);
    BagJoin(l.node, l, s.kvs[i], r);
    BagContract(s, i, Join(l.node, l, s.kvs[i], r));
  }

  lemma BagStolenLeft(s: Tree, i: nat, n: nat)
    requires Pair(s, i) && n < |s.kids[i].kvs|
    ensures Bag(StolenLeft(s, i, n)) == Bag(s)
  {
    hide Bags;
    var l, r := s.kids[i], s.kids[i + 1];
    BagPair(s, i);
    BagCut(l, n, r.node);
    BagJoin(r.node, Tail(r.node, l, n + 1), s.kvs[i], r);
    BagRegroup(s, i, Head(l, n), l.kvs[n], Join(r.node, Tail(r.node, l, n + 1), s.kvs[i], r));
  }

  lemma BagStolenRight(s: Tree, i: nat, n: nat)
    requires Pair(s, i) && n < |s.kids[i + 1].kvs|
    ensures Bag(StolenRight(s, i, n)) == Bag(s)
  {
    hide Bags;
    var l, r := s.kids[i], s.kids[i + 1];
    BagPair(s, i);
    BagCut(r, n, r.node);
    BagJoin(l.node, l, s.kvs[i], Head(r, n));
    BagRegroup(s, i, Join(l.node, l, s.kvs[i], Head(r, n)), r.kvs[n], Tail(r.node, r, n + 1));
  }
}
