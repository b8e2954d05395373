/** Merging and stealing between two neighbouring children in memory. */
module Balance {
  import opened Nodes
  import opened Trees
  import opened Memory
  import opened Edits
  import Cells

  /** Only the links of the children `es[lo..hi]` changed, and they now lead to `parent`. */
  ghost predicate Relinked(m: Mem, m': Mem, parent: Node, es: seq<Node?>, lo: nat, hi: nat)
    requires lo <= hi <= |es|
  {
    && m'.Keys == m.Keys
    && (forall i :: lo <= i < hi ==> es[i] in m && m'[es[i]] == m[es[i]].(parent := parent, parentIdx := i))
    && (forall n :: n in m && n !in es[lo..hi] ==> m'[n] == m[n])
  }

  lemma RelinkStep(m: Mem, m': Mem, m'': Mem, parent: Node, es: seq<Node?>, lo: nat, i: nat)
    requires lo <= i < |es| && es[i] in m
    requires forall j :: lo <= j < i ==> es[j] != es[i]
    requires Relinked(m, m', parent, es, lo, i)
    requires m'' == m'[es[i] := m'[es[i]].(parent := parent, parentIdx := i)]
    ensures Relinked(m, m'', parent, es, lo, i + 1)
  {
    assert es[lo..i + 1] == es[lo..i] + [es[i]];
    forall n | n in m && n !in es[lo..i + 1] ensures m''[n] == m[n] { assert n !in es[lo..i] && n != es[i]; }
    assert es[i] !in es[lo..i];
  }

  method CorrectLink(parent: Node, i: nat, pool: Pool)
    requires pool.Valid() && parent in pool.nodes
    requires var es := pool.Mem()[parent].edges; i < |es| && es[i] in pool.nodes
    modifies pool.nodes
    ensures pool.Valid()
    ensures var (m, child) := (old(pool.Mem()), old(pool.Mem())[parent].edges[i]);
      pool.Mem() == m[child := m[child].(parent := parent, parentIdx := i)]
  {
    var child := parent.edges[i];
    child.SetParentLink(parent, i);
  }

  /** The edges `es[lo..hi]` of `parent` lead to different nodes below it. */
  ghost predicate Slots(m: Mem, parent: Node, es: seq<Node?>, lo: nat, hi: nat) {
    && parent in m && m[parent].edges == es
    && lo <= hi <= |es|
    && (forall i :: lo <= i < hi ==> es[i] in m && es[i] != parent)
    && (forall i, j :: lo <= i < j < hi ==> es[i] != es[j])
  }

  lemma RelinkedParent(m: Mem, m': Mem, parent: Node, es: seq<Node?>, lo: nat, i: nat, hi: nat)
    requires Slots(m, parent, es, lo, hi) && lo <= i < hi
    requires Relinked(m, m', parent, es, lo, i)
    ensures m'[parent] == m[parent]
    ensures forall j :: lo <= j < i ==> es[j] != es[i]
  {
    assert parent !in es[lo..i];
  }

  method CorrectChildrensParentLinks(parent: Node, lo: nat, hi: nat, pool: Pool)
    requires pool.Valid()
    requires parent in pool.nodes && Slots(pool.Mem(), parent, pool.Mem()[parent].edges, lo, hi)
    modifies pool.nodes
    ensures pool.Valid()
    ensures Relinked(old(pool.Mem()), pool.Mem(), parent, old(pool.Mem())[parent].edges, lo, hi)
  {
    ghost var m, es := pool.Mem(), pool.Mem()[parent].edges;
    var i := lo;
    while i < hi
      invariant lo <= i <= hi && pool.Valid()
      invariant Relinked(m, pool.Mem(), parent, es, lo, i)
    {
      ghost var m' := pool.Mem();
      RelinkedParent(m, m', parent, es, lo, i, hi);
      CorrectLink(parent, i, pool);
      RelinkStep(m, m', pool.Mem(), parent, es, lo, i);
      i := i + 1;
    }
  }

  // ----- Keeping track of what changed

  lemma MovedTrans(m: Mem, m': Mem, m'': Mem, e: multiset<Node>, t: multiset<Node>, e': multiset<Node>,
                   t': multiset<Node>)
    requires Moved(m, m', e, t) && Moved(m', m'', e', t')
    ensures Moved(m, m'', e + e', t + t')
  {
  }

  lemma MovedPut(m: Mem, m': Mem, n: Node, c: Cell)
    requires m' == m[n := c]
    ensures Moved(m, m', multiset{n}, multiset{})
  {
  }

  /** The edges `lo..hi` of a node whose edges are these trees can be followed and are all different. */
  lemma SlotsOf(m: Mem, p: Node, kids: seq<Tree>, lo: nat, hi: nat)
    requires p in m && m[p].edges == KidNodes(kids) && lo <= hi <= |kids|
    requires forall i :: lo <= i < hi ==> kids[i].node in m
    requires Once(Tops(kids[lo..hi])) && p !in Tops(kids[lo..hi])
    ensures Slots(m, p, m[p].edges, lo, hi)
  {
    var part := kids[lo..hi];
    TopsOnce(part);
    forall i | lo <= i < hi ensures kids[i].node != p {
      TopIn(part, i - lo);
      assert part[i - lo] == kids[i];
    }
    forall i, j | lo <= i < j < hi ensures kids[i].node != kids[j].node {
      assert part[i - lo] == kids[i] && part[j - lo] == kids[j];
    }
  }

  lemma InTopsOf(kids: seq<Tree>, lo: nat, hi: nat, n: Node)
    requires lo <= hi <= |kids|
    ensures n in KidNodes(kids)[lo..hi] ==> n in Tops(kids[lo..hi])
  {
    var part, es := kids[lo..hi], KidNodes(kids);
    if n in es[lo..hi] {
      var i :| 0 <= i < hi - lo && es[lo..hi][i] == n;
      TopIn(part, i);
    }
  }

  lemma RelinkedTrees(m: Mem, m': Mem, p: Node, kids: seq<Tree>, lo: nat, hi: nat)
    requires lo <= hi <= |kids| && Relinked(m, m', p, KidNodes(kids), lo, hi)
    ensures Moved(m, m', multiset{}, Tops(kids[lo..hi]))
    ensures LinkedFrom(m', p, kids[lo..hi], lo)
  {
    var es := KidNodes(kids);
    forall n | n in m ensures SameData(m, m', n) && (n !in Tops(kids[lo..hi]) ==> m'[n] == m[n]) {
      InTopsOf(kids, lo, hi, n);
      if n in es[lo..hi] {
        var j :| 0 <= j < hi - lo && es[lo..hi][j] == n;
        assert es[lo + j] == n;
      }
    }
    forall j | 0 <= j < hi - lo ensures LinkedTo(m', kids[lo..hi][j].node, p, lo + j) {
      assert es[lo + j] == kids[lo + j].node == kids[lo..hi][j].node;
    }
  }

  // ----- Merging

  /** The parent has given up pair `i` and the edge right of it, and links its remaining children. */
  ghost predicate Dropped(m: Mem, m': Mem, s: Tree, i: nat)
    requires Pair(s, i)
  {
    && SameLink(m, m', s.node)
    && m'[s.node].kvs == s.kvs[..i] + s.kvs[i + 1..]
    && m'[s.node].edges == KidNodes(s.kids[..i + 1] + s.kids[i + 2..])
    && LinkedFrom(m', s.node, s.kids[i + 2..], i + 1)
    && Moved(m, m', multiset{s.node}, Tops(s.kids[i + 2..]))
  }

  /** The left child has taken over the pair and everything in the right child, which is released. */
  ghost predicate Absorbed(m: Mem, m': Mem, l: Tree, kv: KV, r: Tree)
  {
    && SameLink(m, m', l.node)
    && m'[l.node].kvs == l.kvs + [kv] + r.kvs
    && m'[l.node].edges == KidNodes(l.kids + r.kids)
    && LinkedFrom(m', l.node, r.kids, |l.kids|)
    && Moved(m, m', multiset{l.node, r.node}, Tops(r.kids))
  }

  lemma MergedChild(m: Mem, l: Tree, kv: KV, r: Tree)
    requires SameKind(l, r) && |l.kvs| + 1 + |r.kvs| <= CAPACITY
    requires l.node in m && m[l.node].kvs == l.kvs + [kv] + r.kvs && m[l.node].edges == KidNodes(l.kids + r.kids)
    requires LinkedFrom(m, l.node, l.kids, 0) && LinkedFrom(m, l.node, r.kids, |l.kids|)
    requires Reps(m, l.kids) && Reps(m, r.kids)
    ensures Rep(m, Join(l.node, l, kv, r))
  {
  }

  lemma MergeMoved(m: Mem, m1: Mem, m2: Mem, s: Tree, i: nat)
    requires Pair(s, i)
    requires Dropped(m, m1, s, i) && Absorbed(m1, m2, s.kids[i], s.kvs[i], s.kids[i + 1])
    ensures Moved(m, m2, EditedBy(s, i), MovedBy(s, i))
  {
    var l, r := s.kids[i], s.kids[i + 1];
    var tc, tr := Tops(s.kids[i + 2..]), Tops(r.kids);
    MovedTrans(m, m1, m2, multiset{s.node}, tc, multiset{l.node, r.node}, tr);
    forall n | n in m && n !in EditedBy(s, i) ensures n !in multiset{s.node} + multiset{l.node, r.node} {}
    forall n | n !in MovedBy(s, i) ensures n !in tc + tr {}
  }

  /** The parent, and the links of its children, after merging. */
  lemma MergeParent(m: Mem, m1: Mem, m2: Mem, s: Tree, i: nat)
    requires Rep(m, s) && Once(Bag(s)) && Pair(s, i)
    requires Dropped(m, m1, s, i) && Absorbed(m1, m2, s.kids[i], s.kvs[i], s.kids[i + 1])
    ensures s.node in m1 && s.node in m2 && m2[s.node] == m1[s.node]
    ensures LinkedFrom(m2, s.node, s.kids[..i], 0) && LinkedTo(m2, s.kids[i].node, s.node, i)
    ensures LinkedFrom(m2, s.node, s.kids[i + 2..], i + 1)
  {
    var l, r, a, c := s.kids[i], s.kids[i + 1], s.kids[..i], s.kids[i + 2..];
    PairApart(s, i);
    PairTops(s, i);
    assert s.node in EditedBy(s, i) && l.node in EditedBy(s, i);
    assert s.node !in MovedBy(s, i) && l.node !in MovedBy(s, i);
    RepLinks(m, s, 0, i);
    LinksKept(m, m1, multiset{s.node}, Tops(c), s.node, a, 0);
    LinksKept(m1, m2, multiset{l.node, r.node}, Tops(r.kids), s.node, a, 0);
    LinksKept(m1, m2, multiset{l.node, r.node}, Tops(r.kids), s.node, c, i + 1);
  }

  lemma LeftLinksKept(m: Mem, m1: Mem, m2: Mem, s: Tree, i: nat)
    requires Rep(m, s) && Once(Bag(s)) && Pair(s, i)
    requires Dropped(m, m1, s, i) && Absorbed(m1, m2, s.kids[i], s.kvs[i], s.kids[i + 1])
    ensures LinkedFrom(m2, s.kids[i].node, s.kids[i].kids, 0)
  {
    var l, r, c := s.kids[i], s.kids[i + 1], s.kids[i + 2..];
    PairTops(s, i);
    assert Rep(m, l);
    LinksKept(m, m1, multiset{s.node}, Tops(c), l.node, l.kids, 0);
    LinksKept(m1, m2, multiset{l.node, r.node}, Tops(r.kids), l.node, l.kids, 0);
  }

  lemma MergedParent(m: Mem, s: Tree, i: nat, k: Tree)
    requires Pair(s, i) && k.node == s.kids[i].node && Rep(m, k) && |s.kvs| <= CAPACITY
    requires s.node in m && m[s.node].kvs == s.kvs[..i] + s.kvs[i + 1..]
    requires m[s.node].edges == KidNodes(s.kids[..i + 1] + s.kids[i + 2..])
    requires Reps(m, s.kids[..i]) && Reps(m, s.kids[i + 2..])
    requires LinkedFrom(m, s.node, s.kids[..i], 0) && LinkedTo(m, k.node, s.node, i)
    requires LinkedFrom(m, s.node, s.kids[i + 2..], i + 1)
    ensures Rep(m, Contract(s, i, k))
  {
    var s' := Contract(s, i, k);
    assert KidNodes(s'.kids) == KidNodes(s.kids[..i + 1] + s.kids[i + 2..]);
    forall j | 0 <= j < |s'.kids| ensures LinkedTo(m, s'.kids[j].node, s.node, j) && Rep(m, s'.kids[j]) {
      if j < i {
        assert s'.kids[j] == s.kids[..i][j];
      } else if j > i {
        assert s'.kids[j] == s.kids[i + 2..][j - i - 1];
      }
    }
  }

  lemma MergeRep(m: Mem, m1: Mem, m2: Mem, s: Tree, i: nat)
    requires Rep(m, s) && Once(Bag(s)) && Pair(s, i)
    requires |s.kids[i].kvs| + 1 + |s.kids[i + 1].kvs| <= CAPACITY
    requires Dropped(m, m1, s, i) && Absorbed(m1, m2, s.kids[i], s.kvs[i], s.kids[i + 1])
    ensures Rep(m2, Merged(s, i)) && Within(m, m2, Bag(s)) && SameLink(m, m2, s.node)
  {
    var l, r := s.kids[i], s.kids[i + 1];
    MergeMoved(m, m1, m2, s, i);
    PairWithin(m, m2, s, i);
    PairKept(m, m2, s, i);
    MergeParent(m, m1, m2, s, i);
    LeftLinksKept(m, m1, m2, s, i);
    MergedChild(m2, l, s.kvs[i], r);
    MergedParent(m2, s, i, Join(l.node, l, s.kvs[i], r));
  }

  lemma DroppedBy(m: Mem, m1: Mem, m2: Mem, s: Tree, i: nat)
    requires Pair(s, i) && s.node in m
    requires m1 == m[s.node := m[s.node].(kvs := s.kvs[..i] + s.kvs[i + 1..],
                                         edges := KidNodes(s.kids[..i + 1] + s.kids[i + 2..]))]
    requires s.node !in Tops(s.kids[i + 2..])
    requires Relinked(m1, m2, s.node, m1[s.node].edges, i + 1, |s.kvs|)
    ensures Dropped(m, m2, s, i)
  {
    var kids := s.kids[..i + 1] + s.kids[i + 2..];
    assert kids[i + 1..|s.kvs|] == s.kids[i + 2..];
    MovedPut(m, m1, s.node, m1[s.node]);
    RelinkedTrees(m1, m2, s.node, kids, i + 1, |s.kvs|);
    MovedTrans(m, m1, m2, multiset{s.node}, multiset{}, multiset{}, Tops(s.kids[i + 2..]));
    assert multiset{s.node} + multiset{} == multiset{s.node};
    assert multiset{} + Tops(s.kids[i + 2..]) == Tops(s.kids[i + 2..]);
    assert s.node !in KidNodes(kids)[i + 1..|s.kvs|] by { InTopsOf(kids, i + 1, |s.kvs|, s.node); }
  }

  lemma DropSlots(m: Mem, m1: Mem, s: Tree, i: nat)
    requires Rep(m, s) && Once(Bag(s)) && Pair(s, i)
    requires m1 == m[s.node := m[s.node].(kvs := s.kvs[..i] + s.kvs[i + 1..],
                                         edges := KidNodes(s.kids[..i + 1] + s.kids[i + 2..]))]
    ensures Slots(m1, s.node, m1[s.node].edges, i + 1, |s.kvs|)
    ensures s.node !in Tops(s.kids[i + 2..])
  {
    hide Once, Bag, Tops, Slots;
    var kids := s.kids[..i + 1] + s.kids[i + 2..];
    assert kids[i + 1..|s.kvs|] == s.kids[i + 2..];
    PairTops(s, i);
    assert s.node in EditedBy(s, i);
    forall j | i + 1 <= j < |s.kvs| ensures kids[j].node in m1 {
      assert kids[j] == s.kids[j + 1];
    }
    SlotsOf(m1, s.node, kids, i + 1, |s.kvs|);
  }

  method DropPair(parent: Node, i: nat, pool: Pool, ghost s: Tree) returns (kv: KV)
    requires pool.Valid() && Rep(pool.Mem(), s) && Once(Bag(s)) && Pair(s, i) && s.node == parent
    modifies pool.nodes, pool.kvBuffers, pool.edgeBuffers
    ensures pool.Valid()
    ensures kv == s.kvs[i] && Dropped(old(pool.Mem()), pool.Mem(), s, i)
  {
    ghost var m := pool.Mem();
    var oldParentLen := parent.len;
    kv := Cells.RemoveKvEdge(parent, i, pool);
    ghost var m1 := pool.Mem();
    KidNodesCut(s.kids, i + 1, i + 2);
    DropSlots(m, m1, s, i);
    CorrectChildrensParentLinks(parent, i + 1, oldParentLen, pool);
    DroppedBy(m, m1, pool.Mem(), s, i);
  }

  ghost function WithJoined(m: Mem, l: Tree, kv: KV, r: Tree): Mem
    requires l.node in m
  {
    m[l.node := m[l.node].(kvs := l.kvs + [kv] + r.kvs, edges := KidNodes(l.kids + r.kids))]
  }

  lemma AbsorbSlots(m: Mem, m1: Mem, l: Tree, kv: KV, r: Tree)
    requires l.node in m && Reps(m, r.kids)
    requires Once(Tops(r.kids)) && l.node !in Tops(r.kids)
    requires m1 == WithJoined(m, l, kv, r)
    ensures Slots(m1, l.node, m1[l.node].edges, |l.kids|, |l.kids| + |r.kids|)
  {
    var kids := l.kids + r.kids;
    assert kids[|l.kids|..|l.kids| + |r.kids|] == r.kids;
    forall j | |l.kids| <= j < |kids| ensures kids[j].node in m1 { assert kids[j] == r.kids[j - |l.kids|]; }
    SlotsOf(m1, l.node, kids, |l.kids|, |kids|);
  }

  lemma AbsorbedMoved(m: Mem, m1: Mem, m2: Mem, m3: Mem, l: Node, c: Cell, r: Node, t: multiset<Node>)
    requires m1 == m[l := c] && Moved(m1, m2, multiset{}, t) && m3 == m2 - {r}
    ensures Moved(m, m3, multiset{l, r}, t)
  {
    forall n | n in m && n !in multiset{l, r} ensures SameData(m, m3, n) && (n !in t ==> m3[n] == m[n]) {
      assert n in m1 && m1[n] == m[n];
    }
  }

  lemma AbsorbedBy(m: Mem, m1: Mem, m2: Mem, m3: Mem, l: Tree, kv: KV, r: Tree)
    requires l.node in m && l.node != r.node
    requires l.node !in Tops(r.kids) && r.node !in Tops(r.kids)
    requires m1 == WithJoined(m, l, kv, r)
    requires Relinked(m1, m2, l.node, m1[l.node].edges, |l.kids|, |l.kids| + |r.kids|)
    requires m3 == m2 - {r.node}
    ensures Absorbed(m, m3, l, kv, r)
  {
    hide Tops;
    var kids, n := l.kids + r.kids, |l.kids| + |r.kids|;
    assert kids[|l.kids|..n] == r.kids;
    RelinkedTrees(m1, m2, l.node, kids, |l.kids|, n);
    AbsorbedMoved(m, m1, m2, m3, l.node, m1[l.node], r.node, Tops(r.kids));
    MovedDrop(m2, m3, r.node);
    assert Apart(Tops(r.kids), multiset{r.node});
    LinksKept(m2, m3, multiset{r.node}, multiset{}, l.node, r.kids, |l.kids|);
    assert l.node !in KidNodes(kids)[|l.kids|..n] by { InTopsOf(kids, |l.kids|, n, l.node); }
  }

  lemma MovedDrop(m: Mem, m': Mem, n: Node)
    requires m' == m - {n}
    ensures Moved(m, m', multiset{n}, multiset{})
  {
  }

  /** Corrects the links of the children from edge `lo` on, if the node has children. */
  method CorrectLinksFrom(parent: Node, lo: nat, pool: Pool)
    requires pool.Valid() && parent in pool.nodes
    requires var c := pool.Mem()[parent];
      c.edges != [] ==> |c.edges| == |c.kvs| + 1 && Slots(pool.Mem(), parent, c.edges, lo, |c.edges|)
    modifies pool.nodes
    ensures pool.Valid()
    ensures var (m, es) := (old(pool.Mem()), old(pool.Mem())[parent].edges);
      if es == [] then pool.Mem() == m else Relinked(m, pool.Mem(), parent, es, lo, |es|)
  {
    hide Slots, Relinked;
    if parent.edges.Length != 0 {
      CorrectChildrensParentLinks(parent, lo, parent.len + 1, pool);
    }
  }

  lemma RelinkedNone(m: Mem, p: Node)
    ensures Relinked(m, m, p, [], 0, 0)
  {
  }

  method AbsorbData(left: Node, kv: KV, right: Node, pool: Pool, ghost l: Tree, ghost r: Tree)
    requires pool.Valid() && Rep(pool.Mem(), l) && Rep(pool.Mem(), r) && SameKind(l, r)
    requires l.node == left && r.node == right && left != right && |l.kvs| + 1 + |r.kvs| <= CAPACITY
    modifies pool.nodes, pool.kvBuffers, pool.edgeBuffers
    ensures pool.Valid() && pool.Mem() == WithJoined(old(pool.Mem()), l, kv, r)
  {
    KidNodesConcat(l.kids, r.kids);
    Cells.Absorb(left, kv, right, pool);
  }

  method AbsorbLinks(left: Node, oldLeftLen: nat, pool: Pool, ghost l: Tree, ghost r: Tree)
    requires pool.Valid() && left in pool.nodes && SameKind(l, r) && oldLeftLen == |l.kvs|
    requires var c := pool.Mem()[left];
      && c.edges == KidNodes(l.kids + r.kids) && (l.kids != [] ==> |c.edges| == |c.kvs| + 1)
      && Slots(pool.Mem(), left, c.edges, |l.kids|, |l.kids| + |r.kids|)
    modifies pool.nodes
    ensures pool.Valid()
    ensures Relinked(old(pool.Mem()), pool.Mem(), left, old(pool.Mem())[left].edges, |l.kids|, |l.kids| + |r.kids|)
  {
    ghost var m := pool.Mem();
    CorrectLinksFrom(left, oldLeftLen + 1, pool);
    if l.kids == [] { RelinkedNone(m, left); }
  }

  method AbsorbRight(left: Node, kv: KV, right: Node, pool: Pool, ghost l: Tree, ghost r: Tree)
    requires pool.Valid() && Rep(pool.Mem(), l) && Rep(pool.Mem(), r) && SameKind(l, r)
    requires l.node == left && r.node == right && left != right && |l.kvs| + 1 + |r.kvs| <= CAPACITY
    requires Once(Tops(r.kids)) && left !in Tops(r.kids) && right !in Tops(r.kids)
    modifies pool, pool.nodes, pool.kvBuffers, pool.edgeBuffers
    ensures pool.Valid() && pool.Repr() <= old(pool.Repr())
    ensures pool.Mem().Keys == old(pool.Mem()).Keys - {right}
    ensures Absorbed(old(pool.Mem()), pool.Mem(), l, kv, r)
  {
    ghost var m := pool.Mem();
    assert left.View() == m[left];
    var oldLeftLen := left.len;
    AbsorbData(left, kv, right, pool, l, r);
    ghost var m1 := pool.Mem();
    AbsorbSlots(m, m1, l, kv, r);
    AbsorbLinks(left, oldLeftLen, pool, l, r);
    ghost var m2 := pool.Mem();
    pool.Release(right);
    AbsorbedBy(m, m1, m2, pool.Mem(), l, kv, r);
  }

  /** No node below the two children is the parent or a child further right. */
  lemma ChildApart(s: Tree, i: nat, n: Node)
    requires Once(Bag(s)) && Pair(s, i) && n in Bags(s.kids[i].kids) + Bags(s.kids[i + 1].kids)
    ensures n !in EditedBy(s, i) && n !in Tops(s.kids[i + 2..])
  {
    PairApart(s, i);
    PairTops(s, i);
    SparedParts(s, i);
    TopsInner(s.kids[i].kids);
    TopsInner(s.kids[i + 1].kids);
  }

  lemma DropKeepsChild(m: Mem, m1: Mem, s: Tree, i: nat, k: Tree)
    requires Once(Bag(s)) && Pair(s, i) && Dropped(m, m1, s, i)
    requires Rep(m, k) && (k == s.kids[i] || k == s.kids[i + 1])
    ensures Rep(m1, k)
  {
    RepsIn(m, k.kids);
    assert SameOn(m, m1, Bags(k.kids)) by {
      forall n | n in Bags(k.kids) ensures n in m1 && m1[n] == m[n] {
        ChildApart(s, i, n);
        assert n !in multiset{s.node};
      }
    }
    assert k.node !in multiset{s.node} by {
      PairApart(s, i);
    }
    RepFrame(m, m1, k);
  }

  lemma DropKeeps(m: Mem, m1: Mem, s: Tree, i: nat)
    requires Rep(m, s) && Once(Bag(s)) && Pair(s, i) && Dropped(m, m1, s, i)
    ensures Rep(m1, s.kids[i]) && Rep(m1, s.kids[i + 1])
  {
    assert Rep(m, s.kids[i]) && Rep(m, s.kids[i + 1]);
    DropKeepsChild(m, m1, s, i, s.kids[i]);
    DropKeepsChild(m, m1, s, i, s.kids[i + 1]);
  }

  lemma PairNodes(s: Tree, i: nat)
    requires Once(Bag(s)) && Pair(s, i)
    ensures var (l, r) := (s.kids[i], s.kids[i + 1]);
      && l.node != r.node && l.node != s.node && r.node != s.node
      && Once(Tops(l.kids)) && l.node !in Tops(l.kids) && r.node !in Tops(l.kids) && s.node !in Tops(l.kids)
      && Once(Tops(r.kids)) && l.node !in Tops(r.kids) && r.node !in Tops(r.kids) && s.node !in Tops(r.kids)
      && Once(Tops(l.kids + r.kids))
  {
    var l, r := s.kids[i], s.kids[i + 1];
    PairApart(s, i);
    PairTops(s, i);
    assert l.node in EditedBy(s, i) && r.node in EditedBy(s, i) && s.node in EditedBy(s, i);
    TopsConcat(l.kids, r.kids);
    OnceJoin(Tops(l.kids), Tops(r.kids));
  }

  /** The node an edge leads to. */
  method Descend(node: Node, i: nat, pool: Pool, ghost s: Tree) returns (child: Node)
    requires pool.Valid() && Rep(pool.Mem(), s) && s.node == node && i < |s.kids|
    ensures child == s.kids[i].node && child in pool.nodes
  {
    assert pool.Mem()[node] == node.View();
    assert Rep(pool.Mem(), s.kids[i]);
    child := node.edges[i];
  }

  method Len(node: Node, pool: Pool, ghost s: Tree) returns (len: nat)
    requires pool.Valid() && Rep(pool.Mem(), s) && s.node == node
    ensures len == |s.kvs|
  {
    assert pool.Mem()[node] == node.View();
    len := node.len;
  }

  /** Merges the two children around pair `i` and that pair into the left child and releases the right one. */
  method DoMerge(parent: Node, i: nat, pool: Pool, ghost s: Tree) returns (left: Node)
    requires pool.Valid() && Rep(pool.Mem(), s) && Once(Bag(s)) && Pair(s, i) && s.node == parent
    requires |s.kids[i].kvs| + 1 + |s.kids[i + 1].kvs| <= CAPACITY
    modifies pool, pool.nodes, pool.kvBuffers, pool.edgeBuffers
    ensures pool.Valid() && pool.Repr() <= old(pool.Repr())
    ensures left == s.kids[i].node && pool.Mem().Keys == old(pool.Mem()).Keys - {s.kids[i + 1].node}
    ensures Rep(pool.Mem(), Merged(s, i)) && Within(old(pool.Mem()), pool.Mem(), Bag(s))
    ensures SameLink(old(pool.Mem()), pool.Mem(), parent)
  {
    hide Rep, Once, Dropped, Absorbed, Moved, Within;
    ghost var m := pool.Mem();
    left := Descend(parent, i, pool, s);
    var right := Descend(parent, i + 1, pool, s);
    var kv := DropPair(parent, i, pool, s);
    ghost var m1 := pool.Mem();
    DropKeeps(m, m1, s, i);
    PairNodes(s, i);
    AbsorbRight(left, kv, right, pool, s.kids[i], s.kids[i + 1]);
    MergeRep(m, m1, pool.Mem(), s, i);
  }

  // ----- Stealing

  /** The parent with another pair and children in the same nodes. */
  lemma RegroupRep(m: Mem, s: Tree, i: nat, l: Tree, kv: KV, r: Tree)
    requires Pair(s, i) && l.node == s.kids[i].node && r.node == s.kids[i + 1].node && |s.kvs| <= CAPACITY
    requires s.node in m && m[s.node].kvs == s.kvs[i := kv] && m[s.node].edges == KidNodes(s.kids)
    requires Rep(m, l) && Rep(m, r) && Reps(m, s.kids[..i]) && Reps(m, s.kids[i + 2..])
    requires LinkedFrom(m, s.node, s.kids, 0)
    ensures Rep(m, Regroup(s, i, l, kv, r))
  {
    var s' := Regroup(s, i, l, kv, r);
    assert KidNodes(s'.kids) == KidNodes(s.kids);
    forall j | 0 <= j < |s'.kids| ensures LinkedTo(m, s'.kids[j].node, s.node, j) && Rep(m, s'.kids[j]) {
      assert LinkedTo(m, s.kids[j].node, s.node, j);
      if j < i {
        assert s'.kids[j] == s.kids[..i][j];
      } else if j > i + 1 {
        assert s'.kids[j] == s.kids[i + 2..][j - i - 2];
      }
    }
  }

  /** Around the two children nothing but the parent's pair changed. */
  ghost predicate Exchanged(m: Mem, m': Mem, s: Tree, i: nat, kv: KV)
    requires Pair(s, i)
  {
    && s.node in m && s.node in m' && m'[s.node] == m[s.node].(kvs := s.kvs[i := kv])
    && SameLink(m, m', s.kids[i].node) && SameLink(m, m', s.kids[i + 1].node)
    && Moved(m, m', EditedBy(s, i), MovedBy(s, i))
    && Moved(m, m', EditedBy(s, i), Tops(s.kids[i].kids) + Tops(s.kids[i + 1].kids))
  }

  lemma LinksJoin(m: Mem, p: Node, kids: seq<Tree>, i: nat)
    requires i + 1 < |kids| && LinkedFrom(m, p, kids[..i], 0) && LinkedFrom(m, p, kids[i + 2..], i + 2)
    requires LinkedTo(m, kids[i].node, p, i) && LinkedTo(m, kids[i + 1].node, p, i + 1)
    ensures LinkedFrom(m, p, kids, 0)
  {
    forall j | 0 <= j < |kids| ensures LinkedTo(m, kids[j].node, p, 0 + j) {
      if j < i {
        assert kids[j] == kids[..i][j];
      } else if j > i + 1 {
        assert kids[j] == kids[i + 2..][j - i - 2];
      }
    }
  }

  lemma ExchangedLinks(m: Mem, m': Mem, s: Tree, i: nat, kv: KV)
    requires Rep(m, s) && Once(Bag(s)) && Pair(s, i) && Exchanged(m, m', s, i, kv)
    ensures LinkedFrom(m', s.node, s.kids, 0)
  {
    hide Rep, Once, Moved, LinkedFrom, Tops, Bag, Bags, EditedBy;
    var l, r, a, c := s.kids[i], s.kids[i + 1], s.kids[..i], s.kids[i + 2..];
    PairTops(s, i);
    RepLinks(m, s, 0, i);
    RepLinks(m, s, i + 2, |s.kids|);
    ApartSum(Tops(a), Tops(l.kids), Tops(r.kids));
    ApartSum(Tops(c), Tops(l.kids), Tops(r.kids));
    LinksKept(m, m', EditedBy(s, i), Tops(l.kids) + Tops(r.kids), s.node, a, 0);
    LinksKept(m, m', EditedBy(s, i), Tops(l.kids) + Tops(r.kids), s.node, c, i + 2);
    RepKid(m, s, i);
    RepKid(m, s, i + 1);
    LinksJoin(m', s.node, s.kids, i);
  }

  /** What stealing leaves in memory, given what it leaves in the two children. */
  lemma ExchangedRep(m: Mem, m': Mem, s: Tree, i: nat, l: Tree, kv: KV, r: Tree)
    requires Rep(m, s) && Once(Bag(s)) && Pair(s, i) && Exchanged(m, m', s, i, kv)
    requires l.node == s.kids[i].node && r.node == s.kids[i + 1].node
    requires Reps(m', s.kids[i].kids) && Reps(m', s.kids[i + 1].kids) ==> Rep(m', l) && Rep(m', r)
    ensures Rep(m', Regroup(s, i, l, kv, r)) && Within(m, m', Bag(s)) && SameLink(m, m', s.node)
  {
    PairWithin(m, m', s, i);
    PairKept(m, m', s, i);
    ExchangedLinks(m, m', s, i, kv);
    RegroupRep(m', s, i, l, kv, r);
  }

  /** Memory says of a node what the tree says of its root. */
  ghost predicate Says(m: Mem, t: Tree) {
    t.node in m && m[t.node].kvs == t.kvs && m[t.node].edges == KidNodes(t.kids)
  }

  lemma NodeRep(m: Mem, t: Tree)
    requires Says(m, t) && Arity(t) && |t.kvs| <= CAPACITY
    requires LinkedFrom(m, t.node, t.kids, 0) && Reps(m, t.kids)
    ensures Rep(m, t)
  {
    forall j | 0 <= j < |t.kids| ensures LinkedTo(m, t.kids[j].node, t.node, j) {
      assert LinkedTo(m, t.kids[j].node, t.node, 0 + j);
    }
  }

  lemma MovedMono(m: Mem, m': Mem, e: multiset<Node>, t: multiset<Node>, t': multiset<Node>)
    requires Moved(m, m', e, t) && t <= t'
    ensures Moved(m, m', e, t')
  {
  }

  /** The parent and both children have been written; the links are still the old ones. */
  ghost predicate Written(m: Mem, m': Mem, s: Tree, i: nat, l: Tree, kv: KV, r: Tree)
    requires Pair(s, i)
  {
    && s.node in m && s.node in m' && m'[s.node] == m[s.node].(kvs := s.kvs[i := kv])
    && l.node == s.kids[i].node && r.node == s.kids[i + 1].node
    && Says(m', l) && Says(m', r)
    && SameLink(m, m', l.node) && SameLink(m, m', r.node)
    && Moved(m, m', EditedBy(s, i), multiset{})
  }

  lemma WrittenThenMoved(m: Mem, m1: Mem, m2: Mem, s: Tree, i: nat, l: Tree, kv: KV, r: Tree, t: multiset<Node>)
    requires Once(Bag(s)) && Pair(s, i) && Written(m, m1, s, i, l, kv, r)
    requires Moved(m1, m2, multiset{}, t) && t <= Tops(s.kids[i].kids) + Tops(s.kids[i + 1].kids)
    ensures Exchanged(m, m2, s, i, kv) && Says(m2, l) && Says(m2, r)
    ensures Moved(m, m2, EditedBy(s, i), t)
  {
    hide Once, Bag, Tops;
    var tl, tr, e := Tops(s.kids[i].kids), Tops(s.kids[i + 1].kids), EditedBy(s, i);
    PairNodes(s, i);
    assert s.node !in t && l.node !in t && r.node !in t by {
      assert s.node !in tl + tr && l.node !in tl + tr && r.node !in tl + tr;
    }
    MovedTrans(m, m1, m2, e, multiset{}, multiset{}, t);
    assert e + multiset{} == e && multiset{} + t == t;
    MovedMono(m, m2, e, t, tl + tr);
    assert t <= MovedBy(s, i);
    MovedMono(m, m2, e, t, MovedBy(s, i));
  }

  lemma StealLeftTops(l: Tree, kv: KV, r: Tree, n: nat)
    requires SameKind(l, r) && n < |l.kvs|
    ensures var (h, t) := (Head(l, n), Join(r.node, Tail(r.node, l, n + 1), kv, r));
      && l.kids + r.kids == h.kids + t.kids
      && Tops(h.kids) + Tops(t.kids) == Tops(l.kids) + Tops(r.kids)
      && h.kids == l.kids[0..|h.kids|]
  {
    hide Tops;
    var h, t := Head(l, n), Join(r.node, Tail(r.node, l, n + 1), kv, r);
    assert l.kids + r.kids == h.kids + t.kids;
    TopsConcat(l.kids, r.kids);
    TopsConcat(h.kids, t.kids);
  }

  lemma StealLeftKids(m: Mem, l: Tree, kv: KV, r: Tree, n: nat)
    requires SameKind(l, r) && n < |l.kvs| && Reps(m, l.kids) && Reps(m, r.kids)
    ensures Reps(m, Head(l, n).kids) && Reps(m, Join(r.node, Tail(r.node, l, n + 1), kv, r).kids)
  {
  }

  lemma StealLeftRep(m: Mem, m1: Mem, m2: Mem, s: Tree, i: nat, n: nat)
    requires Rep(m, s) && Once(Bag(s)) && Pair(s, i) && n < |s.kids[i].kvs|
    requires |s.kids[i].kvs| - n + |s.kids[i + 1].kvs| <= CAPACITY
    requires var (l, r) := (s.kids[i], s.kids[i + 1]);
      var t := Join(r.node, Tail(r.node, l, n + 1), s.kvs[i], r);
      Written(m, m1, s, i, Head(l, n), l.kvs[n], t) && Relinked(m1, m2, r.node, KidNodes(t.kids), 0, |t.kids|)
    ensures Rep(m2, StolenLeft(s, i, n)) && Within(m, m2, Bag(s)) && SameLink(m, m2, s.node)
  {
    hide Once, Moved, Relinked, Written, Exchanged, Tops;
    var l, r := s.kids[i], s.kids[i + 1];
    var h, t := Head(l, n), Join(r.node, Tail(r.node, l, n + 1), s.kvs[i], r);
    assert t.kids[0..|t.kids|] == t.kids;
    RelinkedTrees(m1, m2, r.node, t.kids, 0, |t.kids|);
    StealLeftTops(l, s.kvs[i], r, n);
    WrittenThenMoved(m, m1, m2, s, i, h, l.kvs[n], t, Tops(t.kids));
    assert Rep(m, l);
    assert LinkedFrom(m2, l.node, h.kids, 0) by {
      RepLinks(m, l, 0, |h.kids|);
      StealLeftApart(s, i, n);
      LinksKept(m, m2, EditedBy(s, i), Tops(t.kids), l.node, h.kids, 0);
    }
    assert Rep(m2, h) && Rep(m2, t) by {
      assert Reps(m2, l.kids) && Reps(m2, r.kids) by { ExchangedKids(m, m2, s, i, l.kvs[n]); }
      StealLeftKids(m2, l, s.kvs[i], r, n);
      NodeRep(m2, h);
      NodeRep(m2, t);
    }
    ExchangedRep(m, m2, s, i, h, l.kvs[n], t);
  }

  lemma ExchangedKids(m: Mem, m': Mem, s: Tree, i: nat, kv: KV)
    requires Rep(m, s) && Once(Bag(s)) && Pair(s, i) && Exchanged(m, m', s, i, kv)
    ensures Reps(m', s.kids[i].kids) && Reps(m', s.kids[i + 1].kids)
  {
    PairKept(m, m', s, i);
  }

  lemma StealLeftApart(s: Tree, i: nat, n: nat)
    requires Once(Bag(s)) && Pair(s, i) && n < |s.kids[i].kvs|
    ensures var (l, r) := (s.kids[i], s.kids[i + 1]);
      var (h, t) := (Head(l, n), Join(r.node, Tail(r.node, l, n + 1), s.kvs[i], r));
      Apart(Tops(h.kids), EditedBy(s, i)) && Apart(Tops(h.kids), Tops(t.kids))
  {
    var l, r := s.kids[i], s.kids[i + 1];
    var h, t := Head(l, n), Join(r.node, Tail(r.node, l, n + 1), s.kvs[i], r);
    var th, tt, tl, tr := Tops(h.kids), Tops(t.kids), Tops(l.kids), Tops(r.kids);
    StealLeftTops(l, s.kvs[i], r, n);
    PairNodes(s, i);
    TopsConcat(l.kids, r.kids);
    OnceSplit(th, tt, tl + tr);
    PairTops(s, i);
    forall x | x in th ensures x !in EditedBy(s, i) { assert x in tl + tr; }
  }

  lemma WrittenBy(m: Mem, m1: Mem, m2: Mem, s: Tree, i: nat, l: Tree, kv: KV, r: Tree, cl: Cell, cr: Cell)
    requires Rep(m, s) && Once(Bag(s)) && Pair(s, i)
    requires l.node == s.kids[i].node && r.node == s.kids[i + 1].node
    requires m1 == m[s.node := m[s.node].(kvs := s.kvs[i := kv])]
    requires l.node in m && r.node in m && m2 == Cells.Put2(m1, l.node, cl, r.node, cr)
    requires cl == m[l.node].(kvs := l.kvs, edges := KidNodes(l.kids))
    requires cr == m[r.node].(kvs := r.kvs, edges := KidNodes(r.kids))
    ensures Written(m, m2, s, i, l, kv, r)
  {
    hide Once, Bag, Bags, Tops, EditedBy, Rep;
    assert s.node in m && m[s.node].kvs == s.kvs by { RepNode(m, s); }
    assert l.node != r.node && l.node != s.node && r.node != s.node by { PairNodes(s, i); }
    assert m2[l.node] == cl && m2[r.node] == cr && m2[s.node] == m1[s.node];
    assert Moved(m, m2, EditedBy(s, i), multiset{}) by {
      WrittenMoved(m, m1, m2, s, i, m1[s.node], cl, cr);
    }
  }

  lemma RepNode(m: Mem, t: Tree)
    requires Rep(m, t)
    ensures t.node in m && m[t.node].kvs == t.kvs && m[t.node].edges == KidNodes(t.kids) && Arity(t)
    ensures |t.kvs| <= CAPACITY
  {
  }

  lemma WrittenMoved(m: Mem, m1: Mem, m2: Mem, s: Tree, i: nat, c: Cell, cl: Cell, cr: Cell)
    requires Pair(s, i) && m1 == m[s.node := c] && m2 == Cells.Put2(m1, s.kids[i].node, cl, s.kids[i + 1].node, cr)
    ensures Moved(m, m2, EditedBy(s, i), multiset{})
  {
    forall n | n in m && n !in EditedBy(s, i) ensures n in m2 && m2[n] == m[n] {
      assert n != s.node && n != s.kids[i].node && n != s.kids[i + 1].node;
    }
  }

  /** Exchanges pair `n` of a child for pair `i` of the parent, which is returned. */
  method SwapUp(parent: Node, i: nat, child: Node, n: nat, pool: Pool, ghost s: Tree, ghost c: Tree) returns (kv: KV)
    requires pool.Valid() && Rep(pool.Mem(), s) && Rep(pool.Mem(), c) && s.node == parent && c.node == child
    requires i < |s.kvs| && n < |c.kvs|
    modifies pool.nodes, pool.kvBuffers, pool.edgeBuffers
    ensures pool.Valid() && kv == s.kvs[i]
    ensures var m := old(pool.Mem()); pool.Mem() == m[parent := m[parent].(kvs := s.kvs[i := c.kvs[n]])]
  {
    ghost var m := pool.Mem();
    assert child.View() == m[child] && m[child].kvs == c.kvs;
    var up := child.kvs[n];
    kv := Cells.ReplaceKv(parent, i, up, pool);
  }

  method StealLeftData(parent: Node, left: Node, right: Node, i: nat, n: nat, pool: Pool, ghost s: Tree)
    requires pool.Valid() && Rep(pool.Mem(), s) && Once(Bag(s)) && Pair(s, i) && s.node == parent
    requires left == s.kids[i].node && right == s.kids[i + 1].node && left in pool.nodes && right in pool.nodes
    requires n < |s.kids[i].kvs| && |s.kids[i].kvs| - n + |s.kids[i + 1].kvs| <= CAPACITY
    modifies pool.nodes, pool.kvBuffers, pool.edgeBuffers
    ensures pool.Valid()
    ensures var (l, r) := (s.kids[i], s.kids[i + 1]);
      var j := Join(r.node, Tail(r.node, l, n + 1), s.kvs[i], r);
      Written(old(pool.Mem()), pool.Mem(), s, i, Head(l, n), l.kvs[n], j)
  {
    hide Rep, Once, Tops, Bag, Bags, Written, Pool.Mem, Pool.Valid;
    ghost var m, l, r := pool.Mem(), s.kids[i], s.kids[i + 1];
    ghost var h, t := Head(l, n), Join(r.node, Tail(r.node, l, n + 1), s.kvs[i], r);
    assert left != right && left != parent && right != parent by { PairNodes(s, i); }
    RepKid(m, s, i);
    RepKid(m, s, i + 1);
    RepNode(m, l);
    RepNode(m, r);
    var kv := SwapUp(parent, i, left, n, pool, s, l);
    ghost var m1 := pool.Mem();
    Cells.StealFromLeft(right, left, n, kv, pool);
    StealLeftEdges(l, s.kvs[i], r, n);
    WrittenBy(m, m1, pool.Mem(), s, i, h, l.kvs[n], t, pool.Mem()[left], pool.Mem()[right]);
  }

  lemma StealLeftEdges(l: Tree, kv: KV, r: Tree, n: nat)
    requires SameKind(l, r) && n < |l.kvs|
    ensures var (el, er) := (KidNodes(l.kids), KidNodes(r.kids));
      && KidNodes(Head(l, n).kids) == (if el == [] then [] else el[..n + 1])
      && KidNodes(Join(r.node, Tail(r.node, l, n + 1), kv, r).kids) == (if el == [] then [] else el[n + 1..] + er)
  {
    if l.kids != [] {
      KidNodesSlice(l.kids, 0, n + 1);
      KidNodesSlice(l.kids, n + 1, |l.kids|);
      assert l.kids[0..n + 1] == l.kids[..n + 1] && l.kids[n + 1..|l.kids|] == l.kids[n + 1..];
      KidNodesConcat(l.kids[n + 1..], r.kids);
    }
  }

  method StealLeftFrom(parent: Node, left: Node, right: Node, i: nat, n: nat, pool: Pool, ghost s: Tree)
    requires pool.Valid() && Rep(pool.Mem(), s) && Once(Bag(s)) && Pair(s, i) && s.node == parent
    requires left == s.kids[i].node && right == s.kids[i + 1].node && left in pool.nodes && right in pool.nodes
    requires n < |s.kids[i].kvs| && |s.kids[i].kvs| - n + |s.kids[i + 1].kvs| <= CAPACITY
    modifies pool.nodes, pool.kvBuffers, pool.edgeBuffers
    ensures pool.Valid()
    ensures Rep(pool.Mem(), StolenLeft(s, i, n)) && Within(old(pool.Mem()), pool.Mem(), Bag(s))
    ensures SameLink(old(pool.Mem()), pool.Mem(), parent)
  {
    hide Once, Tops, Bag, Bags, Within, Relinked, Written, Rep, SameLink, Slots, Pool.Mem, Pool.Valid;
    ghost var m, l, r := pool.Mem(), s.kids[i], s.kids[i + 1];
    ghost var t := Join(r.node, Tail(r.node, l, n + 1), s.kvs[i], r);
    StealLeftData(parent, left, right, i, n, pool, s);
    ghost var m1 := pool.Mem();
    StealLeftSlots(m, m1, s, i, n);
    CorrectLinksFrom(right, 0, pool);
    assert Relinked(m1, pool.Mem(), right, KidNodes(t.kids), 0, |t.kids|) by {
      if t.kids == [] { RelinkedNone(m1, right); }
    }
    StealLeftRep(m, m1, pool.Mem(), s, i, n);
  }

  /** Moves the pairs of the left child from `n` on to the right child, pair `n` through the parent. */
  method StealLeft(parent: Node, i: nat, n: nat, pool: Pool, ghost s: Tree)
    requires pool.Valid() && Rep(pool.Mem(), s) && Once(Bag(s)) && Pair(s, i) && s.node == parent
    requires n < |s.kids[i].kvs| && |s.kids[i].kvs| - n + |s.kids[i + 1].kvs| <= CAPACITY
    modifies pool.nodes, pool.kvBuffers, pool.edgeBuffers
    ensures pool.Valid()
    ensures Rep(pool.Mem(), StolenLeft(s, i, n)) && Within(old(pool.Mem()), pool.Mem(), Bag(s))
    ensures SameLink(old(pool.Mem()), pool.Mem(), parent)
  {
    hide Once, Tops, Bag, Bags, Within, Rep, SameLink, Pool.Mem, Pool.Valid;
    var left := Descend(parent, i, pool, s);
    var right := Descend(parent, i + 1, pool, s);
    StealLeftFrom(parent, left, right, i, n, pool, s);
  }

  lemma StealLeftSlots(m: Mem, m1: Mem, s: Tree, i: nat, n: nat)
    requires Rep(m, s) && Once(Bag(s)) && Pair(s, i) && n < |s.kids[i].kvs|
    requires var (l, r) := (s.kids[i], s.kids[i + 1]);
      Written(m, m1, s, i, Head(l, n), l.kvs[n], Join(r.node, Tail(r.node, l, n + 1), s.kvs[i], r))
    ensures var (l, r) := (s.kids[i], s.kids[i + 1]);
      var t := Join(r.node, Tail(r.node, l, n + 1), s.kvs[i], r);
      r.node in m1 && Says(m1, t) && Slots(m1, r.node, KidNodes(t.kids), 0, |t.kids|)
  {
    hide Bag, Bags, Tops;
    var l, r := s.kids[i], s.kids[i + 1];
    var h, t := Head(l, n), Join(r.node, Tail(r.node, l, n + 1), s.kvs[i], r);
    StealLeftTops(l, s.kvs[i], r, n);
    PairNodes(s, i);
    TopsConcat(l.kids, r.kids);
    OnceSplit(Tops(h.kids), Tops(t.kids), Tops(l.kids) + Tops(r.kids));
    assert t.kids[0..|t.kids|] == t.kids;
    WrittenNodes(m, m1, s, i, h, l.kvs[n], t);
    assert r.node !in Tops(t.kids) by { assert r.node !in Tops(l.kids) + Tops(r.kids); }
    SlotsOf(m1, r.node, t.kids, 0, |t.kids|);
  }

  lemma WrittenNodes(m: Mem, m1: Mem, s: Tree, i: nat, l: Tree, kv: KV, r: Tree)
    requires Rep(m, s) && Pair(s, i) && Written(m, m1, s, i, l, kv, r)
    ensures forall k :: k in s.kids[i].kids || k in s.kids[i + 1].kids ==> k.node in m1
  {
    assert Rep(m, s.kids[i]) && Rep(m, s.kids[i + 1]);
  }

  lemma StealRightTops(l: Tree, kv: KV, r: Tree, n: nat)
    requires SameKind(l, r) && n < |r.kvs|
    ensures var (h, t) := (Join(l.node, l, kv, Head(r, n)), Tail(r.node, r, n + 1));
      && h.kids == l.kids + Head(r, n).kids && r.kids == Head(r, n).kids + t.kids
      && Tops(h.kids) == Tops(l.kids) + Tops(Head(r, n).kids)
      && Tops(r.kids) == Tops(Head(r, n).kids) + Tops(t.kids)
      && h.kids[|l.kids|..|h.kids|] == Head(r, n).kids
  {
    TopsConcat(l.kids, Head(r, n).kids);
    TopsConcat(Head(r, n).kids, Tail(r.node, r, n + 1).kids);
  }

  lemma StealRightKids(m: Mem, l: Tree, kv: KV, r: Tree, n: nat)
    requires SameKind(l, r) && n < |r.kvs| && Reps(m, l.kids) && Reps(m, r.kids)
    ensures Reps(m, Join(l.node, l, kv, Head(r, n)).kids) && Reps(m, Tail(r.node, r, n + 1).kids)
  {
  }

  lemma StealRightEdges(l: Tree, kv: KV, r: Tree, n: nat)
    requires SameKind(l, r) && n < |r.kvs|
    ensures var (el, er) := (KidNodes(l.kids), KidNodes(r.kids));
      && KidNodes(Join(l.node, l, kv, Head(r, n)).kids) == (if er == [] then [] else el + er[..n + 1])
      && KidNodes(Tail(r.node, r, n + 1).kids) == (if er == [] then [] else er[n + 1..])
  {
    if r.kids != [] {
      KidNodesSlice(r.kids, 0, n + 1);
      KidNodesSlice(r.kids, n + 1, |r.kids|);
      assert r.kids[0..n + 1] == r.kids[..n + 1] && r.kids[n + 1..|r.kids|] == r.kids[n + 1..];
      KidNodesConcat(l.kids, r.kids[..n + 1]);
    }
  }

  lemma StealRightApart(s: Tree, i: nat, n: nat)
    requires Once(Bag(s)) && Pair(s, i) && n < |s.kids[i + 1].kvs|
    ensures var (l, r) := (s.kids[i], s.kids[i + 1]);
      && Apart(Tops(l.kids), EditedBy(s, i)) && Apart(Tops(l.kids), Tops(r.kids))
      && Apart(Tops(Head(r, n).kids), Tops(Tail(r.node, r, n + 1).kids))
      && Once(Tops(Head(r, n).kids)) && Once(Tops(Tail(r.node, r, n + 1).kids))
  {
    var l, r := s.kids[i], s.kids[i + 1];
    StealRightTops(l, s.kvs[i], r, n);
    PairNodes(s, i);
    PairTops(s, i);
    OnceSplit(Tops(Head(r, n).kids), Tops(Tail(r.node, r, n + 1).kids), Tops(r.kids));
  }

  lemma MovedTwice(m: Mem, m': Mem, m'': Mem, t: multiset<Node>, t': multiset<Node>)
    requires Moved(m, m', multiset{}, t) && Moved(m', m'', multiset{}, t')
    ensures Moved(m, m'', multiset{}, t + t')
  {
  }

  /** Relinking the left child's new children and then all of the right child's. */
  lemma StealRightLinks(m1: Mem, m2: Mem, m3: Mem, l: Tree, kv: KV, r: Tree, n: nat)
    requires SameKind(l, r) && n < |r.kvs|
    requires Apart(Tops(Head(r, n).kids), Tops(Tail(r.node, r, n + 1).kids))
    requires var (h, t) := (Join(l.node, l, kv, Head(r, n)), Tail(r.node, r, n + 1));
      && Relinked(m1, m2, l.node, KidNodes(h.kids), |l.kids|, |h.kids|)
      && Relinked(m2, m3, r.node, KidNodes(t.kids), 0, |t.kids|)
    ensures Moved(m1, m3, multiset{}, Tops(r.kids))
    ensures LinkedFrom(m3, l.node, Head(r, n).kids, |l.kids|) && LinkedFrom(m3, r.node, Tail(r.node, r, n + 1).kids, 0)
  {
    hide Relinked, Moved, LinkedFrom, Tops;
    var h, t, k := Join(l.node, l, kv, Head(r, n)), Tail(r.node, r, n + 1), Head(r, n).kids;
    StealRightTops(l, kv, r, n);
    RelinkedTrees(m1, m2, l.node, h.kids, |l.kids|, |h.kids|);
    RelinkedTrees(m2, m3, r.node, t.kids, 0, |t.kids|);
    assert t.kids[0..|t.kids|] == t.kids;
    MovedTwice(m1, m2, m3, Tops(k), Tops(t.kids));
    LinksKept(m2, m3, multiset{}, Tops(t.kids), l.node, k, |l.kids|);
  }

  lemma StealRightRep(m: Mem, m1: Mem, m2: Mem, m3: Mem, s: Tree, i: nat, n: nat)
    requires Rep(m, s) && Once(Bag(s)) && Pair(s, i) && n < |s.kids[i + 1].kvs|
    requires |s.kids[i].kvs| + 1 + n <= CAPACITY
    requires var (l, r) := (s.kids[i], s.kids[i + 1]);
      var (h, t) := (Join(l.node, l, s.kvs[i], Head(r, n)), Tail(r.node, r, n + 1));
      && Written(m, m1, s, i, h, r.kvs[n], t)
      && Relinked(m1, m2, l.node, KidNodes(h.kids), |l.kids|, |h.kids|)
      && Relinked(m2, m3, r.node, KidNodes(t.kids), 0, |t.kids|)
    ensures Rep(m3, StolenRight(s, i, n)) && Within(m, m3, Bag(s)) && SameLink(m, m3, s.node)
  {
    hide Once, Moved, Relinked, Written, Exchanged, Tops;
    var l, r := s.kids[i], s.kids[i + 1];
    var h, t := Join(l.node, l, s.kvs[i], Head(r, n)), Tail(r.node, r, n + 1);
    StealRightApart(s, i, n);
    StealRightLinks(m1, m2, m3, l, s.kvs[i], r, n);
    assert Tops(r.kids) <= Tops(l.kids) + Tops(r.kids);
    WrittenThenMoved(m, m1, m3, s, i, h, r.kvs[n], t, Tops(r.kids));
    assert Rep(m, l) && Rep(m, r);
    assert Rep(m3, h) && Rep(m3, t) by {
      assert Reps(m3, l.kids) && Reps(m3, r.kids) by { ExchangedKids(m, m3, s, i, r.kvs[n]); }
      StealRightKids(m3, l, s.kvs[i], r, n);
      RepLinks(m, l, 0, |l.kids|);
      assert l.kids[0..|l.kids|] == l.kids;
      LinksKept(m, m3, EditedBy(s, i), Tops(r.kids), l.node, l.kids, 0);
      LinksConcat(m3, l.node, l.kids, Head(r, n).kids);
      NodeRep(m3, h);
      NodeRep(m3, t);
    }
    ExchangedRep(m, m3, s, i, h, r.kvs[n], t);
  }

  lemma LinksConcat(m: Mem, p: Node, a: seq<Tree>, b: seq<Tree>)
    requires LinkedFrom(m, p, a, 0) && LinkedFrom(m, p, b, |a|)
    ensures LinkedFrom(m, p, a + b, 0)
  {
  }

  lemma StealRightSlots(m: Mem, m1: Mem, s: Tree, i: nat, n: nat)
    requires Rep(m, s) && Once(Bag(s)) && Pair(s, i) && n < |s.kids[i + 1].kvs|
    requires var (l, r) := (s.kids[i], s.kids[i + 1]);
      Written(m, m1, s, i, Join(l.node, l, s.kvs[i], Head(r, n)), r.kvs[n], Tail(r.node, r, n + 1))
    ensures var (l, r) := (s.kids[i], s.kids[i + 1]);
      var (h, t) := (Join(l.node, l, s.kvs[i], Head(r, n)), Tail(r.node, r, n + 1));
      && l.node in m1 && Says(m1, h) && Slots(m1, l.node, KidNodes(h.kids), |l.kids|, |h.kids|)
      && r.node in m1 && Says(m1, t) && Slots(m1, r.node, KidNodes(t.kids), 0, |t.kids|)
      && SameKind(h, l) && SameKind(h, t) && |l.kids| <= |h.kids|
  {
    hide Bag, Bags, Tops;
    var l, r := s.kids[i], s.kids[i + 1];
    var h, t := Join(l.node, l, s.kvs[i], Head(r, n)), Tail(r.node, r, n + 1);
    StealRightTops(l, s.kvs[i], r, n);
    PairNodes(s, i);
    StealRightApart(s, i, n);
    assert t.kids[0..|t.kids|] == t.kids;
    WrittenNodes(m, m1, s, i, h, r.kvs[n], t);
    SlotsOf(m1, l.node, h.kids, |l.kids|, |h.kids|);
    SlotsOf(m1, r.node, t.kids, 0, |t.kids|);
  }

  /** Slots below a node stay slots while links of other nodes change. */
  lemma SlotsKept(m1: Mem, m2: Mem, p: Node, es: seq<Node?>, lo: nat, hi: nat, q: Node, es': seq<Node?>, lo': nat,
                  hi': nat)
    requires Slots(m1, p, es, lo, hi) && lo' <= hi' <= |es'| && Relinked(m1, m2, q, es', lo', hi')
    ensures Slots(m2, p, es, lo, hi)
  {
    LinksOnly(m1, m2, q, es', lo', hi');
    assert SameData(m1, m2, p);
  }

  method StealRightData(parent: Node, left: Node, right: Node, i: nat, n: nat, pool: Pool, ghost s: Tree)
    requires pool.Valid() && Rep(pool.Mem(), s) && Once(Bag(s)) && Pair(s, i) && s.node == parent
    requires left == s.kids[i].node && right == s.kids[i + 1].node && left in pool.nodes && right in pool.nodes
    requires n < |s.kids[i + 1].kvs| && |s.kids[i].kvs| + 1 + n <= CAPACITY
    modifies pool.nodes, pool.kvBuffers, pool.edgeBuffers
    ensures pool.Valid()
    ensures var (l, r) := (s.kids[i], s.kids[i + 1]);
      var j := Join(l.node, l, s.kvs[i], Head(r, n));
      Written(old(pool.Mem()), pool.Mem(), s, i, j, r.kvs[n], Tail(r.node, r, n + 1))
  {
    hide Rep, Once, Tops, Bag, Bags, Written, Pool.Mem, Pool.Valid;
    ghost var m, l, r := pool.Mem(), s.kids[i], s.kids[i + 1];
    ghost var h, t := Join(l.node, l, s.kvs[i], Head(r, n)), Tail(r.node, r, n + 1);
    assert left != right && left != parent && right != parent by { PairNodes(s, i); }
    RepKid(m, s, i);
    RepKid(m, s, i + 1);
    RepNode(m, l);
    RepNode(m, r);
    var kv := SwapUp(parent, i, right, n, pool, s, r);
    ghost var m1 := pool.Mem();
    Cells.StealFromRight(left, right, n + 1, kv, pool);
    StealRightEdges(l, s.kvs[i], r, n);
    WrittenBy(m, m1, pool.Mem(), s, i, h, r.kvs[n], t, pool.Mem()[left], pool.Mem()[right]);
  }

  method RelinkBoth(left: Node, oldLeftLen: nat, right: Node, pool: Pool, ghost l: Tree, ghost h: Tree, ghost t: Tree)
    returns (ghost mid: Mem)
    requires pool.Valid() && left in pool.nodes && right in pool.nodes && left == h.node && right == t.node
    requires Says(pool.Mem(), h) && Says(pool.Mem(), t) && SameKind(h, l) && SameKind(h, t) && oldLeftLen == |l.kvs|
    requires |l.kids| <= |h.kids|
    requires Slots(pool.Mem(), left, KidNodes(h.kids), |l.kids|, |h.kids|)
    requires Slots(pool.Mem(), right, KidNodes(t.kids), 0, |t.kids|)
    modifies pool.nodes
    ensures pool.Valid()
    ensures Relinked(old(pool.Mem()), mid, left, KidNodes(h.kids), |l.kids|, |h.kids|)
    ensures Relinked(mid, pool.Mem(), right, KidNodes(t.kids), 0, |t.kids|)
  {
    ghost var m := pool.Mem();
    CorrectLinksFrom(left, oldLeftLen + 1, pool);
    mid := pool.Mem();
    if h.kids == [] {
      RelinkedNone(m, left);
    } else {
      SlotsKept(m, mid, right, KidNodes(t.kids), 0, |t.kids|, left, KidNodes(h.kids), |l.kids|, |h.kids|);
      assert mid[right].kvs == m[right].kvs by { LinksOnly(m, mid, left, KidNodes(h.kids), |l.kids|, |h.kids|); }
    }
    CorrectLinksFrom(right, 0, pool);
    if t.kids == [] { RelinkedNone(mid, right); }
  }

  lemma LinksOnly(m: Mem, m': Mem, q: Node, es: seq<Node?>, lo: nat, hi: nat)
    requires lo <= hi <= |es| && Relinked(m, m', q, es, lo, hi)
    ensures forall n :: n in m ==> SameData(m, m', n)
  {
    forall n | n in m ensures SameData(m, m', n) {
      if n in es[lo..hi] {
        var j :| 0 <= j < hi - lo && es[lo..hi][j] == n;
        assert es[lo + j] == n;
      }
    }
  }

  method StealRightRelink(left: Node, oldLeftLen: nat, right: Node, pool: Pool, ghost m: Mem, ghost s: Tree,
                          ghost i: nat, ghost n: nat)
    requires pool.Valid() && Rep(m, s) && Once(Bag(s)) && Pair(s, i) && pool.nodes == m.Keys
    requires left == s.kids[i].node && right == s.kids[i + 1].node && oldLeftLen == |s.kids[i].kvs|
    requires n < |s.kids[i + 1].kvs| && |s.kids[i].kvs| + 1 + n <= CAPACITY
    requires var (l, r) := (s.kids[i], s.kids[i + 1]);
      Written(m, pool.Mem(), s, i, Join(l.node, l, s.kvs[i], Head(r, n)), r.kvs[n], Tail(r.node, r, n + 1))
    modifies pool.nodes
    ensures pool.Valid()
    ensures Rep(pool.Mem(), StolenRight(s, i, n)) && Within(m, pool.Mem(), Bag(s)) && SameLink(m, pool.Mem(), s.node)
  {
    hide Once, Tops, Bag, Bags, Within, Relinked, Slots, Written, Pool.Mem, Pool.Valid;
    ghost var m1, l, r := pool.Mem(), s.kids[i], s.kids[i + 1];
    ghost var h, t := Join(l.node, l, s.kvs[i], Head(r, n)), Tail(r.node, r, n + 1);
    StealRightSlots(m, m1, s, i, n);
    ghost var m2 := RelinkBoth(left, oldLeftLen, right, pool, l, h, t);
    StealRightRep(m, m1, m2, pool.Mem(), s, i, n);
  }

  method StealRightFrom(parent: Node, left: Node, right: Node, oldLeftLen: nat, i: nat, n: nat, pool: Pool,
                        ghost s: Tree)
    requires pool.Valid() && Rep(pool.Mem(), s) && Once(Bag(s)) && Pair(s, i) && s.node == parent
    requires left == s.kids[i].node && right == s.kids[i + 1].node && left in pool.nodes && right in pool.nodes
    requires oldLeftLen == |s.kids[i].kvs|
    requires n < |s.kids[i + 1].kvs| && |s.kids[i].kvs| + 1 + n <= CAPACITY
    modifies pool.nodes, pool.kvBuffers, pool.edgeBuffers
    ensures pool.Valid()
    ensures Rep(pool.Mem(), StolenRight(s, i, n)) && Within(old(pool.Mem()), pool.Mem(), Bag(s))
    ensures SameLink(old(pool.Mem()), pool.Mem(), parent)
  {
    hide Once, Tops, Bag, Bags, Within, Written, Rep, SameLink;
    ghost var m := pool.Mem();
    StealRightData(parent, left, right, i, n, pool, s);
    StealRightRelink(left, oldLeftLen, right, pool, m, s, i, n);
  }

  /** Moves the pairs of the right child up to `n` to the left child, pair `n` through the parent. */
  method StealRight(parent: Node, i: nat, n: nat, pool: Pool, ghost s: Tree)
    requires pool.Valid() && Rep(pool.Mem(), s) && Once(Bag(s)) && Pair(s, i) && s.node == parent
    requires n < |s.kids[i + 1].kvs| && |s.kids[i].kvs| + 1 + n <= CAPACITY
    modifies pool.nodes, pool.kvBuffers, pool.edgeBuffers
    ensures pool.Valid()
    ensures Rep(pool.Mem(), StolenRight(s, i, n)) && Within(old(pool.Mem()), pool.Mem(), Bag(s))
    ensures SameLink(old(pool.Mem()), pool.Mem(), parent)
  {
    hide Once, Tops, Bag, Bags, Within, Rep, SameLink, Pool.Mem, Pool.Valid;
    ghost var m := pool.Mem();
    var left := Descend(parent, i, pool, s);
    var right := Descend(parent, i + 1, pool, s);
    assert Rep(m, s.kids[i]) by { RepKid(m, s, i); }
    var oldLeftLen := Len(left, pool, s.kids[i]);
    StealRightFrom(parent, left, right, oldLeftLen, i, n, pool, s);
  }
}
