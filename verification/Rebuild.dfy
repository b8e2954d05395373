/** Splitting a node in two, and hanging a tree into a node, in memory. */
module Rebuild {
  import opened Nodes
  import opened Trees
  import opened Memory
  import opened Edits
  import opened Places
  import opened Balance
  import Cells

  /** A node with other contents holds its children if those from edge `at` on were linked to it and the links of
      the others did not change. Meanwhile the nodes `e` were edited and the nodes `t` moved. */
  lemma Rebuilt(m: Mem, m': Mem, w: Tree, at: nat, e: multiset<Node>, t: multiset<Node>)
    requires Says(m', w) && Arity(w) && |w.kvs| <= CAPACITY && at <= |w.kids|
    requires Reps(m, w.kids) && Moved(m, m', e, t)
    requires Apart(Bags(w.kids), e) && Apart(Inner(w.kids), t) && Apart(Tops(w.kids[..at]), t)
    requires LinkedFrom(m, w.node, w.kids[..at], 0) && LinkedFrom(m', w.node, w.kids[at..], at)
    ensures Rep(m', w)
  {
    hide Moved, Rep;
    assert w.kids == w.kids[..at] + w.kids[at..];
    RepsMoved(m, m', e, t, w.kids);
    TopsInner(w.kids);
    TopsConcat(w.kids[..at], w.kids[at..]);
    assert Apart(Tops(w.kids[..at]), e);
    LinksKept(m, m', e, t, w.node, w.kids[..at], 0);
    LinksConcat(m', w.node, w.kids[..at], w.kids[at..]);
    NodeRep(m', w);
  }

  // ----- Splitting

  /** The two parts have been written, to `h` and the new `r`; the links are still the old ones. */
  ghost predicate Parted(m: Mem, m': Mem, h: Tree, r: Tree) {
    && r.node !in m && m'.Keys == m.Keys + {r.node}
    && Says(m', h) && Says(m', r) && m'[r.node].parent == null
    && SameLink(m, m', h.node) && Moved(m, m', multiset{h.node, r.node}, multiset{})
  }

  lemma PartedBy(m: Mem, m1: Mem, m2: Mem, h: Tree, r: Tree, c: Cell, ch: Cell, cr: Cell)
    requires h.node in m && r.node !in m && m1 == m[r.node := c] && c.parent == null
    requires m2 == Cells.Put2(m1, h.node, ch, r.node, cr)
    requires ch == m[h.node].(kvs := h.kvs, edges := KidNodes(h.kids))
    requires cr == c.(kvs := r.kvs, edges := KidNodes(r.kids))
    ensures Parted(m, m2, h, r)
  {
    assert h.node != r.node;
    forall n | n in m && n !in multiset{h.node, r.node} ensures n in m2 && m2[n] == m[n] {}
  }

  method NewSibling(node: Node, pool: Pool, ghost s: Tree) returns (right: Node)
    requires pool.Valid() && Rep(pool.Mem(), s) && s.node == node
    modifies pool
    ensures pool.Valid() && fresh(right) && fresh(pool.Repr() - old(pool.Repr())) && right.Sized()
    ensures var c := right.View(); c.parent == null && c.kvs == [] && (c.edges == [] <==> s.kids == [])
    ensures pool.Mem() == old(pool.Mem())[right := right.View()]
  {
    assert pool.Mem()[node] == node.View();
    if node.edges.Length == 0 {
      right := pool.NewLeaf();
    } else {
      right := pool.NewInternal();
    }
  }

  lemma PartEdges(s: Tree, i: nat, right: Node)
    requires Arity(s) && i < |s.kvs|
    ensures var es := KidNodes(s.kids);
      && KidNodes(Head(s, i).kids) == (if es == [] then [] else es[..i + 1])
      && KidNodes(Tail(right, s, i + 1).kids) == (if es == [] then [] else es[i + 1..])
  {
    if s.kids != [] {
      KidNodesSlice(s.kids, 0, i + 1);
      KidNodesSlice(s.kids, i + 1, |s.kids|);
      assert s.kids[0..i + 1] == s.kids[..i + 1] && s.kids[i + 1..|s.kids|] == s.kids[i + 1..];
    }
  }

  method PartData(node: Node, i: nat, right: Node, pool: Pool, ghost m: Mem, ghost s: Tree) returns (kv: KV)
    requires pool.Valid() && Rep(m, s) && s.node == node && i < |s.kvs| && right !in m && right in pool.nodes
    requires var c := pool.Mem()[right];
      pool.Mem() == m[right := c] && c.parent == null && c.kvs == [] && (c.edges == [] <==> s.kids == [])
    modifies pool.nodes, pool.kvBuffers, pool.edgeBuffers
    ensures pool.Valid() && kv == s.kvs[i] && Arity(s) && Parted(m, pool.Mem(), Head(s, i), Tail(right, s, i + 1))
  {
    hide Rep, Parted;
    RepNode(m, s);
    ghost var m1 := pool.Mem();
    assert node in m1 && m1[node] == m[node] && node != right;
    kv := Cells.SplitData(node, i, right, pool);
    PartEdges(s, i, right);
    ghost var m2 := pool.Mem();
    PartedBy(m, m1, m2, Head(s, i), Tail(right, s, i + 1), m1[right], m2[node], m2[right]);
  }

  /** The nodes of the two parts are those of the whole and the new one. */
  lemma PartNodes(m: Mem, s: Tree, i: nat, right: Node)
    requires Rep(m, s) && Once(Bag(s)) && i < |s.kvs| && right !in m
    ensures var (h, r) := (Head(s, i), Tail(right, s, i + 1));
      && Bag(h) + Bag(r) == Bag(s) + multiset{right} && Once(Bag(h) + Bag(r))
      && (forall n :: n in Bag(s) ==> n in m)
  {
    var h, r := Head(s, i), Tail(right, s, i + 1);
    assert Bags(s.kids) == Bags(h.kids) + Bags(r.kids) by { BagCut(s, i, right); }
    RepIn(m, s);
    OnceJoin(Bag(s), multiset{right});
  }

  /** What splitting must not confuse: the two nodes, the roots of the children and what is below them. */
  lemma PartApart(m: Mem, s: Tree, i: nat, right: Node)
    requires Rep(m, s) && Once(Bag(s)) && i < |s.kvs| && right !in m
    ensures var (h, r) := (Head(s, i), Tail(right, s, i + 1));
      var (e, t) := (multiset{s.node, right}, Tops(r.kids));
      && Apart(Bags(h.kids), e) && Apart(Bags(r.kids), e)
      && Apart(Inner(h.kids), t) && Apart(Inner(r.kids), t) && Apart(Tops(h.kids), t)
      && Once(t) && s.node !in t && right !in t
  {
    hide Rep, Bag, Bags, Tops, Inner, Head, Tail;
    RepNode(m, s);
    var h, r := Head(s, i), Tail(right, s, i + 1);
    PartNodes(m, s, i, right);
    PartSums(s, i, right);
    var th, ih, tr, ir := Tops(h.kids), Inner(h.kids), Tops(r.kids), Inner(r.kids);
    TopsInner(h.kids);
    TopsInner(r.kids);
    PartSplit(s.node, right, th, ih, tr, ir);
  }

  lemma PartSums(s: Tree, i: nat, right: Node)
    requires Arity(s) && i < |s.kvs|
    ensures Bag(Head(s, i)) == multiset{s.node} + Bags(Head(s, i).kids)
    ensures Bag(Tail(right, s, i + 1)) == multiset{right} + Bags(Tail(right, s, i + 1).kids)
  {
  }

  lemma PartSplit(x: Node, y: Node, th: multiset<Node>, ih: multiset<Node>, tr: multiset<Node>, ir: multiset<Node>)
    requires Once((multiset{x} + (th + ih)) + (multiset{y} + (tr + ir)))
    ensures var e := multiset{x, y};
      && Apart(th + ih, e) && Apart(tr + ir, e) && Apart(ih, tr) && Apart(ir, tr) && Apart(th, tr)
      && Once(tr) && x !in tr && y !in tr
  {
    var e := multiset{x, y};
    var all := (multiset{x} + (th + ih)) + (multiset{y} + (tr + ir));
    assert all == e + ((th + ih) + (tr + ir)) == (e + th + ih) + ir + tr;
    OnceSplit(e, (th + ih) + (tr + ir), all);
    OnceSplit((e + th + ih) + ir, tr, all);
    forall n | n in tr ensures n !in th && n !in ih && n !in ir && n !in e {}
  }

  /** The new node's children have been linked to it. */
  lemma PartMoved(m: Mem, m1: Mem, m2: Mem, s: Tree, i: nat, right: Node)
    requires Rep(m, s) && Once(Bag(s)) && i < |s.kvs|
    requires var (h, r) := (Head(s, i), Tail(right, s, i + 1));
      Parted(m, m1, h, r) && Relinked(m1, m2, right, KidNodes(r.kids), 0, |r.kids|)
    ensures var (h, r) := (Head(s, i), Tail(right, s, i + 1));
      && Moved(m, m2, multiset{s.node, right}, Tops(r.kids)) && Says(m2, h) && Says(m2, r) && SameLink(m, m2, s.node)
      && m2[right].parent == null && LinkedFrom(m2, right, r.kids, 0) && right !in m && m2.Keys == m.Keys + {right}
  {
    hide Relinked, Rep, Tops, Bag, Bags, Once, Moved;
    RepNode(m, s);
    var r := Tail(right, s, i + 1);
    var e, t := multiset{s.node, right}, Tops(r.kids);
    PartApart(m, s, i, right);
    assert r.kids[0..|r.kids|] == r.kids;
    RelinkedTrees(m1, m2, right, r.kids, 0, |r.kids|);
    MovedTrans(m, m1, m2, e, multiset{}, multiset{}, t);
    assert e + multiset{} == e && multiset{} + t == t;
    RelinkedKeys(m1, m2, right, r.kids);
    MovedNode(m1, m2, t, s.node);
    MovedNode(m1, m2, t, right);
  }

  lemma PartRep(m: Mem, m1: Mem, m2: Mem, s: Tree, i: nat, right: Node)
    requires Rep(m, s) && Once(Bag(s)) && i < |s.kvs|
    requires var (h, r) := (Head(s, i), Tail(right, s, i + 1));
      Parted(m, m1, h, r) && Relinked(m1, m2, right, KidNodes(r.kids), 0, |r.kids|)
    ensures Rep(m2, Head(s, i)) && Rep(m2, Tail(right, s, i + 1)) && SameLink(m, m2, s.node) && m2[right].parent == null
    ensures Edited(m, m2, Bag(s), Bag(Head(s, i)) + Bag(Tail(right, s, i + 1)))
  {
    hide Relinked, Rep, Tops, Bag, Bags, Once, Moved, Says, Parted, KidNodes, Edited;
    RepNode(m, s);
    var h, r := Head(s, i), Tail(right, s, i + 1);
    var e, t := multiset{s.node, right}, Tops(r.kids);
    PartMoved(m, m1, m2, s, i, right);
    PartApart(m, s, i, right);
    PartKids(m, s, i, right);
    Rebuilt(m, m2, h, |h.kids|, e, t);
    Rebuilt(m, m2, r, 0, e, t);
    PartEdited(m, m2, s, i, right);
  }

  lemma MovedNode(m: Mem, m': Mem, t: multiset<Node>, n: Node)
    requires Moved(m, m', multiset{}, t) && n in m && n !in t
    ensures n in m' && m'[n] == m[n]
  {
  }

  lemma RelinkedKeys(m: Mem, m': Mem, p: Node, kids: seq<Tree>)
    requires Relinked(m, m', p, KidNodes(kids), 0, |kids|)
    ensures m'.Keys == m.Keys
  {
  }

  lemma PartKids(m: Mem, s: Tree, i: nat, right: Node)
    requires Rep(m, s) && i < |s.kvs|
    ensures var (h, r) := (Head(s, i), Tail(right, s, i + 1));
      && Reps(m, h.kids) && Reps(m, r.kids)
      && h.kids[..|h.kids|] == h.kids && h.kids[|h.kids|..] == [] && r.kids[..0] == [] && r.kids[0..] == r.kids
      && LinkedFrom(m, s.node, h.kids, 0) && Tops([]) == multiset{} && |h.kvs| <= CAPACITY && |r.kvs| <= CAPACITY
  {
    RepLinks(m, s, 0, |Head(s, i).kids|);
  }

  lemma PartEdited(m: Mem, m': Mem, s: Tree, i: nat, right: Node)
    requires Rep(m, s) && Once(Bag(s)) && i < |s.kvs| && right !in m && m'.Keys == m.Keys + {right}
    requires Moved(m, m', multiset{s.node, right}, Tops(Tail(right, s, i + 1).kids))
    ensures Edited(m, m', Bag(s), Bag(Head(s, i)) + Bag(Tail(right, s, i + 1)))
  {
    hide Rep, Bags, Tops, Moved, Once;
    RepNode(m, s);
    var h, r := Head(s, i), Tail(right, s, i + 1);
    PartNodes(m, s, i, right);
    assert Tops(r.kids) <= Bag(r) by { TopsInner(r.kids); }
    assert s.node in Bag(s) && right in Bag(r);
    PartedBags(m, m', s.node, right, Bag(s), Bag(h), Bag(r), Tops(r.kids));
  }

  lemma PartedBags(m: Mem, m': Mem, n: Node, right: Node, bs: multiset<Node>, bh: multiset<Node>, br: multiset<Node>,
                   t: multiset<Node>)
    requires right !in m && m'.Keys == m.Keys + {right} && Moved(m, m', multiset{n, right}, t)
    requires bh + br == bs + multiset{right} && t <= br && n in bs && forall x :: x in bs ==> x in m
    ensures Edited(m, m', bs, bh + br)
  {
    forall x | x in m && x !in bs ensures x in m' && m'[x] == m[x] {
      assert x !in bh + br;
    }
    forall x | x in bh + br ensures x in m' && (x in bs || x !in m) { assert x in bs + multiset{right}; }
    forall x | x in m' ensures x in bh + br || (x in m && x !in bs) { assert x == right || x in m; }
  }

  lemma PartSlots(m: Mem, m1: Mem, s: Tree, i: nat, right: Node)
    requires Rep(m, s) && Once(Bag(s)) && i < |s.kvs|
    requires Parted(m, m1, Head(s, i), Tail(right, s, i + 1))
    ensures var r := Tail(right, s, i + 1);
      && right in m1 && Says(m1, r) && Slots(m1, right, KidNodes(r.kids), 0, |r.kids|)
      && (r.kids != [] ==> |r.kids| == |r.kvs| + 1)
  {
    hide Rep, Bag, Bags, Tops, Once, Slots;
    RepNode(m, s);
    var r := Tail(right, s, i + 1);
    PartApart(m, s, i, right);
    assert r.kids[0..|r.kids|] == r.kids;
    PartKidsIn(m, m1, s, i, right);
    SlotsOf(m1, right, r.kids, 0, |r.kids|);
  }

  lemma PartKidsIn(m: Mem, m1: Mem, s: Tree, i: nat, right: Node)
    requires Rep(m, s) && i < |s.kvs| && m1.Keys == m.Keys + {right}
    ensures var r := Tail(right, s, i + 1); forall j :: 0 <= j < |r.kids| ==> r.kids[j].node in m1
  {
    var r := Tail(right, s, i + 1);
    forall j | 0 <= j < |r.kids| ensures r.kids[j].node in m1 { RepKid(m, s, i + 1 + j); }
  }

  method PartLinks(right: Node, pool: Pool, ghost m: Mem, ghost s: Tree, ghost i: nat)
    requires pool.Valid() && Rep(m, s) && Once(Bag(s)) && i < |s.kvs| && right in pool.nodes
    requires Parted(m, pool.Mem(), Head(s, i), Tail(right, s, i + 1))
    modifies pool.nodes
    ensures pool.Valid()
    ensures var kids := Tail(right, s, i + 1).kids;
      Relinked(old(pool.Mem()), pool.Mem(), right, KidNodes(kids), 0, |kids|)
  {
    hide Rep, Bag, Bags, Once, Relinked, Slots, Parted, Pool.Mem, Pool.Valid;
    RepNode(m, s);
    ghost var m1 := pool.Mem();
    PartSlots(m, m1, s, i, right);
    CorrectLinksFrom(right, 0, pool);
    if Tail(right, s, i + 1).kids == [] { RelinkedNone(m1, right); }
  }

  /** Splits a node at pair `i`, which is taken out; what is right of it goes to a new node. */
  method SplitNode(node: Node, i: nat, pool: Pool, ghost s: Tree) returns (kv: KV, right: Node)
    requires pool.Valid() && Rep(pool.Mem(), s) && Once(Bag(s)) && s.node == node && i < |s.kvs|
    modifies pool, pool.nodes, pool.kvBuffers, pool.edgeBuffers
    ensures pool.Valid() && fresh(pool.Repr() - old(pool.Repr())) && fresh(right)
    ensures kv == s.kvs[i] && Arity(s)
    ensures var (h, r) := (Head(s, i), Tail(right, s, i + 1));
      && Rep(pool.Mem(), h) && Rep(pool.Mem(), r) && Once(Bag(h) + Bag(r))
      && SameLink(old(pool.Mem()), pool.Mem(), node) && pool.Mem()[right].parent == null
      && Edited(old(pool.Mem()), pool.Mem(), Bag(s), Bag(h) + Bag(r))
  {
    hide Rep, Bag, Bags, Once, Relinked, Parted, SameLink, Edited;
    ghost var m := pool.Mem();
    right := NewSibling(node, pool, s);
    assert right in pool.Mem() && right !in m;
    kv := PartData(node, i, right, pool, m, s);
    ghost var m1 := pool.Mem();
    PartLinks(right, pool, m, s, i);
    PartRep(m, m1, pool.Mem(), s, i, right);
    PartNodes(m, s, i, right);
  }

  /** Splits the node at `p`. */
  method Split(node: Node, i: nat, pool: Pool, ghost t: Tree, ghost p: Path)
    returns (kv: KV, right: Node, ghost t': Tree, ghost r: Tree)
    requires pool.Valid() && Holds(pool.Mem(), t) && At(t, p, node) && i < |SubAt(t, p).kvs|
    modifies pool, pool.nodes, pool.kvBuffers, pool.edgeBuffers
    ensures pool.Valid() && fresh(pool.Repr() - old(pool.Repr())) && fresh(right)
    ensures Arity(SubAt(t, p)) && kv == SubAt(t, p).kvs[i]
    ensures t' == SetAt(t, p, Head(SubAt(t, p), i)) && r == Tail(right, SubAt(t, p), i + 1)
    ensures Divides(old(pool.Mem()), pool.Mem(), t, t', r)
  {
    hide Rep, Bag, Bags, Once, Holds, SameLink, Edited, SubAt, ValidPath, Divides, Pool.Mem, Pool.Valid;
    ghost var m, s := pool.Mem(), SubAt(t, p);
    SubHeld(m, t, p);
    kv, right := SplitNode(node, i, pool, s);
    t', r := SetAt(t, p, Head(s, i)), Tail(right, s, i + 1);
    SplitAt(m, pool.Mem(), t, p, Head(s, i), r);
  }

  lemma SplitAt(m: Mem, m': Mem, t: Tree, p: Path, h: Tree, r: Tree)
    requires Holds(m, t) && ValidPath(t, p) && h.node == SubAt(t, p).node
    requires Rep(m', h) && Rep(m', r) && Once(Bag(h) + Bag(r)) && SameLink(m, m', h.node) && m'[r.node].parent == null
    requires Edited(m, m', Bag(SubAt(t, p)), Bag(h) + Bag(r))
    ensures Divides(m, m', t, SetAt(t, p, h), r)
  {
    hide Rep, Bag, Bags, Edited, SameLink;
    var t', br := SetAt(t, p, h), Bag(r);
    assert Bag(SubAt(t, p)) + multiset{} == Bag(SubAt(t, p)) && Bag(t) + multiset{} == Bag(t);
    EditAtWith(m, m', t, p, h, multiset{}, br);
    OnceSplit(Bag(t'), br, Bag(t') + br);
  }

  // ----- Hanging a tree into a node

  /** The node with another pair at `i`, and another child right of it. */
  ghost function WithChild(s: Tree, i: nat, kv: KV, r: Tree): Tree
    requires |s.kids| == |s.kvs| + 1 && i <= |s.kvs|
  {
    Tree(s.node, Put(s.kvs, i, kv), s.kids[..i + 1] + [r] + s.kids[i + 1..])
  }

  lemma BagWithChild(s: Tree, i: nat, kv: KV, r: Tree)
    requires |s.kids| == |s.kvs| + 1 && i <= |s.kvs|
    ensures Bag(WithChild(s, i, kv, r)) == Bag(s) + Bag(r)
  {
    var a, b := s.kids[..i + 1], s.kids[i + 1..];
    assert s.kids == a + b;
    BagsConcat(a, b);
    BagsConcat(a + [r], b);
    BagsConcat(a, [r]);
    BagsOne(r);
  }

  lemma EdgesWithChild(s: Tree, i: nat, kv: KV, r: Tree)
    requires |s.kids| == |s.kvs| + 1 && i <= |s.kvs|
    ensures var es := KidNodes(s.kids); KidNodes(WithChild(s, i, kv, r).kids) == es[..i + 1] + [r.node] + es[i + 1..]
  {
  }

  /** What relinking the children from `at` on must not confuse. */
  lemma OwnApart(w: Tree, at: nat)
    requires Once(Bag(w)) && at <= |w.kids|
    ensures var t := Tops(w.kids[at..]);
      && Apart(Bags(w.kids), multiset{w.node}) && Apart(Inner(w.kids), t) && Apart(Tops(w.kids[..at]), t)
      && Once(t) && w.node !in t
  {
    hide Bags, Tops, Inner;
    var a, b, c := Tops(w.kids[..at]), Tops(w.kids[at..]), Inner(w.kids);
    assert w.kids == w.kids[..at] + w.kids[at..];
    TopsConcat(w.kids[..at], w.kids[at..]);
    TopsInner(w.kids);
    assert Bag(w) == multiset{w.node} + (a + b + c);
    OwnSplit(w.node, a, b, c);
  }

  lemma OwnSplit(n: Node, a: multiset<Node>, b: multiset<Node>, c: multiset<Node>)
    requires Once(multiset{n} + (a + b + c))
    ensures Apart(a + b + c, multiset{n}) && Apart(c, b) && Apart(a, b) && Once(b) && n !in b
  {
    OnceSplit(multiset{n}, a + b + c, multiset{n} + (a + b + c));
    assert n in multiset{n};
    OnceSplit(a + b, c, a + b + c);
    OnceSplit(a, b, a + b);
    forall x | x in b ensures x != n && x !in c { assert x in a + b && x in a + b + c; }
  }

  lemma ToEnd(kids: seq<Tree>, lo: nat)
    requires lo <= |kids|
    ensures kids[lo..|kids|] == kids[lo..]
  {
  }

  /** The node has been written; the links are still the old ones. */
  ghost predicate Hung(m: Mem, m': Mem, w: Tree) {
    && w.node in m && Says(m', w) && SameLink(m, m', w.node) && m'.Keys == m.Keys
    && Moved(m, m', multiset{w.node}, multiset{})
  }

  method HangData(node: Node, i: nat, kv: KV, edge: Node, pool: Pool, ghost s: Tree, ghost r: Tree)
    requires pool.Valid() && Rep(pool.Mem(), s) && s.node == node && r.node == edge
    requires s.kids != [] && i <= |s.kvs| < CAPACITY
    modifies pool.nodes, pool.kvBuffers, pool.edgeBuffers
    ensures pool.Valid() && Hung(old(pool.Mem()), pool.Mem(), WithChild(s, i, kv, r))
  {
    hide Rep;
    ghost var m := pool.Mem();
    RepNode(m, s);
    Cells.InsertFitEdge(node, i, kv, edge, pool);
    EdgesWithChild(s, i, kv, r);
    MovedPut(m, pool.Mem(), node, pool.Mem()[node]);
  }

  lemma HungSlots(m: Mem, m1: Mem, s: Tree, i: nat, kv: KV, r: Tree)
    requires Rep(m, s) && Rep(m, r) && Once(Bag(s) + Bag(r)) && s.kids != [] && i <= |s.kvs|
    requires Hung(m, m1, WithChild(s, i, kv, r))
    ensures var w := WithChild(s, i, kv, r);
      w.node in m1 && Says(m1, w) && Slots(m1, w.node, KidNodes(w.kids), i + 1, |w.kids|) && |w.kids| == |w.kvs| + 1
  {
    hide Rep, Bag, Bags, Tops, Once, Slots;
    RepNode(m, s);
    var w := WithChild(s, i, kv, r);
    BagWithChild(s, i, kv, r);
    OwnApart(w, i + 1);
    assert w.kids[i + 1..|w.kids|] == w.kids[i + 1..];
    HungKids(m, s, i, kv, r);
    forall j | i + 1 <= j < |w.kids| ensures w.kids[j].node in m1 { RepNode(m, w.kids[j]); }
    SlotsOf(m1, w.node, w.kids, i + 1, |w.kids|);
  }

  lemma HungKids(m: Mem, s: Tree, i: nat, kv: KV, r: Tree)
    requires Rep(m, s) && Rep(m, r) && s.kids != [] && i <= |s.kvs|
    ensures var w := WithChild(s, i, kv, r); Reps(m, w.kids) && LinkedFrom(m, w.node, w.kids[..i + 1], 0)
  {
    RepLinks(m, s, 0, i + 1);
    var w := WithChild(s, i, kv, r);
    assert w.kids[..i + 1] == s.kids[0..i + 1];
  }

  /** The children behind the new one, as the node has them, are ready to be linked. */
  lemma HungReady(m: Mem, m1: Mem, s: Tree, i: nat, kv: KV, r: Tree, w: Tree)
    requires Rep(m, s) && Rep(m, r) && Once(Bag(s) + Bag(r)) && s.kids != [] && i <= |s.kvs|
    requires w == WithChild(s, i, kv, r) && Hung(m, m1, w)
    ensures w.node == s.node && w.node in m1 && m1[w.node].edges == KidNodes(w.kids)
    ensures |m1[w.node].kvs| + 1 == |w.kids| && Slots(m1, w.node, KidNodes(w.kids), i + 1, |w.kids|)
  {
    hide Rep, Bag, Bags, Once, Slots, Hung;
    HungSlots(m, m1, s, i, kv, r);
  }

  method HangLinks(node: Node, i: nat, pool: Pool, ghost m: Mem, ghost s: Tree, ghost kv: KV, ghost r: Tree)
    requires pool.Valid() && Rep(m, s) && Rep(m, r) && Once(Bag(s) + Bag(r)) && s.kids != [] && i <= |s.kvs|
    requires s.node == node && node in pool.nodes && Hung(m, pool.Mem(), WithChild(s, i, kv, r))
    modifies pool.nodes
    ensures pool.Valid()
    ensures var w := WithChild(s, i, kv, r);
      Relinked(old(pool.Mem()), pool.Mem(), node, KidNodes(w.kids), i + 1, |w.kids|)
  {
    hide Rep, Bag, Bags, Once, Relinked, Slots, Hung, WithChild, KidNodes;
    ghost var m1 := pool.Mem();
    RepNode(m, s);
    HungReady(m, m1, s, i, kv, r, WithChild(s, i, kv, r));
    assert m1[node] == node.View();
    CorrectChildrensParentLinks(node, i + 1, node.len + 1, pool);
  }

  lemma HungRep(m: Mem, m1: Mem, m2: Mem, s: Tree, i: nat, kv: KV, r: Tree)
    requires Rep(m, s) && Rep(m, r) && Once(Bag(s) + Bag(r)) && s.kids != [] && i <= |s.kvs| < CAPACITY
    requires var w := WithChild(s, i, kv, r);
      Hung(m, m1, w) && Relinked(m1, m2, w.node, KidNodes(w.kids), i + 1, |w.kids|)
    ensures var w := WithChild(s, i, kv, r);
      Rep(m2, w) && SameLink(m, m2, w.node) && Bag(w) == Bag(s) + Bag(r) && Edited(m, m2, Bag(s) + Bag(r), Bag(w))
  {
    hide Relinked, Rep, Tops, Bag, Bags, Once, Moved;
    RepNode(m, s);
    var w := WithChild(s, i, kv, r);
    var e, t := multiset{w.node}, Tops(w.kids[i + 1..]);
    BagWithChild(s, i, kv, r);
    OwnApart(w, i + 1);
    ToEnd(w.kids, i + 1);
    RelinkedTrees(m1, m2, w.node, w.kids, i + 1, |w.kids|);
    MovedTrans(m, m1, m2, e, multiset{}, multiset{}, t);
    assert e + multiset{} == e && multiset{} + t == t;
    MovedNode(m1, m2, t, w.node);
    HungKids(m, s, i, kv, r);
    Rebuilt(m, m2, w, i + 1, e, t);
    HungEdited(m, m1, m2, s, r, w, i + 1);
  }

  lemma HungEdited(m: Mem, m1: Mem, m2: Mem, s: Tree, r: Tree, w: Tree, at: nat)
    requires Rep(m, s) && Rep(m, r) && Bag(w) == Bag(s) + Bag(r) && at <= |w.kids|
    requires Moved(m, m2, multiset{w.node}, Tops(w.kids[at..])) && m1.Keys == m.Keys
    requires Relinked(m1, m2, w.node, KidNodes(w.kids), at, |w.kids|)
    ensures Edited(m, m2, Bag(s) + Bag(r), Bag(w))
  {
    hide Tops, Rep, Once, Moved, Bags;
    var t := Tops(w.kids[at..]);
    assert t <= Bag(w) by { TopsOfPart(w, at); }
    RepIn(m, s);
    RepIn(m, r);
    assert m2.Keys == m1.Keys;
    MovedWithin(m, m2, w.node, t, Bag(w));
  }

  lemma TopsOfPart(w: Tree, at: nat)
    requires at <= |w.kids|
    ensures Tops(w.kids[at..]) <= Bag(w) && w.node in Bag(w)
  {
    assert w.kids == w.kids[..at] + w.kids[at..];
    TopsConcat(w.kids[..at], w.kids[at..]);
    TopsInner(w.kids);
  }

  lemma MovedWithin(m: Mem, m': Mem, n: Node, t: multiset<Node>, b: multiset<Node>)
    requires Moved(m, m', multiset{n}, t) && t <= b && n in b
    ensures Within(m, m', b)
  {
  }

  /** Puts a pair at `i` of an internal node with room for it, and the tree `r` right of that pair. */
  method Hang(node: Node, i: nat, kv: KV, edge: Node, pool: Pool, ghost s: Tree, ghost r: Tree)
    requires pool.Valid() && Rep(pool.Mem(), s) && Rep(pool.Mem(), r) && Once(Bag(s) + Bag(r))
    requires s.node == node && r.node == edge && s.kids != [] && i <= |s.kvs| < CAPACITY
    modifies pool.nodes, pool.kvBuffers, pool.edgeBuffers
    ensures pool.Valid() && |s.kids| == |s.kvs| + 1
    ensures var w := WithChild(s, i, kv, r);
      && Rep(pool.Mem(), w) && SameLink(old(pool.Mem()), pool.Mem(), node) && Bag(w) == Bag(s) + Bag(r)
      && Edited(old(pool.Mem()), pool.Mem(), Bag(s) + Bag(r), Bag(w))
  {
    hide Rep, Bag, Bags, Once, Relinked, Hung, SameLink, Edited;
    ghost var m := pool.Mem();
    RepNode(m, s);
    HangData(node, i, kv, edge, pool, s, r);
    ghost var m1 := pool.Mem();
    HangLinks(node, i, pool, m, s, kv, r);
    HungRep(m, m1, pool.Mem(), s, i, kv, r);
  }

  /** Puts a pair at `i` of the internal node at `p`, and the tree `r` right of that pair. */
  method HangAt(node: Node, i: nat, kv: KV, edge: Node, pool: Pool, ghost t: Tree, ghost p: Path, ghost r: Tree)
    returns (ghost t': Tree)
    requires pool.Valid() && HoldsBoth(pool.Mem(), t, r) && At(t, p, node) && r.node == edge
    requires SubAt(t, p).kids != [] && i <= |SubAt(t, p).kvs| < CAPACITY
    modifies pool.nodes, pool.kvBuffers, pool.edgeBuffers
    ensures pool.Valid() && |SubAt(t, p).kids| == |SubAt(t, p).kvs| + 1
    ensures t' == SetAt(t, p, WithChild(SubAt(t, p), i, kv, r)) && Unites(old(pool.Mem()), pool.Mem(), t, r, t')
  {
    hide Rep, Bag, Bags, Once, Holds, SameLink, Edited, SubAt, ValidPath, Unites, Apart, Pool.Mem, Pool.Valid;
    ghost var m, s := pool.Mem(), SubAt(t, p);
    HangParts(m, t, p, r);
    Hang(node, i, kv, edge, pool, s, r);
    ghost var w := WithChild(s, i, kv, r);
    t' := SetAt(t, p, w);
    HungAt(m, pool.Mem(), t, p, w, r);
  }

  lemma HangParts(m: Mem, t: Tree, p: Path, r: Tree)
    requires HoldsBoth(m, t, r) && ValidPath(t, p)
    ensures Rep(m, SubAt(t, p)) && Rep(m, r) && Once(Bag(SubAt(t, p)) + Bag(r)) && Apart(Bag(t), Bag(r))
  {
    hide Rep, Bag, SubAt, Around, ValidPath;
    var a, s, b := Around(t, p), Bag(SubAt(t, p)), Bag(r);
    SubHeld(m, t, p);
    BagAt(t, p);
    OnceSplit(Bag(t), b, Bag(t) + b);
    assert Bag(t) + b == a + (s + b);
    OnceSplit(a, s + b, Bag(t) + b);
  }

  lemma HungAt(m: Mem, m': Mem, t: Tree, p: Path, w: Tree, r: Tree)
    requires Holds(m, t) && ValidPath(t, p) && w.node == SubAt(t, p).node && Apart(Bag(t), Bag(r))
    requires Rep(m', w) && SameLink(m, m', w.node) && Once(Bag(SubAt(t, p)) + Bag(r))
    requires Bag(w) == Bag(SubAt(t, p)) + Bag(r)
    requires Edited(m, m', Bag(SubAt(t, p)) + Bag(r), Bag(w))
    ensures Unites(m, m', t, r, SetAt(t, p, w))
  {
    hide Rep, Bag, Bags, Edited, SameLink;
    var t' := SetAt(t, p, w);
    assert Bag(w) + multiset{} == Bag(w) && Bag(t') + multiset{} == Bag(t');
    EditAtWith(m, m', t, p, w, Bag(r), multiset{});
  }

  // ----- Moving a suffix

  /** The empty node `b` with the pairs of `a` from `c` on, and the edges right of them. */
  ghost function Suffixed(b: Tree, a: Tree, c: nat): Tree
    requires Arity(a) && c <= |a.kvs|
  {
    Tree(b.node, a.kvs[c..], if a.kids == [] then [] else b.kids + a.kids[c + 1..])
  }

  ghost predicate SuffixPair(a: Tree, b: Tree) { SameKind(a, b) && b.kvs == [] }

  lemma BagSuffixed(a: Tree, b: Tree, c: nat)
    requires SuffixPair(a, b) && c <= |a.kvs|
    ensures Bag(Head(a, c)) + Bag(Suffixed(b, a, c)) == Bag(a) + Bag(b)
  {
    if a.kids != [] {
      assert a.kids == a.kids[..c + 1] + a.kids[c + 1..];
      BagsConcat(a.kids[..c + 1], a.kids[c + 1..]);
      BagsConcat(b.kids, a.kids[c + 1..]);
    }
  }

  lemma SuffixEdges(a: Tree, b: Tree, c: nat)
    requires SuffixPair(a, b) && c <= |a.kvs|
    ensures var (ea, eb) := (KidNodes(a.kids), KidNodes(b.kids));
      && KidNodes(Head(a, c).kids) == (if ea == [] then [] else ea[..c + 1])
      && KidNodes(Suffixed(b, a, c).kids) == (if ea == [] then [] else eb + ea[c + 1..])
  {
    if a.kids != [] {
      KidNodesSlice(a.kids, 0, c + 1);
      KidNodesSlice(a.kids, c + 1, |a.kids|);
      assert a.kids[0..c + 1] == a.kids[..c + 1] && a.kids[c + 1..|a.kids|] == a.kids[c + 1..];
      KidNodesConcat(b.kids, a.kids[c + 1..]);
    }
  }

  /** Both nodes have been written; the links are still the old ones. */
  ghost predicate Suffixing(m: Mem, m': Mem, h: Tree, r: Tree) {
    && m'.Keys == m.Keys && Says(m', h) && Says(m', r)
    && SameLink(m, m', h.node) && SameLink(m, m', r.node) && Moved(m, m', multiset{h.node, r.node}, multiset{})
  }

  method SuffixData(left: Node, c: nat, right: Node, pool: Pool, ghost a: Tree, ghost b: Tree)
    requires pool.Valid() && Rep(pool.Mem(), a) && Rep(pool.Mem(), b) && a.node == left && b.node == right
    requires left != right
    requires SuffixPair(a, b) && c <= |a.kvs|
    modifies pool.nodes, pool.kvBuffers, pool.edgeBuffers
    ensures pool.Valid() && Suffixing(old(pool.Mem()), pool.Mem(), Head(a, c), Suffixed(b, a, c))
  {
    hide Rep, Suffixing;
    ghost var m := pool.Mem();
    RepNode(m, a);
    RepNode(m, b);
    Cells.MoveSuffixData(left, c, right, pool);
    SuffixEdges(a, b, c);
    SuffixedBy(m, pool.Mem(), Head(a, c), Suffixed(b, a, c), pool.Mem()[left], pool.Mem()[right]);
  }

  lemma SuffixedBy(m: Mem, m': Mem, h: Tree, r: Tree, ch: Cell, cr: Cell)
    requires h.node in m && r.node in m && h.node != r.node && m' == Cells.Put2(m, h.node, ch, r.node, cr)
    requires ch == m[h.node].(kvs := h.kvs, edges := KidNodes(h.kids))
    requires cr == m[r.node].(kvs := r.kvs, edges := KidNodes(r.kids))
    ensures Suffixing(m, m', h, r)
  {
    forall n | n in m && n !in multiset{h.node, r.node} ensures n in m' && m'[n] == m[n] {}
  }

  lemma SuffixKids(m: Mem, a: Tree, b: Tree, c: nat)
    requires Rep(m, a) && Rep(m, b) && SuffixPair(a, b) && c <= |a.kvs|
    ensures var (h, r) := (Head(a, c), Suffixed(b, a, c));
      && Reps(m, h.kids) && Reps(m, r.kids)
      && h.kids[..|h.kids|] == h.kids && h.kids[|h.kids|..] == []
      && r.kids[..|b.kids|] == b.kids && r.kids[|b.kids|..] == (if a.kids == [] then [] else a.kids[c + 1..])
      && LinkedFrom(m, a.node, h.kids, 0) && LinkedFrom(m, b.node, b.kids, 0) && |h.kvs| <= CAPACITY
      && |r.kvs| <= CAPACITY
      && Arity(h) && Arity(r) && |b.kids| <= |r.kids| && forall j :: 0 <= j < |r.kids| ==> r.kids[j].node in m
  {
    RepLinks(m, a, 0, |Head(a, c).kids|);
    RepLinks(m, b, 0, |b.kids|);
    assert b.kids[0..|b.kids|] == b.kids;
  }

  ghost function Suffix(a: Tree, c: nat): seq<Tree>
    requires Arity(a) && c <= |a.kvs|
  {
    if a.kids == [] then [] else a.kids[c + 1..]
  }

  lemma SuffixApart(a: Tree, b: Tree, c: nat)
    requires SuffixPair(a, b) && c <= |a.kvs| && Once(Bag(a) + Bag(b))
    ensures var (h, r, e, t) := (Head(a, c), Suffixed(b, a, c), multiset{a.node, b.node}, Tops(Suffix(a, c)));
      && Apart(Bags(h.kids), e) && Apart(Bags(r.kids), e) && Apart(Inner(h.kids), t) && Apart(Inner(r.kids), t)
      && Apart(Tops(h.kids), t) && Apart(Tops(b.kids), t) && Once(t) && a.node !in t && b.node !in t && a.node != b.node
      && t <= Bag(a) + Bag(b)
  {
    hide Bags, Tops, Inner, Bag;
    var h, r := Head(a, c), Suffixed(b, a, c);
    BagSuffixed(a, b, c);
    BagOf(h);
    BagOf(r);
    TopsInner(h.kids);
    TopsInner(r.kids);
    assert r.kids == b.kids + Suffix(a, c);
    TopsConcat(b.kids, Suffix(a, c));
    SuffixSplit(a.node, b.node, Tops(h.kids), Inner(h.kids), Tops(b.kids), Tops(Suffix(a, c)), Inner(r.kids));
  }

  lemma BagOf(t: Tree)
    ensures Bag(t) == multiset{t.node} + Bags(t.kids)
  {
  }

  lemma SuffixSplit(x: Node, y: Node, th: multiset<Node>, ih: multiset<Node>, tb: multiset<Node>, t: multiset<Node>,
                    ir: multiset<Node>)
    requires Once((multiset{x} + (th + ih)) + (multiset{y} + (tb + t + ir)))
    ensures var e := multiset{x, y};
      && Apart(th + ih, e) && Apart(tb + t + ir, e) && Apart(ih, t) && Apart(ir, t) && Apart(th, t) && Apart(tb, t)
      && Once(t) && x !in t && y !in t && x != y && t <= (multiset{x} + (th + ih)) + (multiset{y} + (tb + t + ir))
  {
    var e, rest := multiset{x, y}, (th + ih) + (tb + t + ir);
    var all := (multiset{x} + (th + ih)) + (multiset{y} + (tb + t + ir));
    assert all == e + rest == (e + th + ih + tb + ir) + t;
    OnceSplit(e, rest, all);
    OnceSplit(e + th + ih + tb + ir, t, all);
    assert e[x] == 1;
    forall n | n in t ensures n !in th && n !in ih && n !in tb && n !in ir && n !in e {}
  }

  /** What relinking the children of `r` from `at` on must not confuse, beside the node `h`. */
  ghost predicate BesideApart(h: Tree, r: Tree, at: nat)
    requires at <= |r.kids|
  {
    var (e, t) := (multiset{h.node, r.node}, Tops(r.kids[at..]));
    && Apart(Bags(h.kids), e) && Apart(Bags(r.kids), e) && Apart(Inner(h.kids), t) && Apart(Inner(r.kids), t)
    && Apart(Tops(h.kids), t) && Apart(Tops(r.kids[..at]), t) && Once(t) && h.node !in t && r.node !in t
  }

  /** The children of both nodes are held, and those of `r` before `at` linked to it. */
  ghost predicate BesideKids(m: Mem, h: Tree, r: Tree, at: nat)
    requires at <= |r.kids|
  {
    && Reps(m, h.kids) && Reps(m, r.kids) && LinkedFrom(m, h.node, h.kids, 0) && LinkedFrom(m, r.node, r.kids[..at], 0)
    && Arity(h) && Arity(r) && |h.kvs| <= CAPACITY && |r.kvs| <= CAPACITY
    && forall j :: 0 <= j < |r.kids| ==> r.kids[j].node in m
  }

  lemma BesideSlots(m: Mem, m1: Mem, h: Tree, r: Tree, at: nat)
    requires at <= |r.kids| && BesideKids(m, h, r, at) && BesideApart(h, r, at) && Suffixing(m, m1, h, r)
    ensures r.node in m1 && Says(m1, r) && Slots(m1, r.node, KidNodes(r.kids), at, |r.kids|)
  {
    hide Rep, Bag, Bags, Tops, Once, Inner, Slots, LinkedFrom, Reps;
    ToEnd(r.kids, at);
    SlotsOf(m1, r.node, r.kids, at, |r.kids|);
  }

  lemma BesideRep(m: Mem, m1: Mem, m2: Mem, h: Tree, r: Tree, at: nat)
    requires at <= |r.kids| && BesideKids(m, h, r, at) && BesideApart(h, r, at) && Suffixing(m, m1, h, r)
    requires Relinked(m1, m2, r.node, KidNodes(r.kids), at, |r.kids|)
    ensures Rep(m2, h) && Rep(m2, r) && SameLink(m, m2, h.node) && SameLink(m, m2, r.node) && m2.Keys == m.Keys
    ensures Moved(m, m2, multiset{h.node, r.node}, Tops(r.kids[at..]))
  {
    hide Relinked, Rep, Tops, Bag, Bags, Inner, Once, Moved, LinkedFrom, Reps, Apart;
    var e, t := multiset{h.node, r.node}, Tops(r.kids[at..]);
    ToEnd(r.kids, at);
    RelinkedTrees(m1, m2, r.node, r.kids, at, |r.kids|);
    MovedTrans(m, m1, m2, e, multiset{}, multiset{}, t);
    assert e + multiset{} == e && multiset{} + t == t;
    MovedNode(m1, m2, t, h.node);
    MovedNode(m1, m2, t, r.node);
    RelinkedKeysFrom(m1, m2, r.node, r.kids, at);
    WholeKids(m2, h);
    Rebuilt(m, m2, h, |h.kids|, e, t);
    Rebuilt(m, m2, r, at, e, t);
  }

  lemma WholeKids(m: Mem, h: Tree)
    ensures h.kids[..|h.kids|] == h.kids && LinkedFrom(m, h.node, h.kids[|h.kids|..], |h.kids|)
  {
  }

  lemma SuffixBesideKids(m: Mem, a: Tree, b: Tree, c: nat, at: nat, h: Tree, r: Tree)
    requires Rep(m, a) && Rep(m, b) && SuffixPair(a, b) && c <= |a.kvs| && at == |b.kids|
    requires h == Head(a, c) && r == Suffixed(b, a, c)
    ensures at <= |r.kids| && BesideKids(m, h, r, at)
  {
    hide Rep, LinkedFrom, Reps;
    SuffixKids(m, a, b, c);
  }

  lemma SuffixBesideApart(a: Tree, b: Tree, c: nat, at: nat, h: Tree, r: Tree)
    requires Once(Bag(a) + Bag(b)) && SuffixPair(a, b) && c <= |a.kvs| && at == |b.kids|
    requires h == Head(a, c) && r == Suffixed(b, a, c)
    ensures at <= |r.kids| && BesideApart(h, r, at)
  {
    hide Bag, Bags, Tops, Inner, Once;
    SuffixApart(a, b, c);
    assert r.kids == b.kids + Suffix(a, c);
    assert r.kids[at..] == Suffix(a, c) && r.kids[..at] == b.kids;
  }

  lemma SuffixTops(a: Tree, b: Tree, c: nat, at: nat, r: Tree)
    requires Once(Bag(a) + Bag(b)) && SuffixPair(a, b) && c <= |a.kvs| && at == |b.kids| && r == Suffixed(b, a, c)
    ensures at <= |r.kids| && Tops(r.kids[at..]) <= Bag(a) + Bag(b)
  {
    hide Bag, Bags, Tops, Inner, Once;
    SuffixApart(a, b, c);
    assert r.kids == b.kids + Suffix(a, c);
    assert r.kids[at..] == Suffix(a, c);
  }

  lemma SuffixArity(a: Tree, b: Tree, c: nat)
    requires SuffixPair(a, b) && c <= |a.kvs|
    ensures a.kids != [] ==> |b.kids| == 1 && |Suffixed(b, a, c).kids| == |Suffixed(b, a, c).kvs| + 1
    ensures a.kids == [] ==> b.kids == [] && Suffixed(b, a, c).kids == []
  {
  }

  lemma RelinkedKeysFrom(m: Mem, m': Mem, p: Node, kids: seq<Tree>, lo: nat)
    requires lo <= |kids| && Relinked(m, m', p, KidNodes(kids), lo, |kids|)
    ensures m'.Keys == m.Keys
  {
  }

  lemma MovedWithinBoth(m: Mem, m': Mem, x: Node, y: Node, t: multiset<Node>, b: multiset<Node>)
    requires Moved(m, m', multiset{x, y}, t) && t <= b && x in b && y in b
    ensures Within(m, m', b)
  {
  }

  /** Corrects the links of the children of `right` that are new there, if it has children. */
  method SuffixLinks(right: Node, pool: Pool, ghost m: Mem, ghost h: Tree, ghost r: Tree, ghost at: nat)
    requires pool.Valid() && at <= |r.kids| && BesideKids(m, h, r, at) && BesideApart(h, r, at)
    requires Suffixing(m, pool.Mem(), h, r) && r.node == right && right in pool.nodes
    requires (r.kids != [] ==> at == 1)
    modifies pool.nodes
    ensures pool.Valid() && Relinked(old(pool.Mem()), pool.Mem(), right, KidNodes(r.kids), at, |r.kids|)
  {
    hide Rep, Bag, Bags, Once, Relinked, Slots, BesideApart, Reps, Pool.Mem, Pool.Valid;
    ghost var m1 := pool.Mem();
    BesideSlots(m, m1, h, r, at);
    CorrectLinksFrom(right, 1, pool);
    if r.kids == [] { RelinkedNone(m1, right); }
  }

  method MoveSuffixOf(left: Node, c: nat, right: Node, pool: Pool, ghost a: Tree, ghost b: Tree, ghost h: Tree,
                      ghost r: Tree)
    requires pool.Valid() && Rep(pool.Mem(), a) && Rep(pool.Mem(), b) && Once(Bag(a) + Bag(b))
    requires a.node == left && b.node == right && SuffixPair(a, b) && c <= |a.kvs|
    requires h == Head(a, c) && r == Suffixed(b, a, c)
    modifies pool.nodes, pool.kvBuffers, pool.edgeBuffers
    ensures pool.Valid() && Rep(pool.Mem(), h) && Rep(pool.Mem(), r) && Bag(h) + Bag(r) == Bag(a) + Bag(b)
    ensures SameLink(old(pool.Mem()), pool.Mem(), left) && SameLink(old(pool.Mem()), pool.Mem(), right)
    ensures Within(old(pool.Mem()), pool.Mem(), Bag(a) + Bag(b)) && pool.Mem().Keys == old(pool.Mem()).Keys
  {
    hide Rep, Bag, Bags, Once, Relinked, BesideKids, BesideApart, Suffixing, SameLink, Within, Suffixed, Head;
    ghost var m, at := pool.Mem(), |b.kids|;
    RepNode(m, b);
    SuffixBesideKids(m, a, b, c, at, h, r);
    SuffixBesideApart(a, b, c, at, h, r);
    SuffixNodes(a, b, c);
    SuffixArity(a, b, c);
    SuffixData(left, c, right, pool, a, b);
    ghost var m1 := pool.Mem();
    SuffixLinks(right, pool, m, h, r, at);
    BesideRep(m, m1, pool.Mem(), h, r, at);
    SuffixTops(a, b, c, at, r);
    BagSuffixed(a, b, c);
    MovedWithinBoth(m, pool.Mem(), left, right, Tops(r.kids[at..]), Bag(a) + Bag(b));
  }

  lemma SuffixNodes(a: Tree, b: Tree, c: nat)
    requires SuffixPair(a, b) && c <= |a.kvs| && Once(Bag(a) + Bag(b))
    ensures Head(a, c).node == a.node && Suffixed(b, a, c).node == b.node && a.node != b.node
    ensures a.node in Bag(a) + Bag(b) && b.node in Bag(a) + Bag(b)
  {
    OnceSplit(Bag(a), Bag(b), Bag(a) + Bag(b));
    assert a.node in Bag(a) && b.node in Bag(b);
  }

  /** Moves the pairs from `c` on of the node at `p`, and the edges right of them, to the empty node at `q` of another
      tree. */
  method MoveSuffix(left: Node, c: nat, right: Node, pool: Pool, ghost t: Tree, ghost p: Path, ghost u: Tree,
                    ghost q: Path)
    returns (ghost t': Tree, ghost u': Tree)
    requires pool.Valid() && HoldsBoth(pool.Mem(), t, u) && At(t, p, left) && At(u, q, right)
    requires SuffixPair(SubAt(t, p), SubAt(u, q)) && c <= |SubAt(t, p).kvs|
    modifies pool.nodes, pool.kvBuffers, pool.edgeBuffers
    ensures pool.Valid() && Trades(old(pool.Mem()), pool.Mem(), t, u, t', u')
    ensures t' == SetAt(t, p, Head(SubAt(t, p), c)) && u' == SetAt(u, q, Suffixed(SubAt(u, q), SubAt(t, p), c))
  {
    hide Rep, Bag, Bags, Once, Holds, HoldsBoth, SubAt, ValidPath, SameLink, Within, Head, Suffixed, Trades, Pool.Mem,
         Pool.Valid;
    ghost var m, a, b := pool.Mem(), SubAt(t, p), SubAt(u, q);
    ghost var h, r := Head(a, c), Suffixed(b, a, c);
    SuffixHeld(m, t, p, u, q);
    SuffixNodes(a, b, c);
    MoveSuffixOf(left, c, right, pool, a, b, h, r);
    t', u' := SetAt(t, p, h), SetAt(u, q, r);
    EditBoth(m, pool.Mem(), t, p, h, u, q, r);
  }

  lemma SuffixHeld(m: Mem, t: Tree, p: Path, u: Tree, q: Path)
    requires HoldsBoth(m, t, u) && ValidPath(t, p) && ValidPath(u, q)
    ensures Rep(m, SubAt(t, p)) && Rep(m, SubAt(u, q)) && Once(Bag(SubAt(t, p)) + Bag(SubAt(u, q)))
  {
    hide Rep, Bag;
    var x, s, y, r := Around(t, p), Bag(SubAt(t, p)), Around(u, q), Bag(SubAt(u, q));
    SubHeld(m, t, p);
    SubHeld(m, u, q);
    assert Bag(t) == x + s by { BagAt(t, p); }
    assert Bag(u) == y + r by { BagAt(u, q); }
    assert (x + s) + (y + r) == (x + y) + (s + r);
    OnceSplit(x + y, s + r, (x + y) + (s + r));
  }
}
