/** How a tree value lies in memory, with its parent links, and what edits of memory do to it. */
module Memory {
  import opened Nodes
  import opened Trees
  import opened Edits

  ghost predicate LinkedTo(m: Mem, child: Node, parent: Node?, i: nat) {
    child in m && m[child].parent == parent && m[child].parentIdx == i
  }

  /** Memory `m` holds the tree. What the root of the tree is linked to is not part of it. */
  ghost predicate Rep(m: Mem, t: Tree)
    decreases t
  {
    && t.node in m
    && m[t.node].kvs == t.kvs && |t.kvs| <= CAPACITY
    && m[t.node].edges == KidNodes(t.kids)
    && (t.kids == [] || |t.kids| == |t.kvs| + 1)
    && forall i :: 0 <= i < |t.kids| ==> LinkedTo(m, t.kids[i].node, t.node, i) && Rep(m, t.kids[i])
  }

  ghost function KidNodes(kids: seq<Tree>): (es: seq<Node?>)
    ensures |es| == |kids| && forall i :: 0 <= i < |kids| ==> es[i] == kids[i].node
  {
    seq(|kids|, i requires 0 <= i < |kids| => kids[i].node)
  }

  lemma KidNodesConcat(a: seq<Tree>, b: seq<Tree>)
    ensures KidNodes(a + b) == KidNodes(a) + KidNodes(b)
  {
  }

  lemma KidNodesSlice(kids: seq<Tree>, lo: nat, hi: nat)
    requires lo <= hi <= |kids|
    ensures KidNodes(kids[lo..hi]) == KidNodes(kids)[lo..hi]
  {
  }

  lemma KidNodesCut(kids: seq<Tree>, i: nat, j: nat)
    requires i <= j <= |kids|
    ensures KidNodes(kids[..i] + kids[j..]) == KidNodes(kids)[..i] + KidNodes(kids)[j..]
  {
  }

  ghost predicate SameOn(m: Mem, m': Mem, bag: multiset<Node>) {
    forall n :: n in bag ==> n in m && n in m' && m'[n] == m[n]
  }

  /** Only nodes of `bag` and nodes not in `m` may differ. */
  ghost predicate Within(m: Mem, m': Mem, bag: multiset<Node>) {
    forall n :: n in m && n !in bag ==> n in m' && m'[n] == m[n]
  }

  lemma {:induction false} BagsAll(kids: seq<Tree>)
    ensures forall i :: 0 <= i < |kids| ==> Bag(kids[i]) <= Bags(kids)
  {
    forall i | 0 <= i < |kids| ensures Bag(kids[i]) <= Bags(kids) { BagsAt(kids, i); }
  }

  lemma {:induction false} RepIn(m: Mem, t: Tree)
    requires Rep(m, t)
    ensures forall n :: n in Bag(t) ==> n in m
    decreases t, 1
  {
    RepsIn(m, t.kids);
  }

  lemma {:induction false} RepsIn(m: Mem, kids: seq<Tree>)
    requires forall i :: 0 <= i < |kids| ==> Rep(m, kids[i])
    ensures forall n :: n in Bags(kids) ==> n in m
    decreases kids, 0
  {
    if kids != [] {
      RepIn(m, kids[0]);
      RepsIn(m, kids[1..]);
    }
  }

  /** Memory still holds a tree if only the link of its root changed. */
  lemma {:induction false} RepFrame(m: Mem, m': Mem, t: Tree)
    requires Rep(m, t)
    requires t.node in m' && m'[t.node].kvs == m[t.node].kvs && m'[t.node].edges == m[t.node].edges
    requires SameOn(m, m', Bags(t.kids))
    ensures Rep(m', t)
    decreases t
  {
    BagsAll(t.kids);
    forall i | 0 <= i < |t.kids| ensures Rep(m', t.kids[i]) {
      assert t.kids[i].node in Bag(t.kids[i]);
      RepFrame(m, m', t.kids[i]);
    }
  }

  lemma BagsOthers(kids: seq<Tree>, i: nat, j: nat)
    requires i < |kids| && j < |kids| && i != j
    ensures Bag(kids[j]) <= Bags(kids[..i]) + Bags(kids[i + 1..])
  {
    if j < i {
      BagsAt(kids[..i], j);
    } else {
      BagsAt(kids[i + 1..], j - i - 1);
    }
  }

  lemma RepKid(m: Mem, t: Tree, i: nat)
    requires Rep(m, t) && i < |t.kids|
    ensures Rep(m, t.kids[i]) && LinkedTo(m, t.kids[i].node, t.node, i)
  {
  }

  lemma {:induction false} RepSub(m: Mem, t: Tree, p: Path)
    requires ValidPath(t, p) && Rep(m, t)
    ensures Rep(m, SubAt(t, p))
    decreases |p|
  {
    if p != [] { RepSub(m, t.kids[p[0]], p[1..]); }
  }

  lemma RepSetKid(m: Mem, m': Mem, t: Tree, i: nat, k: Tree)
    requires i < |t.kids| && Rep(m, t) && Rep(m', k)
    requires k.node == t.kids[i].node && LinkedTo(m', k.node, t.node, i)
    requires t.node in m' && m'[t.node] == m[t.node]
    requires SameOn(m, m', Bags(t.kids[..i]) + Bags(t.kids[i + 1..]))
    ensures Rep(m', t.(kids := t.kids[i := k]))
  {
    forall j | 0 <= j < |t.kids| && j != i ensures Rep(m', t.kids[j]) && LinkedTo(m', t.kids[j].node, t.node, j) {
      BagsOthers(t.kids, i, j);
      assert t.kids[j].node in Bag(t.kids[j]);
      RepFrame(m, m', t.kids[j]);
    }
  }

  /** Memory holds the tree with another subtree if it holds that subtree and kept the rest. */
  lemma {:induction false} RepSet(m: Mem, m': Mem, t: Tree, p: Path, s: Tree)
    requires ValidPath(t, p) && Rep(m, t) && Rep(m', s)
    requires s.node == SubAt(t, p).node && SameLink(m, m', s.node)
    requires SameOn(m, m', Around(t, p))
    ensures Rep(m', SetAt(t, p, s)) && SetAt(t, p, s).node == t.node
    decreases |p|
  {
    if p != [] {
      var i, k, q := p[0], t.kids[p[0]], p[1..];
      AroundStep(m, m', t, p);
      RepSet(m, m', k, q, s);
      RepSetKid(m, m', t, i, SetAt(k, q, s));
    }
  }

  lemma AroundStep(m: Mem, m': Mem, t: Tree, p: Path)
    requires ValidPath(t, p) && Rep(m, t) && p != []
    requires SameLink(m, m', SubAt(t, p).node) && SameOn(m, m', Around(t, p))
    ensures t.node in m && t.node in m' && m'[t.node] == m[t.node]
    ensures SameOn(m, m', Around(t.kids[p[0]], p[1..]))
    ensures SameOn(m, m', Bags(t.kids[..p[0]]) + Bags(t.kids[p[0] + 1..]))
    ensures SameLink(m, m', t.kids[p[0]].node)
  {
    hide Rep, Bags;
    var i, k, q := p[0], t.kids[p[0]], p[1..];
    var a, b, c := multiset{t.node}, Bags(t.kids[..i]) + Bags(t.kids[i + 1..]), Around(k, q);
    assert Around(t, p) == a + b + c;
    assert t.node in a + b + c;
    forall n | n in b ensures n in m && n in m' && m'[n] == m[n] { assert n in a + b + c; }
    forall n | n in c ensures n in m && n in m' && m'[n] == m[n] { assert n in a + b + c; }
    if q != [] {
      assert k.node in c;
    } else {
      assert SubAt(t, p) == SubAt(k, q) == k;
    }
  }

  ghost predicate SameLink(m: Mem, m': Mem, n: Node) {
    n in m && n in m' && m'[n].parent == m[n].parent && m'[n].parentIdx == m[n].parentIdx
  }

  /** A tree on its own: held by memory, no node twice, nothing above its root. */
  ghost predicate Holds(m: Mem, t: Tree) {
    Rep(m, t) && Once(Bag(t)) && m[t.node].parent == null
  }

  lemma OnceSplit(a: multiset<Node>, b: multiset<Node>, c: multiset<Node>)
    requires c == a + b
    requires Once(c)
    ensures forall n :: n in a ==> n !in b
    ensures Once(a) && Once(b)
  {
    forall n | n in a ensures n !in b && a[n] == 1 { assert n in c && c[n] == a[n] + b[n]; }
    forall n | n in b ensures b[n] == 1 { assert n in c && c[n] == a[n] + b[n]; }
  }

  lemma OnceJoin(a: multiset<Node>, b: multiset<Node>)
    requires Once(a) && Once(b)
    requires forall n :: n in a ==> n !in b
    ensures Once(a + b)
  {
    forall n | n in a + b ensures (a + b)[n] == 1 {}
  }

  lemma BagSet(t: Tree, p: Path, s: Tree)
    requires ValidPath(t, p)
    ensures Bag(SetAt(t, p, s)) == Around(t, p) + Bag(s)
    ensures Bag(t) == Around(t, p) + Bag(SubAt(t, p))
  {
    BagAt(t, p);
    SetAtPlace(t, p, s);
    SetAtAround(t, p, s);
    BagAt(SetAt(t, p, s), p);
  }

  /** From `m` to `m'`, the nodes of `was` gave way to those of `now`: nothing else changed, the nodes
      of `was` not in `now` are released, and those of `now` not in `was` are new. */
  ghost predicate Edited(m: Mem, m': Mem, was: multiset<Node>, now: multiset<Node>) {
    && Within(m, m', was)
    && (forall n :: n in now ==> n in m' && (n in was || n !in m))
    && (forall n :: n in m' ==> n in now || (n in m && n !in was))
  }

  lemma EditedTrans(m: Mem, m': Mem, m'': Mem, a: multiset<Node>, b: multiset<Node>, c: multiset<Node>)
    requires Edited(m, m', a, b) && Edited(m', m'', b, c)
    ensures Edited(m, m'', a, c)
  {
  }

  /** The tree `t`, held on its own, gave way to `t'`. */
  ghost predicate Becomes(m: Mem, m': Mem, t: Tree, t': Tree) { Holds(m', t') && Edited(m, m', Bag(t), Bag(t')) }

  /** The tree `t`, held on its own, is new. */
  ghost predicate Created(m: Mem, m': Mem, t: Tree) { Holds(m', t) && Edited(m, m', multiset{}, Bag(t)) }

  ghost predicate HoldsBoth(m: Mem, a: Tree, b: Tree) { Holds(m, a) && Holds(m, b) && Once(Bag(a) + Bag(b)) }

  /** The tree `t` gave way to two trees, or two trees to the tree `t`. */
  ghost predicate Divides(m: Mem, m': Mem, t: Tree, a: Tree, b: Tree) {
    HoldsBoth(m', a, b) && Edited(m, m', Bag(t), Bag(a) + Bag(b))
  }

  ghost predicate Unites(m: Mem, m': Mem, a: Tree, b: Tree, t: Tree) {
    Holds(m', t) && Edited(m, m', Bag(a) + Bag(b), Bag(t))
  }

  lemma BecomesTrans(m: Mem, m': Mem, m'': Mem, t: Tree, t': Tree, t'': Tree)
    requires Becomes(m, m', t, t') && Becomes(m', m'', t', t'')
    ensures Becomes(m, m'', t, t'')
  {
    EditedTrans(m, m', m'', Bag(t), Bag(t'), Bag(t''));
  }

  lemma BecomesNothing(m: Mem, t: Tree)
    requires Holds(m, t)
    ensures Becomes(m, m, t, t)
  {
    RepIn(m, t);
  }

  /** What is apart from the edit stays, and can be counted in with it. */
  lemma EditedBeside(m: Mem, m': Mem, a: multiset<Node>, b: multiset<Node>, c: multiset<Node>)
    requires Edited(m, m', a, b) && Apart(a, c) && forall n :: n in c ==> n in m
    ensures Apart(b, c) && SameOn(m, m', c) && Edited(m, m', a + c, b + c)
  {
    forall n | n in b ensures n !in c {}
  }

  lemma HoldsKept(m: Mem, m': Mem, t: Tree)
    requires Holds(m, t) && SameOn(m, m', Bag(t))
    ensures Holds(m', t)
  {
    assert t.node in Bag(t);
    forall n | n in Bags(t.kids) ensures n in Bag(t) {}
    RepFrame(m, m', t);
  }

  // ----- Two trees

  /** An edit of one tree beside another. */
  lemma BothFirst(m: Mem, m': Mem, a: Tree, b: Tree, a': Tree)
    requires HoldsBoth(m, a, b) && Becomes(m, m', a, a')
    ensures HoldsBoth(m', a', b) && Edited(m, m', Bag(a) + Bag(b), Bag(a') + Bag(b))
  {
    hide Rep, Bag;
    OnceSplit(Bag(a), Bag(b), Bag(a) + Bag(b));
    assert forall n :: n in Bag(b) ==> n in m by { RepIn(m, b); }
    EditedBeside(m, m', Bag(a), Bag(a'), Bag(b));
    HoldsKept(m, m', b);
    assert Apart(Bag(a'), Bag(b));
    OnceJoin(Bag(a'), Bag(b));
  }

  lemma BothSwap(m: Mem, a: Tree, b: Tree)
    requires HoldsBoth(m, a, b)
    ensures HoldsBoth(m, b, a) && Bag(a) + Bag(b) == Bag(b) + Bag(a)
  {
    assert Bag(a) + Bag(b) == Bag(b) + Bag(a);
  }

  lemma BothSecond(m: Mem, m': Mem, a: Tree, b: Tree, b': Tree)
    requires HoldsBoth(m, a, b) && Becomes(m, m', b, b')
    ensures HoldsBoth(m', a, b') && Edited(m, m', Bag(a) + Bag(b), Bag(a) + Bag(b'))
  {
    BothSwap(m, a, b);
    BothFirst(m, m', b, a, b');
    BothSwap(m', b', a);
  }

  lemma DividesHolds(m: Mem, m': Mem, t: Tree, a: Tree, b: Tree)
    requires Divides(m, m', t, a, b)
    ensures HoldsBoth(m', a, b) && Holds(m', a) && Holds(m', b)
  {
  }

  lemma DividesFirst(m: Mem, m': Mem, m'': Mem, t: Tree, a: Tree, b: Tree, a': Tree)
    requires Divides(m, m', t, a, b) && Becomes(m', m'', a, a')
    ensures Divides(m, m'', t, a', b)
  {
    BothFirst(m', m'', a, b, a');
    EditedTrans(m, m', m'', Bag(t), Bag(a) + Bag(b), Bag(a') + Bag(b));
  }

  lemma DividesSecond(m: Mem, m': Mem, m'': Mem, t: Tree, a: Tree, b: Tree, b': Tree)
    requires Divides(m, m', t, a, b) && Becomes(m', m'', b, b')
    ensures Divides(m, m'', t, a, b')
  {
    BothSecond(m', m'', a, b, b');
    EditedTrans(m, m', m'', Bag(t), Bag(a) + Bag(b), Bag(a) + Bag(b'));
  }

  lemma DividesUnites(m: Mem, m': Mem, m'': Mem, t: Tree, a: Tree, b: Tree, t': Tree)
    requires Divides(m, m', t, a, b) && Unites(m', m'', a, b, t')
    ensures Becomes(m, m'', t, t')
  {
    EditedTrans(m, m', m'', Bag(t), Bag(a) + Bag(b), Bag(t'));
  }

  /** The trees `t` and `r` gave way to `a` and `b`. */
  ghost predicate Trades(m: Mem, m': Mem, t: Tree, r: Tree, a: Tree, b: Tree) {
    HoldsBoth(m', a, b) && Edited(m, m', Bag(t) + Bag(r), Bag(a) + Bag(b))
  }

  lemma DividesTrades(m: Mem, m': Mem, m'': Mem, t: Tree, a: Tree, b: Tree, a': Tree, b': Tree)
    requires Divides(m, m', t, a, b) && Trades(m', m'', a, b, a', b')
    ensures Divides(m, m'', t, a', b')
  {
    EditedTrans(m, m', m'', Bag(t), Bag(a) + Bag(b), Bag(a') + Bag(b'));
  }

  /** Dividing one tree beside another. */
  lemma DividedBeside(m: Mem, m': Mem, t: Tree, r: Tree, a: Tree, b: Tree)
    requires HoldsBoth(m, t, r) && Divides(m, m', t, a, b)
    ensures HoldsBoth(m', a, r) && HoldsBoth(m', b, r)
    ensures Once((Bag(a) + Bag(b)) + Bag(r)) && Edited(m, m', Bag(t) + Bag(r), (Bag(a) + Bag(b)) + Bag(r))
  {
    hide Rep, Bag, Once, Within, SameOn, Edited;
    RepIn(m, r);
    EditedApart(m, m', Bag(t), Bag(r), Bag(a), Bag(b));
    HoldsKept(m, m', r);
  }

  /** Nodes beside those that gave way to two bags stay as they are, and apart from both. */
  lemma EditedApart(m: Mem, m': Mem, t: multiset<Node>, r: multiset<Node>, a: multiset<Node>, b: multiset<Node>)
    requires Once(t + r) && Once(a + b) && Edited(m, m', t, a + b) && forall n :: n in r ==> n in m
    ensures SameOn(m, m', r) && Once(a + r) && Once(b + r)
    ensures Once((a + b) + r) && Edited(m, m', t + r, (a + b) + r)
  {
    hide Once, Within, SameOn, Edited;
    OnceSplit(t, r, t + r);
    EditedBeside(m, m', t, a + b, r);
    OnceJoin(a + b, r);
    OnceSplit(a, b, a + b);
    assert (a + b) + r == a + (b + r) == b + (a + r);
    OnceSplit(a, b + r, (a + b) + r);
    OnceSplit(b, a + r, (a + b) + r);
  }

  /** The other tree then goes into the first part, or into the second. */
  lemma TradesFirst(m: Mem, m': Mem, m'': Mem, t: Tree, r: Tree, a: Tree, b: Tree, a': Tree)
    requires HoldsBoth(m, t, r) && Divides(m, m', t, a, b) && Unites(m', m'', a, r, a')
    ensures Trades(m, m'', t, r, a', b)
  {
    hide Rep, Bag;
    var ba, bb, br := Bag(a), Bag(b), Bag(r);
    DividedBeside(m, m', t, r, a, b);
    assert (ba + bb) + br == (ba + br) + bb;
    OnceSplit(ba + br, bb, (ba + br) + bb);
    assert forall n :: n in bb ==> n in m' by { RepIn(m', b); }
    EditedBeside(m', m'', ba + br, Bag(a'), bb);
    HoldsKept(m', m'', b);
    OnceJoin(Bag(a'), bb);
    EditedTrans(m, m', m'', Bag(t) + br, (ba + br) + bb, Bag(a') + bb);
  }

  lemma TradesSecond(m: Mem, m': Mem, m'': Mem, t: Tree, r: Tree, a: Tree, b: Tree, b': Tree)
    requires HoldsBoth(m, t, r) && Divides(m, m', t, a, b) && Unites(m', m'', b, r, b')
    ensures Trades(m, m'', t, r, a, b')
  {
    BothSwap(m', a, b);
    TradesFirst(m, m', m'', t, r, b, a, b');
    BothSwap(m'', b', a);
  }

  /** The effect on the whole tree of an edit of the subtree at `p`, which may use up nodes from elsewhere
      (`given`) and leave nodes to be used elsewhere (`left`). */
  lemma EditAtWith(m: Mem, m': Mem, t: Tree, p: Path, s: Tree, given: multiset<Node>, left: multiset<Node>)
    requires Holds(m, t) && ValidPath(t, p) && Rep(m', s) && Once(Bag(s) + left)
    requires s.node == SubAt(t, p).node && SameLink(m, m', s.node)
    requires Apart(Bag(t), given) && Edited(m, m', Bag(SubAt(t, p)) + given, Bag(s) + left)
    ensures Holds(m', SetAt(t, p, s)) && Once(Bag(SetAt(t, p, s)) + left)
    ensures Edited(m, m', Bag(t) + given, Bag(SetAt(t, p, s)) + left)
  {
    var a, b, b' := Around(t, p), Bag(SubAt(t, p)), Bag(s);
    assert Bag(SetAt(t, p, s)) == a + b' && Bag(t) == a + b by { BagSet(t, p, s); }
    RepIn(m, t);
    OnceSplit(a, b, Bag(t));
    assert Apart(b + given, a) && forall n :: n in a ==> n in m by {
      forall n | n in a ensures n in m && n !in b + given { assert n in Bag(t); }
    }
    EditedBeside(m, m', b + given, b' + left, a);
    RepSet(m, m', t, p, s);
    RootLink(m, m', t, p, s);
    Regroup3(a, b', left);
    Regroup3(a, b, given);
    OnceJoin(a, b' + left);
    OnceSplit(a + b', left, (a + b') + left);
  }

  /** The effect of an edit that moves nodes between a subtree of `t` and a subtree of another tree `u`. */
  lemma EditBoth(m: Mem, m': Mem, t: Tree, p: Path, a: Tree, u: Tree, q: Path, b: Tree)
    requires HoldsBoth(m, t, u) && ValidPath(t, p) && ValidPath(u, q)
    requires a.node == SubAt(t, p).node && SameLink(m, m', a.node) && b.node == SubAt(u, q).node
    requires SameLink(m, m', b.node)
    requires Rep(m', a) && Rep(m', b) && Bag(a) + Bag(b) == Bag(SubAt(t, p)) + Bag(SubAt(u, q))
    requires Within(m, m', Bag(SubAt(t, p)) + Bag(SubAt(u, q))) && m'.Keys == m.Keys
    ensures Trades(m, m', t, u, SetAt(t, p, a), SetAt(u, q, b))
  {
    hide Rep, Bag, Around, Once, Within, SameOn, Edited, SubAt;
    var x, y, s, r := Around(t, p), Around(u, q), Bag(SubAt(t, p)), Bag(SubAt(u, q));
    BagSet(t, p, a);
    BagSet(u, q, b);
    RepIn(m, t);
    RepIn(m, u);
    FourEdited(m, m', x, s, y, r, Bag(a), Bag(b));
    RepSet(m, m', t, p, a);
    RootLink(m, m', t, p, a);
    RepSet(m, m', u, q, b);
    RootLink(m, m', u, q, b);
  }

  /** Two parts `s` and `r` of two bags gave way to `a` and `b`, made of the same nodes. */
  lemma FourEdited(m: Mem, m': Mem, x: multiset<Node>, s: multiset<Node>, y: multiset<Node>, r: multiset<Node>,
                   a: multiset<Node>, b: multiset<Node>)
    requires Once((x + s) + (y + r)) && a + b == s + r && Within(m, m', s + r) && m'.Keys == m.Keys
    requires forall n :: n in (x + s) + (y + r) ==> n in m
    ensures SameOn(m, m', x) && SameOn(m, m', y)
    ensures Once((x + a) + (y + b)) && Once(x + a) && Once(y + b)
    ensures Edited(m, m', (x + s) + (y + r), (x + a) + (y + b))
  {
    hide Within, SameOn, Edited;
    var all := (x + s) + (y + r);
    FourApart(x, s, y, r);
    FourSums(x, a, y, b, s, r);
    OnceSplit(x + a, y + b, all);
    WithinApart(m, m', x, s + r);
    WithinApart(m, m', y, s + r);
    WithinMore(m, m', s + r, all);
    SameNodesEdited(m, m', all);
  }

  lemma FourApart(x: multiset<Node>, s: multiset<Node>, y: multiset<Node>, r: multiset<Node>)
    requires Once((x + s) + (y + r))
    ensures Apart(x, s + r) && Apart(y, s + r) && s + r <= (x + s) + (y + r)
    ensures x <= (x + s) + (y + r) && y <= (x + s) + (y + r)
  {
    assert (x + s) + (y + r) == (x + y) + (s + r);
    OnceSplit(x + y, s + r, (x + y) + (s + r));
  }

  lemma FourSums(x: multiset<Node>, a: multiset<Node>, y: multiset<Node>, b: multiset<Node>, s: multiset<Node>,
                 r: multiset<Node>)
    requires a + b == s + r
    ensures (x + a) + (y + b) == (x + s) + (y + r)
  {
    assert (x + a) + (y + b) == (x + y) + (a + b);
    assert (x + s) + (y + r) == (x + y) + (s + r);
  }

  lemma WithinApart(m: Mem, m': Mem, x: multiset<Node>, e: multiset<Node>)
    requires Within(m, m', e) && Apart(x, e) && forall n :: n in x ==> n in m
    ensures SameOn(m, m', x)
  {
  }

  lemma WithinMore(m: Mem, m': Mem, e: multiset<Node>, e': multiset<Node>)
    requires Within(m, m', e) && e <= e'
    ensures Within(m, m', e')
  {
  }

  lemma SameNodesEdited(m: Mem, m': Mem, e: multiset<Node>)
    requires Within(m, m', e) && m'.Keys == m.Keys && forall n :: n in e ==> n in m
    ensures Edited(m, m', e, e)
  {
  }

  lemma Regroup3(a: multiset<Node>, b: multiset<Node>, c: multiset<Node>)
    ensures b + c + a == a + b + c == a + (b + c)
  {
  }

  lemma EditAt(m: Mem, m': Mem, t: Tree, p: Path, s: Tree)
    requires Holds(m, t) && ValidPath(t, p) && Rep(m', s) && Once(Bag(s))
    requires s.node == SubAt(t, p).node && SameLink(m, m', s.node)
    requires Edited(m, m', Bag(SubAt(t, p)), Bag(s))
    ensures Becomes(m, m', t, SetAt(t, p, s))
  {
    var b, b' := Bag(SubAt(t, p)), Bag(s);
    assert b + multiset{} == b && b' + multiset{} == b';
    EditAtWith(m, m', t, p, s, multiset{}, multiset{});
    assert Bag(t) + multiset{} == Bag(t) && Bag(SetAt(t, p, s)) + multiset{} == Bag(SetAt(t, p, s));
  }

  lemma RootLink(m: Mem, m': Mem, t: Tree, p: Path, s: Tree)
    requires Rep(m, t) && ValidPath(t, p)
    requires s.node == SubAt(t, p).node && SameLink(m, m', s.node)
    requires SameOn(m, m', Around(t, p))
    ensures SetAt(t, p, s).node == t.node && SameLink(m, m', t.node)
  {
    if p != [] { assert t.node in Around(t, p); }
  }

  /** A node's parent link leads to the node one step up its path. */
  lemma ParentAt(m: Mem, t: Tree, p: Path)
    requires Rep(m, t) && ValidPath(t, p) && p != []
    ensures ValidPath(t, p[..|p| - 1])
    ensures LinkedTo(m, SubAt(t, p).node, SubAt(t, p[..|p| - 1]).node, p[|p| - 1])
  {
    StepUp(t, p);
    RepSub(m, t, p[..|p| - 1]);
  }

  // ----- Edits around one node

  /** The roots of the trees, and the nodes below their roots. */
  ghost function Tops(kids: seq<Tree>): multiset<Node> {
    if kids == [] then multiset{} else multiset{kids[0].node} + Tops(kids[1..])
  }

  ghost function Inner(kids: seq<Tree>): multiset<Node> {
    if kids == [] then multiset{} else Bags(kids[0].kids) + Inner(kids[1..])
  }

  lemma {:induction false} TopsInner(kids: seq<Tree>)
    ensures Bags(kids) == Tops(kids) + Inner(kids)
  {
    if kids != [] { TopsInner(kids[1..]); }
  }

  lemma {:induction false} TopIn(kids: seq<Tree>, i: nat)
    requires i < |kids|
    ensures kids[i].node in Tops(kids) && Bags(kids[i].kids) <= Inner(kids)
  {
    if i > 0 { TopIn(kids[1..], i - 1); }
  }

  lemma {:induction false} TopsConcat(a: seq<Tree>, b: seq<Tree>)
    ensures Tops(a + b) == Tops(a) + Tops(b)
    decreases a
  {
    if a == [] {
      assert a + b == b;
    } else {
      assert (a + b)[1..] == a[1..] + b;
      TopsConcat(a[1..], b);
    }
  }

  lemma {:induction false} TopsOnce(kids: seq<Tree>)
    requires Once(Tops(kids))
    ensures forall i, j :: 0 <= i < j < |kids| ==> kids[i].node != kids[j].node
  {
    hide Once;
    if kids != [] {
      OnceSplit(multiset{kids[0].node}, Tops(kids[1..]), Tops(kids));
      TopsOnce(kids[1..]);
      forall i, j | 0 <= i < j < |kids| ensures kids[i].node != kids[j].node {
        TopIn(kids[1..], j - 1);
        if i > 0 { assert kids[i] == kids[1..][i - 1] && kids[j] == kids[1..][j - 1]; }
      }
    }
  }

  ghost predicate Reps(m: Mem, kids: seq<Tree>) { forall i :: 0 <= i < |kids| ==> Rep(m, kids[i]) }

  ghost predicate SameData(m: Mem, m': Mem, n: Node) {
    n in m && n in m' && m'[n].kvs == m[n].kvs && m'[n].edges == m[n].edges
  }

  /** Only nodes of `edited` got other contents or were released, and of the rest only nodes of `moved` got other
      links. */
  ghost predicate Moved(m: Mem, m': Mem, edited: multiset<Node>, moved: multiset<Node>) {
    forall n :: n in m && n !in edited ==> SameData(m, m', n) && (n !in moved ==> m'[n] == m[n])
  }

  lemma RepsMoved(m: Mem, m': Mem, edited: multiset<Node>, moved: multiset<Node>, kids: seq<Tree>)
    requires Reps(m, kids) && Moved(m, m', edited, moved)
    requires forall n :: n in Bags(kids) ==> n !in edited
    requires forall n :: n in Inner(kids) ==> n !in moved
    ensures Reps(m', kids)
  {
    RepsIn(m, kids);
    TopsInner(kids);
    forall i | 0 <= i < |kids| ensures Rep(m', kids[i]) {
      TopIn(kids, i);
      assert SameOn(m, m', Bags(kids[i].kids)) by {
        forall n | n in Bags(kids[i].kids) ensures n in Inner(kids) && n in Bags(kids) {}
      }
      assert kids[i].node in Bags(kids);
      RepFrame(m, m', kids[i]);
    }
  }

  ghost predicate Apart(a: multiset<Node>, b: multiset<Node>) { forall n :: n in a ==> n !in b }

  lemma ApartParts(a: multiset<Node>, b: multiset<Node>, c: multiset<Node>)
    requires Once(a + b + c)
    ensures Apart(a, b) && Apart(b, c) && Apart(a, c)
  {
    var w := a + b + c;
    forall n | n in a ensures n !in b && n !in c { assert n in w && w[n] == a[n] + b[n] + c[n]; }
    forall n | n in b ensures n !in c { assert n in w && w[n] == a[n] + b[n] + c[n]; }
  }

  lemma OnceTriple(a: Node, b: Node, c: Node)
    requires Once(multiset{a, b, c})
    ensures a != b && b != c && a != c
  {
    var w := multiset{a, b, c};
    assert a in w && b in w && c in w && w[a] == 1 && w[b] == 1 && w[c] == 1;
  }

  // The nodes around a pair of children: those an edit of them may change, those whose links it may
  // change, and those it leaves alone.

  ghost function EditedBy(s: Tree, i: nat): multiset<Node>
    requires Pair(s, i)
  {
    multiset{s.node, s.kids[i].node, s.kids[i + 1].node}
  }

  ghost function MovedBy(s: Tree, i: nat): multiset<Node>
    requires Pair(s, i)
  {
    Tops(s.kids[i + 2..]) + Tops(s.kids[i].kids) + Tops(s.kids[i + 1].kids)
  }

  ghost function KeptBy(s: Tree, i: nat): multiset<Node>
    requires Pair(s, i)
  {
    Bags(s.kids[..i]) + Inner(s.kids[i + 2..]) + Inner(s.kids[i].kids) + Inner(s.kids[i + 1].kids)
  }

  lemma Rearrange(x: multiset<Node>, y: multiset<Node>, z: multiset<Node>, a: multiset<Node>, tl: multiset<Node>,
                  il: multiset<Node>, tr: multiset<Node>, ir: multiset<Node>, tc: multiset<Node>, ic: multiset<Node>)
    ensures x + a + (y + (tl + il)) + (z + (tr + ir)) + (tc + ic) == (x + y + z) + (tc + tl + tr) + (a + ic + il + ir)
  {
  }

  lemma PairParts(s: Tree, i: nat)
    requires Pair(s, i)
    ensures Bag(s) == EditedBy(s, i) + MovedBy(s, i) + KeptBy(s, i)
  {
    var l, r, a, c := s.kids[i], s.kids[i + 1], s.kids[..i], s.kids[i + 2..];
    assert Bag(s) == multiset{s.node} + Bags(a) + (multiset{l.node} + (Tops(l.kids) + Inner(l.kids)))
      + (multiset{r.node} + (Tops(r.kids) + Inner(r.kids))) + (Tops(c) + Inner(c)) by {
      BagPair(s, i);
      TopsInner(c);
      TopsInner(l.kids);
      TopsInner(r.kids);
    }
    assert EditedBy(s, i) == multiset{s.node} + multiset{l.node} + multiset{r.node};
    Rearrange(multiset{s.node}, multiset{l.node}, multiset{r.node}, Bags(a), Tops(l.kids), Inner(l.kids),
              Tops(r.kids), Inner(r.kids), Tops(c), Inner(c));
  }

  lemma PairApart(s: Tree, i: nat)
    requires Once(Bag(s)) && Pair(s, i)
    ensures Apart(EditedBy(s, i), MovedBy(s, i)) && Apart(MovedBy(s, i), KeptBy(s, i))
    ensures Apart(EditedBy(s, i), KeptBy(s, i))
    ensures s.kids[i].node != s.kids[i + 1].node && s.node != s.kids[i].node && s.node != s.kids[i + 1].node
    ensures Once(MovedBy(s, i))
  {
    PairParts(s, i);
    var e, m, k := EditedBy(s, i), MovedBy(s, i), KeptBy(s, i);
    ApartParts(e, m, k);
    OnceSplit(e + m, k, Bag(s));
    OnceSplit(e, m, e + m);
    OnceTriple(s.node, s.kids[i].node, s.kids[i + 1].node);
  }

  lemma RepsKept(m: Mem, m': Mem, s: Tree, i: nat, kids: seq<Tree>)
    requires Once(Bag(s)) && Pair(s, i) && Moved(m, m', EditedBy(s, i), MovedBy(s, i))
    requires Reps(m, kids) && Spared(s, i, kids)
    ensures Reps(m', kids)
  {
    PairApart(s, i);
    forall n | n in Bags(kids) ensures n !in EditedBy(s, i) {}
    forall n | n in Inner(kids) ensures n !in MovedBy(s, i) {}
    RepsMoved(m, m', EditedBy(s, i), MovedBy(s, i), kids);
  }

  ghost predicate Spared(s: Tree, i: nat, kids: seq<Tree>)
    requires Pair(s, i)
  {
    && (forall n :: n in Inner(kids) ==> n in KeptBy(s, i))
    && (forall n :: n in Bags(kids) ==> n in MovedBy(s, i) || n in KeptBy(s, i))
  }

  lemma SparedPart(s: Tree, i: nat, kids: seq<Tree>, tops: multiset<Node>, inner: multiset<Node>)
    requires Pair(s, i) && Tops(kids) == tops && Inner(kids) == inner
    requires tops <= MovedBy(s, i) + KeptBy(s, i) && inner <= KeptBy(s, i)
    ensures Spared(s, i, kids)
  {
    TopsInner(kids);
    forall n | n in Bags(kids) ensures n in MovedBy(s, i) || n in KeptBy(s, i) {
      assert n in tops || n in inner;
      if n in tops { assert n in MovedBy(s, i) + KeptBy(s, i); }
    }
  }

  lemma SumParts(a: multiset<Node>, b: multiset<Node>, c: multiset<Node>, d: multiset<Node>)
    ensures a <= a + b + c + d && b <= a + b + c + d && c <= a + b + c + d && d <= a + b + c + d
  {
  }

  lemma SparedParts(s: Tree, i: nat)
    requires Pair(s, i)
    ensures Spared(s, i, s.kids[..i])
    ensures Spared(s, i, s.kids[i + 2..])
    ensures Spared(s, i, s.kids[i].kids)
    ensures Spared(s, i, s.kids[i + 1].kids)
  {
    var a, c, l, r := s.kids[..i], s.kids[i + 2..], s.kids[i].kids, s.kids[i + 1].kids;
    var ta, tc, tl, tr := Tops(a), Tops(c), Tops(l), Tops(r);
    var ia, ic, il, ir := Inner(a), Inner(c), Inner(l), Inner(r);
    var ba := Bags(a);
    assert ba == ta + ia by { TopsInner(a); }
    assert MovedBy(s, i) == tc + tl + tr && KeptBy(s, i) == ba + ic + il + ir;
    SumParts(ba, ic, il, ir);
    SumParts(tc, tl, tr, KeptBy(s, i));
    assert ta <= ba && ia <= ba;
    SparedPart(s, i, a, ta, ia);
    SparedPart(s, i, c, tc, ic);
    SparedPart(s, i, l, tl, il);
    SparedPart(s, i, r, tr, ir);
  }

  lemma RepsOf(m: Mem, s: Tree, i: nat)
    requires Rep(m, s) && Pair(s, i)
    ensures Reps(m, s.kids[..i]) && Reps(m, s.kids[i + 2..]) && Reps(m, s.kids[i].kids) && Reps(m, s.kids[i + 1].kids)
  {
    assert Rep(m, s.kids[i]) && Rep(m, s.kids[i + 1]);
  }

  /** What an edit of a node and two neighbouring children leaves alone. */
  lemma PairKept(m: Mem, m': Mem, s: Tree, i: nat)
    requires Rep(m, s) && Once(Bag(s)) && Pair(s, i) && Moved(m, m', EditedBy(s, i), MovedBy(s, i))
    ensures Reps(m', s.kids[..i]) && Reps(m', s.kids[i + 2..]) && Reps(m', s.kids[i].kids)
    ensures Reps(m', s.kids[i + 1].kids)
  {
    RepsOf(m, s, i);
    SparedParts(s, i);
    RepsKept(m, m', s, i, s.kids[..i]);
    RepsKept(m, m', s, i, s.kids[i + 2..]);
    RepsKept(m, m', s, i, s.kids[i].kids);
    RepsKept(m, m', s, i, s.kids[i + 1].kids);
  }

  lemma PairWithin(m: Mem, m': Mem, s: Tree, i: nat)
    requires Pair(s, i) && Moved(m, m', EditedBy(s, i), MovedBy(s, i))
    ensures Within(m, m', Bag(s))
  {
    PairParts(s, i);
    forall n | n in m && n !in Bag(s) ensures n in m' && m'[n] == m[n] {
      assert n !in EditedBy(s, i) && n !in MovedBy(s, i);
    }
  }

  lemma ApartSum(a: multiset<Node>, b: multiset<Node>, c: multiset<Node>)
    requires Apart(a, b) && Apart(a, c)
    ensures Apart(a, b + c)
  {
  }

  /** The roots around a pair of children are all different. */
  lemma PairTops(s: Tree, i: nat)
    requires Once(Bag(s)) && Pair(s, i)
    ensures var (l, r, ta, tc) := (s.kids[i], s.kids[i + 1], Tops(s.kids[..i]), Tops(s.kids[i + 2..]));
      var (tl, tr) := (Tops(l.kids), Tops(r.kids));
      && Apart(ta, EditedBy(s, i)) && Apart(ta, tc) && Apart(ta, tl) && Apart(ta, tr)
      && Apart(tc, EditedBy(s, i)) && Apart(tc, tl) && Apart(tc, tr)
      && Apart(tl, EditedBy(s, i)) && Apart(tl, tc) && Apart(tl, tr)
      && Apart(tr, EditedBy(s, i)) && Apart(tr, tc) && Apart(tr, tl)
      && Once(tc) && Once(tl) && Once(tr)
  {
    var l, r, a, tc := s.kids[i], s.kids[i + 1], s.kids[..i], Tops(s.kids[i + 2..]);
    var tl, tr := Tops(l.kids), Tops(r.kids);
    PairApart(s, i);
    assert MovedBy(s, i) == tc + tl + tr;
    ApartParts(tc, tl, tr);
    OnceSplit(tc + tl, tr, tc + tl + tr);
    OnceSplit(tc, tl, tc + tl);
    forall n | n in tc || n in tl || n in tr ensures n in MovedBy(s, i) {}
    TopsInner(a);
    forall n | n in Tops(a) ensures n in KeptBy(s, i) { assert n in Bags(a); }
  }

  /** The trees hang from `p`, from edge `at` on. */
  ghost predicate LinkedFrom(m: Mem, p: Node, kids: seq<Tree>, at: nat) {
    forall j :: 0 <= j < |kids| ==> LinkedTo(m, kids[j].node, p, at + j)
  }

  lemma LinksKept(m: Mem, m': Mem, e: multiset<Node>, t: multiset<Node>, p: Node, kids: seq<Tree>, at: nat)
    requires LinkedFrom(m, p, kids, at) && Moved(m, m', e, t)
    requires Apart(Tops(kids), e) && Apart(Tops(kids), t)
    ensures LinkedFrom(m', p, kids, at)
  {
    forall j | 0 <= j < |kids| ensures LinkedTo(m', kids[j].node, p, at + j) {
      TopIn(kids, j);
    }
  }

  lemma RepLinks(m: Mem, t: Tree, lo: nat, hi: nat)
    requires Rep(m, t) && lo <= hi <= |t.kids|
    ensures LinkedFrom(m, t.node, t.kids[lo..hi], lo)
  {
    forall j | 0 <= j < hi - lo ensures LinkedTo(m, t.kids[lo..hi][j].node, t.node, lo + j) {
      assert t.kids[lo..hi][j] == t.kids[lo + j];
    }
  }
}
