/** Inserting a pair at a leaf edge, splitting full nodes up to the root. */
module Insert {
  import opened Nodes
  import opened Options
  import opened Trees
  import opened Memory
  import opened Edits
  import opened Shapes
  import opened Rows
  import opened Places
  import opened Navigate
  import opened Rebuild
  import opened Roots
  import opened Fix

  // ----- Where to split

  const EDGE_IDX_LEFT_OF_CENTER: nat := B - 1
  const EDGE_IDX_RIGHT_OF_CENTER: nat := B

  /** Split at pair `middle`, then insert at edge `idx` of the left or right part. */
  datatype Point = Point(middle: nat, onLeft: bool, idx: nat)

  function Splitpoint(edgeIdx: nat): (pt: Point)
    requires edgeIdx <= CAPACITY
    ensures pt.middle < CAPACITY && pt.idx <= if pt.onLeft then pt.middle else CAPACITY - pt.middle - 1
  {
    if edgeIdx < EDGE_IDX_LEFT_OF_CENTER then Point(KV_IDX_CENTER - 1, true, edgeIdx)
    else if edgeIdx == EDGE_IDX_LEFT_OF_CENTER then Point(KV_IDX_CENTER, true, edgeIdx)
    else if edgeIdx == EDGE_IDX_RIGHT_OF_CENTER then Point(KV_IDX_CENTER, false, 0)
    else Point(KV_IDX_CENTER + 1, false, edgeIdx - (KV_IDX_CENTER + 1 + 1))
  }

  /** The pair of the overfull node that goes up. */
  ghost function Cut(edgeIdx: nat): nat
    requires edgeIdx <= CAPACITY
  {
    var pt := Splitpoint(edgeIdx);
    if pt.onLeft then pt.middle + 1 else pt.middle
  }

  lemma PutBeforeCut<T>(s: seq<T>, i: nat, m: nat, x: T)
    requires i <= m <= |s|
    ensures var w := s[..i] + [x] + s[i..];
      |w| == |s| + 1 && w[..m + 1] == s[..m][..i] + [x] + s[..m][i..] && w[m + 1..] == s[m..]
  {
  }

  lemma PutBehindCut<T>(s: seq<T>, i: nat, m: nat, x: T)
    requires m <= i <= |s|
    ensures var w := s[..i] + [x] + s[i..];
      |w| == |s| + 1 && w[..m] == s[..m] && w[m..] == s[m..][..i - m] + [x] + s[m..][i - m..]
  {
  }

  lemma CutAt(i: nat)
    requires i <= CAPACITY
    ensures var (pt, c) := (Splitpoint(i), Cut(i));
      && MIN_LEN <= c <= CAPACITY - MIN_LEN && c == (if pt.onLeft then pt.middle + 1 else pt.middle)
      && (if pt.onLeft then i < c && pt.idx == i else i > c && pt.idx + c + 1 == i)
  {
  }

  /** Splitting and then inserting is inserting and then cutting the overfull node at one of its two middle pairs. */
  lemma CutKvs(kvs: seq<KV>, i: nat, kv: KV)
    requires |kvs| == CAPACITY && i <= CAPACITY
    ensures var (pt, w, c) := (Splitpoint(i), Put(kvs, i, kv), Cut(i));
      && MIN_LEN <= c && MIN_LEN <= |w| - c - 1 && |w| == CAPACITY + 1
      && w[c] == kvs[pt.middle]
      && w[..c] == (if pt.onLeft then Put(kvs[..pt.middle], pt.idx, kv) else kvs[..pt.middle])
      && w[c + 1..] == (if pt.onLeft then kvs[pt.middle + 1..] else Put(kvs[pt.middle + 1..], pt.idx, kv))
      && (if pt.onLeft then i < c && pt.idx == i else i > c && pt.idx + c + 1 == i)
  {
    hide Splitpoint, Cut;
    CutAt(i);
    var (pt, w) := (Splitpoint(i), Put(kvs, i, kv));
    if pt.onLeft {
      PutBeforeCut(kvs, i, pt.middle, kv);
      PutBeforeCut(kvs, i, pt.middle + 1, kv);
      assert w[pt.middle + 1] == w[pt.middle + 1..][0];
    } else {
      PutBehindCut(kvs, i, pt.middle, kv);
      PutBehindCut(kvs, i, pt.middle + 1, kv);
      assert w[pt.middle] == w[..pt.middle + 1][pt.middle];
    }
  }

  lemma CutKids(kids: seq<Tree>, i: nat, r: Tree)
    requires |kids| == CAPACITY + 1 && i <= CAPACITY
    ensures var (pt, w, c) := (Splitpoint(i), kids[..i + 1] + [r] + kids[i + 1..], Cut(i));
      && w[..c + 1] == (if pt.onLeft
                        then var l := kids[..pt.middle + 1]; l[..pt.idx + 1] + [r] + l[pt.idx + 1..]
                        else kids[..pt.middle + 1])
      && w[c + 1..] == (if pt.onLeft then kids[pt.middle + 1..]
                        else var l := kids[pt.middle + 1..]; l[..pt.idx + 1] + [r] + l[pt.idx + 1..])
  {
    hide Splitpoint, Cut;
    CutAt(i);
    var pt := Splitpoint(i);
    if pt.onLeft {
      PutBeforeCut(kids, i + 1, pt.middle + 1, r);
    } else {
      PutBehindCut(kids, i + 1, pt.middle + 1, r);
    }
  }

  /** The leaf with another pair. */
  ghost function WithKv(s: Tree, i: nat, kv: KV): Tree
    requires i <= |s.kvs|
  {
    s.(kvs := Put(s.kvs, i, kv))
  }

  lemma CutLeaf(s: Tree, i: nat, kv: KV, n: Node)
    requires s.kids == [] && |s.kvs| == CAPACITY && i <= CAPACITY
    ensures var (pt, w, c) := (Splitpoint(i), WithKv(s, i, kv), Cut(i));
      var (h, r) := (Head(s, pt.middle), Tail(n, s, pt.middle + 1));
      && pt.idx <= (if pt.onLeft then |h.kvs| else |r.kvs|) < CAPACITY
      && c < |w.kvs| && w.kvs[c] == s.kvs[pt.middle]
      && Head(w, c) == (if pt.onLeft then WithKv(h, pt.idx, kv) else h)
      && Tail(n, w, c + 1) == (if pt.onLeft then r else WithKv(r, pt.idx, kv))
  {
    CutKvs(s.kvs, i, kv);
  }

  lemma CutInternal(s: Tree, i: nat, kv: KV, k: Tree, n: Node)
    requires |s.kids| == |s.kvs| + 1 && |s.kvs| == CAPACITY && i <= CAPACITY
    ensures var (pt, w, c) := (Splitpoint(i), WithChild(s, i, kv, k), Cut(i));
      var (h, r) := (Head(s, pt.middle), Tail(n, s, pt.middle + 1));
      && pt.idx <= (if pt.onLeft then |h.kvs| else |r.kvs|) < CAPACITY && h.kids != [] && r.kids != [] && Arity(w)
      && c < |w.kvs| && w.kvs[c] == s.kvs[pt.middle]
      && Head(w, c) == (if pt.onLeft then WithChild(h, pt.idx, kv, k) else h)
      && Tail(n, w, c + 1) == (if pt.onLeft then r else WithChild(r, pt.idx, kv, k))
  {
    CutKvs(s.kvs, i, kv);
    CutKids(s.kids, i, k);
  }

  // ----- Contents

  lemma FlatWithChild(s: Tree, i: nat, kv: KV, r: Tree)
    requires |s.kids| == |s.kvs| + 1 && i <= |s.kvs|
    ensures Flat(WithChild(s, i, kv, r))
      == Left(s.kids, s.kvs, i) + Flat(s.kids[i]) + [kv] + Flat(r) + Right(s.kids, s.kvs, i)
  {
    var w := WithChild(s, i, kv, r);
    FlatPair(w, i);
    LeftPrefix(w.kids, w.kvs, s.kids, s.kvs, i);
    assert w.kids[i + 2..] == s.kids[i + 1..] && w.kvs[i + 1..] == s.kvs[i..];
    RightSuffix(w.kids, w.kvs, i + 1, s.kids, s.kvs, i);
  }

  lemma RowWithChild(s: Tree, i: nat, kv: KV, r: Tree)
    requires |s.kids| == |s.kvs| + 1 && i <= |s.kvs|
    ensures Row(WithChild(s, i, kv, r))
      == RowLeft(s.kids, s.kvs, i) + (Row(s.kids[i]) + [Between(kv)] + Row(r)) + RowRight(s.kids, s.kvs, i)
  {
    var w := WithChild(s, i, kv, r);
    RowPair(w, i);
    RowLeftPrefix(w.kids, w.kvs, s.kids, s.kvs, i);
    assert RowRight(w.kids, w.kvs, i + 1) == RowRight(s.kids, s.kvs, i) by {
      if i < |s.kvs| { assert w.kids[i + 2..] == s.kids[i + 1..] && w.kvs[i + 2..] == s.kvs[i + 1..]; }
    }
  }

  lemma RowCut(w: Tree, c: nat, n: Node)
    requires |w.kids| == |w.kvs| + 1 && c < |w.kvs|
    ensures Row(w) == Row(Head(w, c)) + [Between(w.kvs[c])] + Row(Tail(n, w, c + 1))
  {
    RowSplit(w.kids, w.kvs, c);
  }

  /** The row has the pair `kv` at `e`, in a leaf, with `n` pairs before it. */
  ghost predicate KvIn(row: seq<Item>, e: Handle, n: nat, kv: KV) {
    exists j :: 0 <= j < |row| && KvInLeaf(row[j], e, kv) && |Pairs(row[..j])| + e.idx == n
  }

  ghost predicate KvInLeaf(x: Item, e: Handle, kv: KV) {
    x.Leaf? && x.node == e.node && e.idx < |x.kvs| && x.kvs[e.idx] == kv
  }

  lemma KvInMiddle(a: seq<Item>, row: seq<Item>, b: seq<Item>, e: Handle, n: nat, kv: KV)
    requires KvIn(row, e, n, kv)
    ensures KvIn(a + row + b, e, |Pairs(a)| + n, kv)
  {
    var j :| 0 <= j < |row| && KvInLeaf(row[j], e, kv) && |Pairs(row[..j])| + e.idx == n;
    var whole := a + row + b;
    assert whole[|a| + j] == row[j] && whole[..|a| + j] == a + row[..j];
    PairsConcat(a, row[..j]);
  }

  lemma KvInSub(t: Tree, p: Path, e: Handle, n: nat, kv: KV)
    requires ValidPath(t, p) && KvIn(Row(SubAt(t, p)), e, n, kv)
    ensures KvIn(Row(t), e, |Before(t, p)| + n, kv)
    decreases |p|
  {
    if p != [] {
      var i := p[0];
      KvInSub(t.kids[i], p[1..], e, n, kv);
      RowAt(t.kids, t.kvs, i);
      PairsLeft(t.kids, t.kvs, i);
      KvInMiddle(RowLeft(t.kids, t.kvs, i), Row(t.kids[i]), RowRight(t.kids, t.kvs, i), e,
                 |Before(t.kids[i], p[1..])| + n, kv);
    }
  }

  lemma KvInPath(t: Tree, e: Handle, n: nat, kv: KV) returns (p: Path)
    requires Regular(t) && KvIn(Row(t), e, n, kv)
    ensures Kv(t, p, e) && SubAt(t, p).kids == [] && Index(t, p, e) == n && SubAt(t, p).kvs[e.idx] == kv
  {
    var row := Row(t);
    var j :| 0 <= j < |row| && KvInLeaf(row[j], e, kv) && |Pairs(row[..j])| + e.idx == n;
    p := PathOfLeaf(t, j);
  }

  /** A leaf cut in two has the inserted pair in one of the parts. */
  lemma KvInCutLeaf(s: Tree, i: nat, kv: KV, n: Node)
    requires s.kids == [] && |s.kvs| == CAPACITY && i <= CAPACITY
    ensures var (pt, w, c) := (Splitpoint(i), WithKv(s, i, kv), Cut(i));
      var e := Handle(if pt.onLeft then s.node else n, pt.idx);
      KvIn(Row(Head(w, c)) + [Between(w.kvs[c])] + Row(Tail(n, w, c + 1)), e, i, kv)
  {
    CutKvs(s.kvs, i, kv);
    var pt, w, c := Splitpoint(i), WithKv(s, i, kv), Cut(i);
    var e := Handle(if pt.onLeft then s.node else n, pt.idx);
    var a, b := [Leaf(s.node, w.kvs[..c])], [Leaf(n, w.kvs[c + 1..])];
    var row := a + [Between(w.kvs[c])] + b;
    if pt.onLeft {
      assert KvInLeaf(row[0], e, kv) && Pairs(row[..0]) == [];
    } else {
      assert row[..2] == a + [Between(w.kvs[c])];
      PairsConcat(a, [Between(w.kvs[c])]);
      PairsOne(a[0]);
      PairsOne(Between(w.kvs[c]));
      assert KvInLeaf(row[2], e, kv);
    }
  }

  // ----- Full nodes on the way up

  /** Every node above the one at `q` is full to capacity. */
  ghost predicate FilledAbove(t: Tree, q: Path)
    decreases |q|
  {
    q == [] || (q[0] < |t.kids| && |t.kvs| == CAPACITY && FilledAbove(t.kids[q[0]], q[1..]))
  }

  /** Every node on the way to `p` is, and the one there. */
  ghost predicate FilledThrough(t: Tree, p: Path)
    requires ValidPath(t, p)
  {
    FilledAbove(t, p) && |SubAt(t, p).kvs| == CAPACITY
  }

  lemma {:induction false} FilledOnTheWay(t: Tree, p: Path)
    requires ValidPath(t, p)
    ensures FilledThrough(t, p) <==>
      forall j :: 0 <= j <= |p| ==> ValidPath(t, p[..j]) && |SubAt(t, p[..j]).kvs| == CAPACITY
    decreases |p|
  {
    assert p[..0] == [];
    if p != [] {
      var k, q := t.kids[p[0]], p[1..];
      FilledOnTheWay(k, q);
      forall j | 0 < j <= |p|
        ensures ValidPath(t, p[..j]) <==> ValidPath(k, q[..j - 1])
        ensures ValidPath(t, p[..j]) ==> SubAt(t, p[..j]) == SubAt(k, q[..j - 1])
      {
        assert p[..j][0] == p[0] && p[..j][1..] == q[..j - 1];
      }
      if FilledThrough(t, p) {
        forall j | 0 <= j <= |p| ensures ValidPath(t, p[..j]) && |SubAt(t, p[..j]).kvs| == CAPACITY {
          if j > 0 { assert ValidPath(k, q[..j - 1]); }
        }
      }
      if forall j :: 0 <= j <= |p| ==> ValidPath(t, p[..j]) && |SubAt(t, p[..j]).kvs| == CAPACITY {
        forall j | 0 <= j <= |q| ensures ValidPath(k, q[..j]) && |SubAt(k, q[..j]).kvs| == CAPACITY {
          assert ValidPath(t, p[..j + 1]) && p[..j + 1][1..] == q[..j];
        }
      }
    } else {
      assert forall j :: 0 <= j <= |p| ==> p[..j] == [];
    }
  }

  lemma {:induction false} FilledUp(t: Tree, q: Path, i: nat)
    requires ValidPath(t, q) && ValidPath(t, q + [i])
    ensures FilledAbove(t, q + [i]) <==> FilledAbove(t, q) && |SubAt(t, q).kvs| == CAPACITY
    decreases |q|
  {
    if q == [] {
      assert FilledAbove(t.kids[i], []) && (q + [i])[1..] == [];
    } else {
      assert (q + [i])[1..] == q[1..] + [i];
      FilledUp(t.kids[q[0]], q[1..], i);
    }
  }

  lemma {:induction false} FilledSet(t: Tree, q: Path, w: Tree)
    requires ValidPath(t, q)
    ensures FilledAbove(SetAt(t, q, w), q) <==> FilledAbove(t, q)
    decreases |q|
  {
    if q != [] { FilledSet(t.kids[q[0]], q[1..], w); }
  }

  // ----- The run of splits

  /** Still to do: put the pair `kv` and the tree `r` right behind the subtree at `q`. Done, the tree will hold
      the pairs `f`; the pair `x` inserted at the start is at `e` and has `g` pairs before it. */
  ghost predicate Pending(t: Tree, h: nat, q: Path, kv: KV, r: Tree, f: seq<KV>, e: Handle, g: nat, x: KV) {
    && ValidPath(t, q) && |q| <= h && FullAround(t, h, 1, q)
    && Full(SubAt(t, q), h - |q|, MIN_LEN) && Full(r, h - |q|, MIN_LEN)
    && f == Before(t, q) + (Flat(SubAt(t, q)) + [kv] + Flat(r)) + After(t, q)
    && |Before(t, q)| <= g && KvIn(Row(SubAt(t, q)) + [Between(kv)] + Row(r), e, g - |Before(t, q)|, x)
  }

  /** The tree of height `h` holds the pairs `f` and has the pair `x` in a leaf at `e`, with `g` pairs before it. */
  ghost predicate Finished(t: Tree, h: nat, f: seq<KV>, e: Handle, g: nat, x: KV) {
    Full(t, h, 1) && Flat(t) == f && KvIn(Row(t), e, g, x)
  }

  /** The node at `q` replaced by a full enough one with the pending pair and tree in it. */
  lemma Finish(t: Tree, h: nat, q: Path, w: Tree, f: seq<KV>, e: Handle, n: nat, x: KV)
    requires ValidPath(t, q) && |q| <= h && FullAround(t, h, 1, q) && Full(w, h - |q|, Least(1, q))
    requires f == Before(t, q) + Flat(w) + After(t, q) && KvIn(Row(w), e, n, x)
    ensures Finished(SetAt(t, q, w), h, f, e, |Before(t, q)| + n, x)
  {
    FullSet(t, h, 1, q, w);
    SetAtFlat(t, q, w);
    SetAtPlace(t, q, w);
    KvInSub(SetAt(t, q, w), q, e, n, x);
  }

  /** The node at `q`, overfull, cut in two. */
  lemma CutPending(t: Tree, h: nat, q: Path, w: Tree, c: nat, n: Node, f: seq<KV>, e: Handle, g: nat, x: KV)
    requires ValidPath(t, q) && |q| <= h && FullAround(t, h, 1, q) && Arity(w) && c < |w.kvs|
    requires Full(Head(w, c), h - |q|, MIN_LEN) && Full(Tail(n, w, c + 1), h - |q|, MIN_LEN)
    requires f == Before(t, q) + Flat(w) + After(t, q) && |Before(t, q)| <= g
    requires KvIn(Row(Head(w, c)) + [Between(w.kvs[c])] + Row(Tail(n, w, c + 1)), e, g - |Before(t, q)|, x)
    ensures Pending(SetAt(t, q, Head(w, c)), h, q, w.kvs[c], Tail(n, w, c + 1), f, e, g, x)
  {
    FullSet(t, h, 1, q, Head(w, c));
    SetAtPlace(t, q, Head(w, c));
    FlatCut(w, c, n);
  }

  lemma LeafPut(t: Tree, p: Path, i: nat, kv: KV)
    requires ValidPath(t, p) && SubAt(t, p).kids == [] && i <= |SubAt(t, p).kvs|
    ensures var g := |Before(t, p)| + i;
      g <= |Flat(t)| && Put(Flat(t), g, kv) == Before(t, p) + Flat(WithKv(SubAt(t, p), i, kv)) + After(t, p)
  {
    hide Before, After, SubAt, ValidPath;
    FlatAt(t, p);
  }

  lemma LeafFits(t: Tree, h: nat, p: Path, i: nat, kv: KV)
    requires Balanced(t, h) && ValidPath(t, p) && SubAt(t, p).kids == [] && i <= |SubAt(t, p).kvs| < CAPACITY
    ensures var (s, g) := (SubAt(t, p), |Before(t, p)| + i);
      g <= |Flat(t)| && Finished(SetKvs(t, p, Put(s.kvs, i, kv)), h, Put(Flat(t), g, kv), Handle(s.node, i), g, kv)
  {
    var s := SubAt(t, p);
    var w := WithKv(s, i, kv);
    BalancedLeaf(t, h, p);
    LeafPut(t, p, i, kv);
    var row := Row(w);
    assert KvInLeaf(row[0], Handle(s.node, i), kv) && Pairs(row[..0]) == [];
    Finish(t, h, p, w, Put(Flat(t), |Before(t, p)| + i, kv), Handle(s.node, i), i, kv);
  }

  lemma BalancedLeaf(t: Tree, h: nat, p: Path)
    requires Balanced(t, h) && ValidPath(t, p) && SubAt(t, p).kids == []
    ensures |p| == h && FullAround(t, h, 1, p) && |SubAt(t, p).kvs| <= CAPACITY
    ensures p != [] ==> MIN_LEN <= |SubAt(t, p).kvs|
  {
    FullSub(t, h, if h == 0 then 0 else 1, p);
  }

  lemma LeafSplits(t: Tree, h: nat, p: Path, i: nat, kv: KV, n: Node)
    requires Balanced(t, h) && ValidPath(t, p) && SubAt(t, p).kids == [] && i <= |SubAt(t, p).kvs| == CAPACITY
    ensures var (s, g, pt, c) := (SubAt(t, p), |Before(t, p)| + i, Splitpoint(i), Cut(i));
      var w := WithKv(s, i, kv);
      && c < |w.kvs| && g <= |Flat(t)|
      && Pending(SetAt(t, p, Head(w, c)), h, p, w.kvs[c], Tail(n, w, c + 1), Put(Flat(t), g, kv),
                 Handle(if pt.onLeft then s.node else n, pt.idx), g, kv)
  {
    hide KvIn, FullAround, Pending, Row, Flat, Before, After, Put, Splitpoint, Cut;
    var s, g, pt, c := SubAt(t, p), |Before(t, p)| + i, Splitpoint(i), Cut(i);
    BalancedLeaf(t, h, p);
    LeafPut(t, p, i, kv);
    LeafCutFull(s, i, kv, n);
    KvInCutLeaf(s, i, kv, n);
    CutPending(t, h, p, WithKv(s, i, kv), c, n, Put(Flat(t), g, kv), Handle(if pt.onLeft then s.node else n, pt.idx), g,
               kv);
  }

  lemma LeafCutFull(s: Tree, i: nat, kv: KV, n: Node)
    requires s.kids == [] && i <= |s.kvs| == CAPACITY
    ensures var (w, c) := (WithKv(s, i, kv), Cut(i));
      c < |w.kvs| && Full(Head(w, c), 0, MIN_LEN) && Full(Tail(n, w, c + 1), 0, MIN_LEN)
  {
    CutKvs(s.kvs, i, kv);
  }

  /** The parent with what is pending put into it. */
  lemma ParentWith(t: Tree, h: nat, q: Path, i: nat, kv: KV, r: Tree, f: seq<KV>, e: Handle, g: nat, x: KV)
    requires Pending(t, h, q + [i], kv, r, f, e, g, x) && ValidPath(t, q)
    ensures var s := SubAt(t, q);
      && |q| < h && FullAround(t, h, 1, q) && FullBut(s, h - |q|, Least(1, q), i)
      && var w := WithChild(s, i, kv, r);
      && FullKids(w.kids, h - |q| - 1) && f == Before(t, q) + Flat(w) + After(t, q)
      && |Before(t, q)| <= g && KvIn(Row(w), e, g - |Before(t, q)|, x)
  {
    hide KvIn, Row, Flat, Before, After, FullAround;
    var p, s := q + [i], SubAt(t, q);
    FullStep(t, h, 1, q, i);
    Step(t, q, i);
    WithChildFull(s, h - |q|, Least(1, q), i, kv, r);
    assert f == Before(t, q) + Flat(WithChild(s, i, kv, r)) + After(t, q) by {
      FlatWithChild(s, i, kv, r);
      PutTogether(Before(t, q), Left(s.kids, s.kvs, i), Flat(s.kids[i]), [kv], Flat(r), Right(s.kids, s.kvs, i),
                  After(t, q));
    }
    ChildWith(s, i, kv, r, e, g - |Before(t, p)|, x);
  }

  lemma ChildWith(s: Tree, i: nat, kv: KV, r: Tree, e: Handle, n: nat, x: KV)
    requires |s.kids| == |s.kvs| + 1 && i <= |s.kvs| && KvIn(Row(s.kids[i]) + [Between(kv)] + Row(r), e, n, x)
    ensures KvIn(Row(WithChild(s, i, kv, r)), e, |Left(s.kids, s.kvs, i)| + n, x)
  {
    hide KvIn, Row;
    RowWithChild(s, i, kv, r);
    PairsLeft(s.kids, s.kvs, i);
    KvInMiddle(RowLeft(s.kids, s.kvs, i), Row(s.kids[i]) + [Between(kv)] + Row(r), RowRight(s.kids, s.kvs, i), e, n, x);
  }

  lemma PutTogether(a: seq<KV>, b: seq<KV>, c: seq<KV>, d: seq<KV>, e: seq<KV>, f: seq<KV>, g: seq<KV>)
    ensures (a + b) + (c + d + e) + (f + g) == a + (b + c + d + e + f) + g
  {
  }

  lemma WithChildFull(s: Tree, h: nat, lo: nat, i: nat, kv: KV, r: Tree)
    requires h > 0 && FullBut(s, h, lo, i) && Full(s.kids[i], h - 1, MIN_LEN) && Full(r, h - 1, MIN_LEN)
    ensures FullKids(WithChild(s, i, kv, r).kids, h - 1)
  {
    assert s.kids[..i + 1] == s.kids[..i] + [s.kids[i]];
    FullKidsConcat(s.kids[..i], [s.kids[i]], h - 1);
    FullKidsConcat(s.kids[..i + 1], [r], h - 1);
    FullKidsConcat(s.kids[..i + 1] + [r], s.kids[i + 1..], h - 1);
  }

  lemma ParentFits(t: Tree, h: nat, q: Path, i: nat, kv: KV, r: Tree, f: seq<KV>, e: Handle, g: nat, x: KV)
    requires Pending(t, h, q + [i], kv, r, f, e, g, x) && ValidPath(t, q) && |SubAt(t, q).kvs| < CAPACITY
    ensures var s := SubAt(t, q);
      && |s.kids| == |s.kvs| + 1 && i <= |s.kvs|
      && Finished(SetAt(t, q, WithChild(s, i, kv, r)), h, f, e, g, x)
  {
    ParentWith(t, h, q, i, kv, r, f, e, g, x);
    Finish(t, h, q, WithChild(SubAt(t, q), i, kv, r), f, e, g - |Before(t, q)|, x);
  }

  lemma ParentSplits(t: Tree, h: nat, q: Path, i: nat, kv: KV, r: Tree, f: seq<KV>, e: Handle, g: nat, x: KV, n: Node)
    requires Pending(t, h, q + [i], kv, r, f, e, g, x) && ValidPath(t, q) && |SubAt(t, q).kvs| == CAPACITY
    ensures var s := SubAt(t, q);
      && |s.kids| == |s.kvs| + 1 && i <= |s.kvs|
      && var (w, c) := (WithChild(s, i, kv, r), Cut(i));
      && c < |w.kvs| && Pending(SetAt(t, q, Head(w, c)), h, q, w.kvs[c], Tail(n, w, c + 1), f, e, g, x)
  {
    hide KvIn, Row, Flat, Before, After, FullAround, Pending, Cut, Splitpoint, Full, FullKids, SubAt, ValidPath;
    hide Head, Tail;
    ParentWith(t, h, q, i, kv, r, f, e, g, x);
    var s, c := SubAt(t, q), Cut(i);
    var w := WithChild(s, i, kv, r);
    ParentCutFull(s, i, kv, r, h - |q| - 1, n);
    RowCut(w, c, n);
    CutPending(t, h, q, w, c, n, f, e, g, x);
  }

  lemma ParentCutFull(s: Tree, i: nat, kv: KV, r: Tree, h: nat, n: Node)
    requires |s.kids| == |s.kvs| + 1 && i <= |s.kvs| == CAPACITY && FullKids(WithChild(s, i, kv, r).kids, h)
    ensures var (w, c) := (WithChild(s, i, kv, r), Cut(i));
      c < |w.kvs| && Full(Head(w, c), h + 1, MIN_LEN) && Full(Tail(n, w, c + 1), h + 1, MIN_LEN)
  {
    hide Cut, Splitpoint, FullKids, Full;
    CutAt(i);
    CutFull(WithChild(s, i, kv, r), Cut(i), h, n);
  }

  lemma CutFull(w: Tree, c: nat, h: nat, n: Node)
    requires |w.kids| == |w.kvs| + 1 == CAPACITY + 2 && MIN_LEN <= c <= CAPACITY - MIN_LEN && FullKids(w.kids, h)
    ensures Full(Head(w, c), h + 1, MIN_LEN) && Full(Tail(n, w, c + 1), h + 1, MIN_LEN)
  {
    hide FullKids;
    FullKidsPart(w.kids, 0, c + 1, h);
    FullKidsPart(w.kids, c + 1, |w.kids|, h);
    assert w.kids[..c + 1] == w.kids[0..c + 1] && w.kids[c + 1..] == w.kids[c + 1..|w.kids|];
  }

  lemma RootSplits(t: Tree, h: nat, kv: KV, r: Tree, f: seq<KV>, e: Handle, g: nat, x: KV, top: Node)
    requires Pending(t, h, [], kv, r, f, e, g, x)
    ensures Finished(WithChild(Raised(top, t), 0, kv, r), h + 1, f, e, g, x)
  {
    var w := WithChild(Raised(top, t), 0, kv, r);
    assert w == Tree(top, [kv], [t, r]);
    FlatPair(w, 0);
    RowPair(w, 0);
    assert Left(w.kids, w.kvs, 0) == [] && Right(w.kids, w.kvs, 1) == [];
    assert RowLeft(w.kids, w.kvs, 0) == [] && RowRight(w.kids, w.kvs, 1) == [];
    hide KvIn;
    assert Row(w) == Row(t) + [Between(kv)] + Row(r);
    assert Flat(w) == Flat(t) + [kv] + Flat(r);
    assert f == Flat(t) + [kv] + Flat(r);
    assert Full(w, h + 1, 1);
  }

  // ----- In memory

  /** The part split off a node: the pair and the new node right of it. */
  datatype SplitResult = SplitResult(kv: KV, right: Node)

  lemma {:induction false} SetAtTwice(t: Tree, p: Path, a: Tree, b: Tree)
    requires ValidPath(t, p) && ValidPath(SetAt(t, p, a), p)
    ensures SetAt(SetAt(t, p, a), p, b) == SetAt(t, p, b)
    decreases |p|
  {
    if p != [] {
      SetAtTwice(t.kids[p[0]], p[1..], a, b);
      assert t.kids[p[0] := SetAt(t.kids[p[0]], p[1..], a)][p[0] := SetAt(t.kids[p[0]], p[1..], b)]
        == t.kids[p[0] := SetAt(t.kids[p[0]], p[1..], b)];
    }
  }

  /** Puts a pair into the part of a divided tree that is left in place, or into the part split off. */
  method FillLeft(leaf: Node, i: nat, kv: KV, pool: Pool, ghost m: Mem, ghost t: Tree, ghost p: Path, ghost a: Tree,
                  ghost b: Tree,
                  ghost h: Tree)
    returns (ghost a': Tree)
    requires pool.Valid() && Divides(m, pool.Mem(), t, a, b) && ValidPath(t, p) && a == SetAt(t, p, h)
    requires h.node == leaf && h.kids == [] && i <= |h.kvs| < CAPACITY
    modifies pool.nodes, pool.kvBuffers, pool.edgeBuffers
    ensures pool.Valid() && a' == SetAt(t, p, WithKv(h, i, kv)) && Divides(m, pool.Mem(), t, a', b)
  {
    hide Holds, SubAt, ValidPath, Divides, Becomes, Pool.Mem, Pool.Valid;
    ghost var m1 := pool.Mem();
    DividesHolds(m, m1, t, a, b);
    SetAtPlace(t, p, h);
    a' := InsertInLeaf(leaf, i, kv, pool, a, p);
    SetAtTwice(t, p, h, WithKv(h, i, kv));
    DividesFirst(m, m1, pool.Mem(), t, a, b, a');
  }

  method FillRight(leaf: Node, i: nat, kv: KV, pool: Pool, ghost m: Mem, ghost t: Tree, ghost a: Tree, ghost b: Tree)
    returns (ghost b': Tree)
    requires pool.Valid() && Divides(m, pool.Mem(), t, a, b) && b.node == leaf && b.kids == []
    requires i <= |b.kvs| < CAPACITY
    modifies pool.nodes, pool.kvBuffers, pool.edgeBuffers
    ensures pool.Valid() && b' == WithKv(b, i, kv) && Divides(m, pool.Mem(), t, a, b')
  {
    hide Holds, Divides, Becomes, Pool.Mem, Pool.Valid;
    ghost var m1 := pool.Mem();
    DividesHolds(m, m1, t, a, b);
    RootPlace(b);
    b' := InsertInLeaf(leaf, i, kv, pool, b, []);
    DividesSecond(m, m1, pool.Mem(), t, a, b, b');
  }

  method SplitLeaf(leaf: Node, i: nat, kv: KV, pool: Pool, ghost t: Tree, ghost p: Path)
    returns (split: SplitResult, e: Handle, ghost t': Tree, ghost r: Tree)
    requires pool.Valid() && Holds(pool.Mem(), t) && At(t, p, leaf) && SubAt(t, p).kids == []
    requires i <= |SubAt(t, p).kvs| == CAPACITY
    modifies pool, pool.nodes, pool.kvBuffers, pool.edgeBuffers
    ensures pool.Valid() && fresh(pool.Repr() - old(pool.Repr()))
    ensures var (pt, w, c) := (Splitpoint(i), WithKv(SubAt(t, p), i, kv), Cut(i));
      && c < |w.kvs| && split.kv == w.kvs[c] && e == Handle(if pt.onLeft then leaf else split.right, pt.idx)
      && t' == SetAt(t, p, Head(w, c)) && r == Tail(split.right, w, c + 1)
    ensures Divides(old(pool.Mem()), pool.Mem(), t, t', r)
  {
    hide Holds, SubAt, ValidPath, Divides, Becomes, Cut, Splitpoint, Pool.Mem, Pool.Valid;
    ghost var m, s := pool.Mem(), SubAt(t, p);
    var pt := Splitpoint(i);
    var k, right;
    k, right, t', r := Split(leaf, pt.middle, pool, t, p);
    CutLeaf(s, i, kv, right);
    SplitTops(s, pt.middle, right);
    split, e := SplitResult(k, right), Handle(if pt.onLeft then leaf else right, pt.idx);
    if pt.onLeft {
      t' := FillLeft(leaf, pt.idx, kv, pool, m, t, p, t', r, Head(s, pt.middle));
    } else {
      r := FillRight(right, pt.idx, kv, pool, m, t, t', r);
    }
  }

  lemma SplitTops(s: Tree, i: nat, n: Node)
    requires i < |s.kvs| && Arity(s)
    ensures Head(s, i).node == s.node && Tail(n, s, i + 1).node == n
    ensures s.kids == [] ==> Head(s, i).kids == [] && Tail(n, s, i + 1).kids == []
    ensures |Head(s, i).kvs| == i && |Tail(n, s, i + 1).kvs| == |s.kvs| - i - 1
  {
  }

  lemma RootPlace(t: Tree)
    ensures ValidPath(t, []) && SubAt(t, []) == t && forall s :: SetAt(t, [], s) == s
  {
  }

  /** Hangs a tree into the part of a divided tree that is left in place, or into the part split off. */
  method HangLeft(node: Node, i: nat, kv: KV, edge: Node, pool: Pool, ghost m: Mem, ghost t: Tree, ghost q: Path,
                  ghost r: Tree,
                  ghost a: Tree, ghost b: Tree, ghost h: Tree)
    returns (ghost a': Tree)
    requires pool.Valid() && HoldsBoth(m, t, r) && Divides(m, pool.Mem(), t, a, b) && ValidPath(t, q)
    requires a == SetAt(t, q, h)
    requires r.node == edge && h.node == node && h.kids != [] && Arity(h) && i <= |h.kvs| < CAPACITY
    modifies pool.nodes, pool.kvBuffers, pool.edgeBuffers
    ensures pool.Valid() && a' == SetAt(t, q, WithChild(h, i, kv, r)) && Trades(m, pool.Mem(), t, r, a', b)
  {
    hide Holds, HoldsBoth, SubAt, ValidPath, Divides, Unites, Trades, WithChild, Pool.Mem, Pool.Valid;
    ghost var m1 := pool.Mem();
    DividedBeside(m, m1, t, r, a, b);
    SetAtPlace(t, q, h);
    a' := HangAt(node, i, kv, edge, pool, a, q, r);
    assert WithChild(h, i, kv, r).node == h.node by { ChildNode(h, i, kv, r); }
    SetAtTwice(t, q, h, WithChild(h, i, kv, r));
    TradesFirst(m, m1, pool.Mem(), t, r, a, b, a');
  }

  lemma ChildNode(h: Tree, i: nat, kv: KV, r: Tree)
    requires Arity(h) && h.kids != [] && i <= |h.kvs|
    ensures WithChild(h, i, kv, r).node == h.node
  {
  }

  method HangRight(node: Node, i: nat, kv: KV, edge: Node, pool: Pool, ghost m: Mem, ghost t: Tree, ghost r: Tree,
                   ghost a: Tree,
                   ghost b: Tree)
    returns (ghost b': Tree)
    requires pool.Valid() && HoldsBoth(m, t, r) && Divides(m, pool.Mem(), t, a, b)
    requires r.node == edge && b.node == node && b.kids != [] && Arity(b) && i <= |b.kvs| < CAPACITY
    modifies pool.nodes, pool.kvBuffers, pool.edgeBuffers
    ensures pool.Valid() && b' == WithChild(b, i, kv, r) && Trades(m, pool.Mem(), t, r, a, b')
  {
    hide Holds, HoldsBoth, Divides, Unites, Trades, WithChild, Pool.Mem, Pool.Valid;
    ghost var m1 := pool.Mem();
    DividedBeside(m, m1, t, r, a, b);
    RootPlace(b);
    b' := HangAt(node, i, kv, edge, pool, b, [], r);
    TradesSecond(m, m1, pool.Mem(), t, r, a, b, b');
  }

  method SplitInternal(node: Node, i: nat, kv: KV, edge: Node, pool: Pool, ghost t: Tree, ghost q: Path, ghost r: Tree)
    returns (split: SplitResult, ghost t': Tree, ghost r': Tree)
    requires pool.Valid() && HoldsBoth(pool.Mem(), t, r) && At(t, q, node) && r.node == edge
    requires var s := SubAt(t, q); |s.kids| == |s.kvs| + 1 && i <= |s.kvs| == CAPACITY
    modifies pool, pool.nodes, pool.kvBuffers, pool.edgeBuffers
    ensures pool.Valid() && fresh(pool.Repr() - old(pool.Repr()))
    ensures var (w, c) := (WithChild(SubAt(t, q), i, kv, r), Cut(i));
      && Arity(w) && c < |w.kvs| && split.kv == w.kvs[c]
      && t' == SetAt(t, q, Head(w, c)) && r' == Tail(split.right, w, c + 1)
    ensures Trades(old(pool.Mem()), pool.Mem(), t, r, t', r')
  {
    hide Holds, HoldsBoth, SubAt, ValidPath, Divides, Unites, Trades, Cut, Splitpoint, WithChild, Put, Pool.Mem,
         Pool.Valid;
    ghost var m, s := pool.Mem(), SubAt(t, q);
    BothHold(m, t, r);
    var pt := Splitpoint(i);
    var k, right;
    k, right, t', r' := Split(node, pt.middle, pool, t, q);
    CutInternal(s, i, kv, r, right);
    SplitTops(s, pt.middle, right);
    split := SplitResult(k, right);
    if pt.onLeft {
      t' := HangLeft(node, pt.idx, kv, edge, pool, m, t, q, r, t', r', Head(s, pt.middle));
    } else {
      r' := HangRight(right, pt.idx, kv, edge, pool, m, t, r, t', r');
    }
  }

  lemma BothHold(m: Mem, a: Tree, b: Tree)
    requires HoldsBoth(m, a, b)
    ensures Holds(m, a) && Holds(m, b)
  {
  }

  /** A new root above the two parts of the old one. */
  method SplitRoot(root: Root, split: SplitResult, pool: Pool, ghost t: Tree, ghost r: Tree) returns (ghost t': Tree)
    requires pool.Valid() && HoldsBoth(pool.Mem(), t, r) && root.node == t.node && split.right == r.node
    modifies root, pool, pool.nodes, pool.kvBuffers, pool.edgeBuffers
    ensures pool.Valid() && fresh(pool.Repr() - old(pool.Repr()))
    ensures root.height == old(root.height) + 1 && root.node != old(root.node)
    ensures t' == WithChild(Raised(root.node, t), 0, split.kv, r) && t'.node == root.node
    ensures Unites(old(pool.Mem()), pool.Mem(), t, r, t')
  {
    hide Holds, HoldsBoth, Unites, Becomes, ValidPath, SubAt, Pool.Mem, Pool.Valid;
    ghost var m := pool.Mem();
    BothHold(m, t, r);
    assert root.node in m by { RootIn(m, t); }
    var t1 := root.PushInternalLevel(pool, t);
    ghost var m1 := pool.Mem();
    BothFirst(m, m1, t, r, t1);
    RootPlace(t1);
    t' := HangAt(root.node, 0, split.kv, split.right, pool, t1, [], r);
    UnitesAfter(m, m1, pool.Mem(), t, r, t1, t');
  }

  lemma UnitesAfter(m: Mem, m1: Mem, m2: Mem, t: Tree, r: Tree, t1: Tree, t2: Tree)
    requires Edited(m, m1, Bag(t) + Bag(r), Bag(t1) + Bag(r)) && Unites(m1, m2, t1, r, t2)
    ensures Unites(m, m2, t, r, t2)
  {
    EditedTrans(m, m1, m2, Bag(t) + Bag(r), Bag(t1) + Bag(r), Bag(t2));
  }

  lemma SplitNodeKept(t: Tree, q: Path, w: Tree, c: nat)
    requires ValidPath(t, q) && w.node == SubAt(t, q).node && Arity(w) && c < |w.kvs|
    ensures SetAt(t, q, Head(w, c)).node == t.node && At(SetAt(t, q, Head(w, c)), q, w.node)
  {
    SetAtPlace(t, q, Head(w, c));
  }

  /** What has been done when the part split off below still waits to be put into the tree. */
  ghost predicate Waiting(m0: Mem, m: Mem, t0: Tree, t: Tree, r: Tree, split: SplitResult) {
    Divides(m0, m, t0, t, r) && split.right == r.node && t.node == t0.node
  }

  /** One step up: puts the part split off below into the parent, which may split in turn. */
  method InsertIntoParent(parent: Node, i: nat, split: SplitResult, pool: Pool, ghost m0: Mem, ghost t0: Tree,
                          ghost t: Tree, ghost h: nat, ghost q: Path, ghost r: Tree,
                          ghost f: seq<KV>, ghost e: Handle, ghost g: nat, ghost x: KV)
    returns (next: Option<SplitResult>, ghost t': Tree, ghost r': Tree)
    requires pool.Valid() && Waiting(m0, pool.Mem(), t0, t, r, split) && At(t, q, parent)
    requires Pending(t, h, q + [i], split.kv, r, f, e, g, x)
    modifies pool, pool.nodes, pool.kvBuffers, pool.edgeBuffers
    ensures pool.Valid() && fresh(pool.Repr() - old(pool.Repr()))
    ensures next.None? ==> Finished(t', h, f, e, g, x) && Becomes(m0, pool.Mem(), t0, t') && t'.node == t0.node
    ensures next.Some? ==> Pending(t', h, q, next.value.kv, r', f, e, g, x) && At(t', q, parent)
    ensures next.Some? ==> Waiting(m0, pool.Mem(), t0, t', r', next.value)
    ensures FilledAbove(t, q + [i]) <==> next.Some? && FilledAbove(t', q)
  {
    hide Holds, HoldsBoth, SubAt, ValidPath, Divides, Becomes, Pending, Finished, Cut, WithChild, Head, Tail, Pool.Mem,
         Pool.Valid, SetAt, FilledAbove;
    ghost var m := pool.Mem();
    DividesHolds(m0, m, t0, t, r);
    PendingParent(t, h, q, i, split.kv, r, f, e, g, x);
    FilledUp(t, q, i);
    var len := Len(parent, pool, t, q);
    if len < CAPACITY {
      t' := InsertFitting(parent, i, split, pool, m0, t0, t, q, r);
      r', next := r, None;
      ParentFits(t, h, q, i, split.kv, r, f, e, g, x);
    } else {
      var s;
      s, t', r' := InsertSplitting(parent, i, split, pool, m0, t0, t, q, r);
      ParentSplits(t, h, q, i, split.kv, r, f, e, g, x, s.right);
      FilledSet(t, q, Head(WithChild(SubAt(t, q), i, split.kv, r), Cut(i)));
      next := Some(s);
    }
  }

  lemma PendingParent(t: Tree, h: nat, q: Path, i: nat, kv: KV, r: Tree, f: seq<KV>, e: Handle, g: nat, x: KV)
    requires Pending(t, h, q + [i], kv, r, f, e, g, x) && ValidPath(t, q)
    ensures var s := SubAt(t, q); |s.kids| == |s.kvs| + 1 && i <= |s.kvs| <= CAPACITY && ValidPath(t, q + [i])
  {
    FullStep(t, h, 1, q, i);
  }

  method InsertFitting(parent: Node, i: nat, split: SplitResult, pool: Pool, ghost m0: Mem, ghost t0: Tree,
                       ghost t: Tree, ghost q: Path, ghost r: Tree) returns (ghost t': Tree)
    requires pool.Valid() && Waiting(m0, pool.Mem(), t0, t, r, split) && At(t, q, parent)
    requires var s := SubAt(t, q); |s.kids| == |s.kvs| + 1 && i <= |s.kvs| < CAPACITY
    modifies pool.nodes, pool.kvBuffers, pool.edgeBuffers
    ensures pool.Valid() && t' == SetAt(t, q, WithChild(SubAt(t, q), i, split.kv, r))
    ensures Becomes(m0, pool.Mem(), t0, t') && t'.node == t0.node
  {
    hide Holds, HoldsBoth, SubAt, ValidPath, Divides, Unites, Becomes, WithChild, Pool.Mem, Pool.Valid;
    ghost var m := pool.Mem();
    DividesHolds(m0, m, t0, t, r);
    t' := HangAt(parent, i, split.kv, split.right, pool, t, q, r);
    HungNode(t, q, i, split.kv, r);
    DividesUnites(m0, m, pool.Mem(), t0, t, r, t');
  }

  method InsertSplitting(parent: Node, i: nat, split: SplitResult, pool: Pool, ghost m0: Mem, ghost t0: Tree,
                         ghost t: Tree, ghost q: Path, ghost r: Tree)
    returns (next: SplitResult, ghost t': Tree, ghost r': Tree)
    requires pool.Valid() && Waiting(m0, pool.Mem(), t0, t, r, split) && At(t, q, parent)
    requires var s := SubAt(t, q); |s.kids| == |s.kvs| + 1 && i <= |s.kvs| == CAPACITY
    modifies pool, pool.nodes, pool.kvBuffers, pool.edgeBuffers
    ensures pool.Valid() && fresh(pool.Repr() - old(pool.Repr()))
    ensures var (w, c) := (WithChild(SubAt(t, q), i, split.kv, r), Cut(i));
      && Arity(w) && c < |w.kvs| && next.kv == w.kvs[c]
      && t' == SetAt(t, q, Head(w, c)) && r' == Tail(next.right, w, c + 1)
    ensures At(t', q, parent) && Waiting(m0, pool.Mem(), t0, t', r', next)
  {
    hide Holds, HoldsBoth, SubAt, ValidPath, Divides, Trades, WithChild, Cut, Pool.Mem, Pool.Valid;
    ghost var m := pool.Mem();
    DividesHolds(m0, m, t0, t, r);
    next, t', r' := SplitInternal(parent, i, split.kv, split.right, pool, t, q, r);
    HungNode(t, q, i, split.kv, r);
    SplitNodeKept(t, q, WithChild(SubAt(t, q), i, split.kv, r), Cut(i));
    DividesTrades(m0, m, pool.Mem(), t0, t, r, t', r');
  }

  lemma HungNode(t: Tree, q: Path, i: nat, kv: KV, r: Tree)
    requires ValidPath(t, q) && |SubAt(t, q).kids| == |SubAt(t, q).kvs| + 1 && i <= |SubAt(t, q).kvs|
    ensures var w := WithChild(SubAt(t, q), i, kv, r);
      w.node == SubAt(t, q).node && SetAt(t, q, w).node == t.node && Arity(w) && w.kids != []
  {
  }

  lemma WaitingHolds(m0: Mem, m: Mem, t0: Tree, t: Tree, r: Tree, split: SplitResult)
    requires Waiting(m0, m, t0, t, r, split)
    ensures Holds(m, t)
  {
  }

  lemma NothingAbove(t: Tree)
    ensures FilledAbove(t, [])
  {
  }

  method GrowRoot(root: Root, split: SplitResult, pool: Pool, ghost m0: Mem, ghost t0: Tree,
                  ghost t: Tree, ghost q: Path, ghost r: Tree, ghost f: seq<KV>, ghost e: Handle, ghost g: nat,
                  ghost x: KV)
    returns (ghost t': Tree)
    requires pool.Valid() && Waiting(m0, pool.Mem(), t0, t, r, split) && root.node == t0.node && q == []
    requires Pending(t, root.height, q, split.kv, r, f, e, g, x)
    modifies root, pool, pool.nodes, pool.kvBuffers, pool.edgeBuffers
    ensures pool.Valid() && fresh(pool.Repr() - old(pool.Repr()))
    ensures Finished(t', root.height, f, e, g, x) && Becomes(m0, pool.Mem(), t0, t') && t'.node == root.node
    ensures root.height == old(root.height) + 1 && root.node != old(root.node)
  {
    hide Holds, HoldsBoth, SubAt, ValidPath, Divides, Unites, Becomes, Pending, Finished, Pool.Mem, Pool.Valid;
    ghost var m := pool.Mem();
    DividesHolds(m0, m, t0, t, r);
    t' := SplitRoot(root, split, pool, t, r);
    RootSplits(t, root.height - 1, split.kv, r, f, e, g, x, root.node);
    DividesUnites(m0, m, pool.Mem(), t0, t, r, t');
  }

  /** One step up, or a new root. */
  method InsertAbove(node: Node, split: SplitResult, root: Root, pool: Pool, ghost m0: Mem, ghost t0: Tree,
                     ghost t: Tree, ghost q: Path, ghost r: Tree, ghost f: seq<KV>, ghost e: Handle, ghost g: nat,
                     ghost x: KV)
    returns (above: Node, next: Option<SplitResult>, ghost t': Tree, ghost r': Tree)
    requires pool.Valid() && Waiting(m0, pool.Mem(), t0, t, r, split) && At(t, q, node) && root.node == t0.node
    requires Pending(t, root.height, q, split.kv, r, f, e, g, x)
    modifies root, pool, pool.nodes, pool.kvBuffers, pool.edgeBuffers
    ensures pool.Valid() && fresh(pool.Repr() - old(pool.Repr()))
    ensures next.None? ==>
      Finished(t', root.height, f, e, g, x) && Becomes(m0, pool.Mem(), t0, t') && t'.node == root.node
    ensures next.None? ==> root.height == old(root.height) + if root.node == old(root.node) then 0 else 1
    ensures next.None? ==> (root.node != old(root.node) <==> FilledAbove(t, q))
    ensures next.Some? ==> root.node == t0.node && root.height == old(root.height) && q != []
    ensures next.Some? ==> (FilledAbove(t', q[..|q| - 1]) <==> FilledAbove(t, q))
    ensures next.Some? ==>
      Pending(t', root.height, q[..|q| - 1], next.value.kv, r', f, e, g, x) && At(t', q[..|q| - 1], above)
    ensures next.Some? ==> Waiting(m0, pool.Mem(), t0, t', r', next.value)
  {
    hide Holds, HoldsBoth, SubAt, ValidPath, Divides, Unites, Becomes, Pending, Finished, Waiting, Pool.Mem, Pool.Valid;
    hide FilledAbove;
    NothingAbove(t);
    WaitingHolds(m0, pool.Mem(), t0, t, r, split);
    var parent, i := Ascend(node, pool, t, q);
    if parent == null {
      t' := GrowRoot(root, split, pool, m0, t0, t, q, r, f, e, g, x);
      above, next, r' := node, None, r;
    } else {
      next, t', r' := InsertIntoParent(parent, i, split, pool, m0, t0, t, root.height, q[..|q| - 1], r, f, e, g, x);
      above := parent;
    }
  }

  /** Puts what was split off below into the ancestors, from the one above `start` up. */
  method InsertUpwards(start: Node, first: SplitResult, root: Root, pool: Pool, ghost m0: Mem, ghost t0: Tree,
                       ghost t1: Tree, ghost p: Path, ghost r1: Tree,
                       ghost f: seq<KV>, ghost e: Handle, ghost g: nat, ghost x: KV)
    returns (ghost t: Tree)
    requires pool.Valid() && Waiting(m0, pool.Mem(), t0, t1, r1, first) && At(t1, p, start) && root.node == t0.node
    requires Pending(t1, root.height, p, first.kv, r1, f, e, g, x)
    modifies root, pool, pool.nodes, pool.kvBuffers, pool.edgeBuffers
    ensures pool.Valid() && fresh(pool.Repr() - old(pool.Repr()))
    ensures Finished(t, root.height, f, e, g, x) && Becomes(m0, pool.Mem(), t0, t) && t.node == root.node
    ensures root.height == old(root.height) + if root.node == old(root.node) then 0 else 1
    ensures root.node != old(root.node) <==> FilledAbove(t1, p)
  {
    hide Holds, HoldsBoth, SubAt, ValidPath, Divides, Unites, Becomes, Pending, Finished, Waiting, At, FilledAbove;
    hide Pool.Mem, Pool.Valid;
    var node: Node, split := start, first;
    ghost var q, r := p, r1;
    t := t1;
    while true
      invariant pool.Valid() && fresh(pool.Repr() - old(pool.Repr()))
      invariant Waiting(m0, pool.Mem(), t0, t, r, split) && At(t, q, node)
      invariant Pending(t, root.height, q, split.kv, r, f, e, g, x)
      invariant root.node == t0.node && root.height == old(root.height)
      invariant FilledAbove(t, q) <==> FilledAbove(t1, p)
      decreases |q|
    {
      var next;
      node, next, t, r := InsertAbove(node, split, root, pool, m0, t0, t, q, r, f, e, g, x);
      if next.None? { return; }
      split, q := next.value, q[..|q| - 1];
    }
  }

  method InsertOverfull(edge: Handle, kv: KV, root: Root, pool: Pool, ghost t: Tree, ghost p: Path)
    returns (handle: Handle, ghost t': Tree)
    requires pool.Valid() && Holds(pool.Mem(), t) && root.node == t.node && Balanced(t, root.height)
    requires LeafEdge(t, p, edge) && |SubAt(t, p).kvs| == CAPACITY
    modifies root, pool, pool.nodes, pool.kvBuffers, pool.edgeBuffers
    ensures pool.Valid() && fresh(pool.Repr() - old(pool.Repr())) && Becomes(old(pool.Mem()), pool.Mem(), t, t')
    ensures var g := Gap(t, p, edge); g <= |Flat(t)| && Finished(t', root.height, Put(Flat(t), g, kv), handle, g, kv)
    ensures t'.node == root.node && root.height == old(root.height) + if root.node == old(root.node) then 0 else 1
    ensures root.node != old(root.node) <==> FilledThrough(t, p)
  {
    hide Holds, SubAt, ValidPath, Divides, Becomes, Pending, Finished, Cut, Splitpoint, WithKv, Put, Balanced, SetAt;
    hide FilledAbove, Head, Flat, Before, Pool.Mem, Pool.Valid;
    ghost var m := pool.Mem();
    var split;
    ghost var t1, r;
    split, handle, t1, r := SplitLeaf(edge.node, edge.idx, kv, pool, t, p);
    LeafSplits(t, root.height, p, edge.idx, kv, split.right);
    LeafNodeKept(t, p, edge.idx, kv);
    t' := InsertUpwards(edge.node, split, root, pool, m, t, t1, p, r,
                        Put(Flat(t), Gap(t, p, edge), kv), handle, Gap(t, p, edge), kv);
  }

  lemma LeafNodeKept(t: Tree, p: Path, i: nat, kv: KV)
    requires ValidPath(t, p) && SubAt(t, p).kids == [] && i <= |SubAt(t, p).kvs| == CAPACITY
    ensures var (w, c) := (WithKv(SubAt(t, p), i, kv), Cut(i));
      && c < |w.kvs| && At(SetAt(t, p, Head(w, c)), p, SubAt(t, p).node) && SetAt(t, p, Head(w, c)).node == t.node
      && (FilledAbove(SetAt(t, p, Head(w, c)), p) <==> FilledAbove(t, p))
  {
    hide FilledAbove;
    CutKvs(SubAt(t, p).kvs, i, kv);
    FilledSet(t, p, Head(WithKv(SubAt(t, p), i, kv), Cut(i)));
    SplitNodeKept(t, p, WithKv(SubAt(t, p), i, kv), Cut(i));
  }

  method InsertUnderfull(edge: Handle, kv: KV, pool: Pool, ghost t: Tree, ghost h: nat, ghost p: Path)
    returns (ghost t': Tree)
    requires pool.Valid() && Holds(pool.Mem(), t) && Balanced(t, h)
    requires LeafEdge(t, p, edge) && |SubAt(t, p).kvs| < CAPACITY
    modifies pool.nodes, pool.kvBuffers, pool.edgeBuffers
    ensures pool.Valid() && Becomes(old(pool.Mem()), pool.Mem(), t, t') && t'.node == t.node
    ensures var g := Gap(t, p, edge); g <= |Flat(t)| && Finished(t', h, Put(Flat(t), g, kv), edge, g, kv)
  {
    hide Holds, SubAt, ValidPath, Becomes, Put, Balanced, Finished, Pool.Mem, Pool.Valid;
    LeafFits(t, h, p, edge.idx, kv);
    t' := InsertInLeaf(edge.node, edge.idx, kv, pool, t, p);
    SetAtNode(t, p, SubAt(t, p).(kvs := Put(SubAt(t, p).kvs, edge.idx, kv)));
  }

  /** Inserts a pair at a leaf edge, splitting nodes up to the root as needed, and returns where it is afterwards. */
  method InsertRecursing(edge: Handle, kv: KV, root: Root, pool: Pool, ghost t: Tree, ghost p: Path)
    returns (handle: Handle, ghost t': Tree, ghost p': Path)
    requires pool.Valid() && Holds(pool.Mem(), t) && root.node == t.node && Balanced(t, root.height)
    requires LeafEdge(t, p, edge)
    modifies root, pool, pool.nodes, pool.kvBuffers, pool.edgeBuffers
    ensures pool.Valid() && fresh(pool.Repr() - old(pool.Repr())) && Becomes(old(pool.Mem()), pool.Mem(), t, t')
    ensures t'.node == root.node && Full(t', root.height, 1)
    ensures var g := Gap(t, p, edge);
      && g <= |Flat(t)| && Flat(t') == Put(Flat(t), g, kv)
      && Kv(t', p', handle) && SubAt(t', p').kids == [] && Index(t', p', handle) == g
      && SubAt(t', p').kvs[handle.idx] == kv
    ensures root.height == old(root.height) + if FilledThrough(t, p) then 1 else 0
    ensures root.node != old(root.node) <==> FilledThrough(t, p)
  {
    hide Holds, SubAt, ValidPath, Becomes, Full, Put, Balanced, KvIn, Row, FilledAbove, Pool.Mem, Pool.Valid;
    var len := Len(edge.node, pool, t, p);
    if len < CAPACITY {
      t' := InsertUnderfull(edge, kv, pool, t, root.height, p);
      handle := edge;
    } else {
      handle, t' := InsertOverfull(edge, kv, root, pool, t, p);
    }
    FullRegular(t', root.height, 1);
    p' := KvInPath(t', handle, Gap(t, p, edge), kv);
  }
}
