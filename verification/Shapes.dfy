/** How full the nodes of a tree are. All leaves are equally deep; every node but the root has at least
    MIN_LEN pairs, and operations pass through trees where this fails along one path. */
module Shapes {
  import opened Nodes
  import opened Trees
  import opened Edits

  /** A tree of height `h` whose root has at least `lo` pairs, and every other node MIN_LEN. */
  ghost predicate Full(t: Tree, h: nat, lo: nat)
    decreases h, 0
  {
    && lo <= |t.kvs| <= CAPACITY
    && if h == 0 then t.kids == [] else |t.kids| == |t.kvs| + 1 && FullKids(t.kids, h - 1)
  }

  ghost predicate FullKids(kids: seq<Tree>, h: nat)
    decreases h, 1
  {
    forall i :: 0 <= i < |kids| ==> Full(kids[i], h, MIN_LEN)
  }

  /** How many pairs the node at `p` must have, if the root must have `lo`. */
  ghost function Least(lo: nat, p: Path): nat { if p == [] then lo else MIN_LEN }

  /** The tree is full, but for what hangs at `p`. */
  ghost predicate FullAround(t: Tree, h: nat, lo: nat, p: Path)
    decreases |p|
  {
    p == [] || (h > 0 && FullBut(t, h, lo, p[0]) && FullAround(t.kids[p[0]], h - 1, MIN_LEN, p[1..]))
  }

  /** The node is full, but for what its child `i` is. */
  ghost predicate FullBut(s: Tree, h: nat, lo: nat, i: nat)
    requires h > 0
  {
    && lo <= |s.kvs| <= CAPACITY && |s.kids| == |s.kvs| + 1 && i < |s.kids|
    && FullKids(s.kids[..i], h - 1) && FullKids(s.kids[i + 1..], h - 1)
  }

  /** A tree as the map keeps it: an internal root is not empty. */
  ghost predicate Balanced(t: Tree, h: nat) { Full(t, h, if h == 0 then 0 else 1) }

  lemma FullArity(t: Tree, h: nat, lo: nat)
    requires Full(t, h, lo)
    ensures Arity(t) && (t.kids == [] <==> h == 0)
  {
  }

  lemma FullFrom(t: Tree, h: nat, lo: nat, lo': nat)
    requires Full(t, h, lo) && lo' <= |t.kvs|
    ensures Full(t, h, lo')
  {
  }

  lemma FullButKid(s: Tree, h: nat, lo: nat, i: nat, k: Tree)
    requires h > 0 && FullBut(s, h, lo, i)
    ensures FullBut(s.(kids := s.kids[i := k]), h, lo, i)
    ensures Full(k, h - 1, MIN_LEN) ==> Full(s.(kids := s.kids[i := k]), h, lo)
  {
    var kids := s.kids[i := k];
    assert kids[..i] == s.kids[..i] && kids[i + 1..] == s.kids[i + 1..];
    forall j | 0 <= j < |kids| && j != i ensures Full(kids[j], h - 1, MIN_LEN) {
      if j < i {
        assert kids[j] == s.kids[..i][j];
      } else {
        assert kids[j] == s.kids[i + 1..][j - i - 1];
      }
    }
  }

  lemma FullIsBut(t: Tree, h: nat, lo: nat, i: nat)
    requires h > 0 && Full(t, h, lo) && i < |t.kids|
    ensures FullBut(t, h, lo, i) && Full(t.kids[i], h - 1, MIN_LEN)
  {
  }

  lemma {:induction false} FullSub(t: Tree, h: nat, lo: nat, p: Path)
    requires Full(t, h, lo) && ValidPath(t, p)
    ensures |p| <= h && FullAround(t, h, lo, p) && Full(SubAt(t, p), h - |p|, Least(lo, p))
    decreases |p|
  {
    if p != [] {
      FullIsBut(t, h, lo, p[0]);
      FullSub(t.kids[p[0]], h - 1, MIN_LEN, p[1..]);
    }
  }

  lemma {:induction false} FullSet(t: Tree, h: nat, lo: nat, p: Path, s: Tree)
    requires FullAround(t, h, lo, p)
    ensures |p| <= h && ValidPath(t, p) && FullAround(SetAt(t, p, s), h, lo, p)
    ensures Full(s, h - |p|, Least(lo, p)) ==> Full(SetAt(t, p, s), h, lo)
    decreases |p|
  {
    if p != [] {
      FullSet(t.kids[p[0]], h - 1, MIN_LEN, p[1..], s);
      FullButKid(t, h, lo, p[0], SetAt(t.kids[p[0]], p[1..], s));
    }
  }

  /** One step up or down the path. */
  lemma {:induction false} FullStep(t: Tree, h: nat, lo: nat, q: Path, i: nat)
    requires ValidPath(t, q) && |q| < h
    ensures FullAround(t, h, lo, q + [i])
      <==> FullAround(t, h, lo, q) && FullBut(SubAt(t, q), h - |q|, Least(lo, q), i)
    decreases |q|
  {
    var p := q + [i];
    if q == [] {
      assert p[1..] == [];
    } else {
      assert p[0] == q[0] && p[1..] == q[1..] + [i];
      FullStep(t.kids[q[0]], h - 1, MIN_LEN, q[1..], i);
    }
  }

  // ----- Edits

  lemma FullKidsConcat(a: seq<Tree>, b: seq<Tree>, h: nat)
    requires FullKids(a, h) && FullKids(b, h)
    ensures FullKids(a + b, h)
  {
  }

  lemma FullKidsPart(a: seq<Tree>, lo: nat, hi: nat, h: nat)
    requires FullKids(a, h) && lo <= hi <= |a|
    ensures FullKids(a[lo..hi], h)
  {
  }

  lemma FullJoin(node: Node, l: Tree, kv: KV, r: Tree, h: nat)
    requires Full(l, h, 0) && Full(r, h, 0) && |l.kvs| + 1 + |r.kvs| <= CAPACITY
    ensures Full(Join(node, l, kv, r), h, |l.kvs| + 1 + |r.kvs|)
  {
    if h > 0 { FullKidsConcat(l.kids, r.kids, h - 1); }
  }

  lemma FullHead(t: Tree, n: nat, h: nat)
    requires Full(t, h, 0) && n <= |t.kvs|
    ensures Full(Head(t, n), h, n)
  {
    if h > 0 { FullKidsPart(t.kids, 0, n + 1, h - 1); }
  }

  lemma FullTail(node: Node, t: Tree, n: nat, h: nat)
    requires Full(t, h, 0) && n <= |t.kvs|
    ensures Full(Tail(node, t, n), h, |t.kvs| - n)
  {
    if h > 0 { FullKidsPart(t.kids, n, |t.kids|, h - 1); }
  }

  /** The two children around pair `i` are the only ones that may not be full. */
  ghost predicate FullButPair(s: Tree, h: nat, lo: nat, i: nat)
    requires h > 0
  {
    && lo <= |s.kvs| <= CAPACITY && |s.kids| == |s.kvs| + 1 && i < |s.kvs|
    && FullKids(s.kids[..i], h - 1) && FullKids(s.kids[i + 2..], h - 1)
  }

  lemma FullContract(s: Tree, h: nat, lo: nat, i: nat, k: Tree)
    requires h > 0 && FullButPair(s, h, lo, i) && Pair(s, i)
    ensures FullBut(Contract(s, i, k), h, if lo > 0 then lo - 1 else 0, i)
    ensures Full(k, h - 1, MIN_LEN) ==> Full(Contract(s, i, k), h, if lo > 0 then lo - 1 else 0)
  {
    var s' := Contract(s, i, k);
    assert s'.kids[..i] == s.kids[..i] && s'.kids[i + 1..] == s.kids[i + 2..];
    FullButKid(s', h, if lo > 0 then lo - 1 else 0, i, k);
    assert s'.kids[i := k] == s'.kids;
  }

  lemma FullRegroup(s: Tree, h: nat, lo: nat, i: nat, l: Tree, kv: KV, r: Tree)
    requires h > 0 && FullButPair(s, h, lo, i) && Pair(s, i)
    ensures Full(l, h - 1, MIN_LEN) ==> FullBut(Regroup(s, i, l, kv, r), h, lo, i + 1)
    ensures Full(r, h - 1, MIN_LEN) ==> FullBut(Regroup(s, i, l, kv, r), h, lo, i)
    ensures Full(l, h - 1, MIN_LEN) && Full(r, h - 1, MIN_LEN) ==> Full(Regroup(s, i, l, kv, r), h, lo)
  {
    var s' := Regroup(s, i, l, kv, r);
    assert s'.kids[..i] == s.kids[..i] && s'.kids[i + 2..] == s.kids[i + 2..];
    assert s'.kids[..i + 1] == s.kids[..i] + [l] && s'.kids[i + 1..] == [r] + s.kids[i + 2..];
    assert s'.kids == s'.kids[..i + 1] + s'.kids[i + 1..];
    if Full(l, h - 1, MIN_LEN) { FullKidsConcat(s.kids[..i], [l], h - 1); }
    if Full(r, h - 1, MIN_LEN) { FullKidsConcat([r], s.kids[i + 2..], h - 1); }
    if Full(l, h - 1, MIN_LEN) && Full(r, h - 1, MIN_LEN) { FullKidsConcat(s'.kids[..i + 1], s'.kids[i + 1..], h - 1); }
  }

  lemma FullPair(s: Tree, h: nat, lo: nat, i: nat, j: nat)
    requires h > 0 && FullBut(s, h, lo, i) && (j == i || j + 1 == i) && j < |s.kvs|
    ensures FullButPair(s, h, lo, j)
    ensures j == i ==> Full(s.kids[j + 1], h - 1, MIN_LEN)
    ensures j + 1 == i ==> Full(s.kids[j], h - 1, MIN_LEN)
  {
    if j == i {
      assert s.kids[i + 1] == s.kids[i + 1..][0];
      assert s.kids[i + 2..] == s.kids[i + 1..][1..];
    } else {
      assert s.kids[j] == s.kids[..i][j];
      assert s.kids[..j] == s.kids[..i][..j];
    }
  }

  /** Merging an underfull child with a full one. */
  lemma FullMerged(s: Tree, h: nat, lo: nat, i: nat)
    requires h > 0 && FullButPair(s, h, lo, i) && Full(s.kids[i], h - 1, 0) && Full(s.kids[i + 1], h - 1, 0)
    requires MIN_LEN <= |s.kids[i].kvs| + 1 + |s.kids[i + 1].kvs| <= CAPACITY
    ensures Pair(s, i) && Full(Merged(s, i), h, if lo > 0 then lo - 1 else 0)
  {
    FullJoin(s.kids[i].node, s.kids[i], s.kvs[i], s.kids[i + 1], h - 1);
    FullContract(s, h, lo, i, Join(s.kids[i].node, s.kids[i], s.kvs[i], s.kids[i + 1]));
  }

  lemma FullStolenLeft(s: Tree, h: nat, lo: nat, i: nat, n: nat)
    requires h > 0 && FullButPair(s, h, lo, i) && Full(s.kids[i], h - 1, 0) && Full(s.kids[i + 1], h - 1, 0)
    requires MIN_LEN <= n < |s.kids[i].kvs| && MIN_LEN <= |s.kids[i].kvs| - n + |s.kids[i + 1].kvs| <= CAPACITY
    ensures Pair(s, i) && Full(StolenLeft(s, i, n), h, lo)
  {
    hide FullKids, Regroup, Join;
    var l, r := s.kids[i], s.kids[i + 1];
    FullHead(l, n, h - 1);
    FullTail(r.node, l, n + 1, h - 1);
    FullJoin(r.node, Tail(r.node, l, n + 1), s.kvs[i], r, h - 1);
    FullRegroup(s, h, lo, i, Head(l, n), l.kvs[n], Join(r.node, Tail(r.node, l, n + 1), s.kvs[i], r));
  }

  lemma FullStolenRight(s: Tree, h: nat, lo: nat, i: nat, n: nat)
    requires h > 0 && FullButPair(s, h, lo, i) && Full(s.kids[i], h - 1, 0) && Full(s.kids[i + 1], h - 1, 0)
    requires MIN_LEN <= |s.kids[i].kvs| + 1 + n <= CAPACITY && n + 1 + MIN_LEN <= |s.kids[i + 1].kvs|
    ensures Pair(s, i) && Full(StolenRight(s, i, n), h, lo)
  {
    hide FullKids, Regroup, Join;
    var l, r := s.kids[i], s.kids[i + 1];
    FullHead(r, n, h - 1);
    FullTail(r.node, r, n + 1, h - 1);
    FullJoin(l.node, l, s.kvs[i], Head(r, n), h - 1);
    FullRegroup(s, h, lo, i, Join(l.node, l, s.kvs[i], Head(r, n)), r.kvs[n], Tail(r.node, r, n + 1));
  }

  // ----- How many pairs a tree of a given height holds

  ghost function Pow(b: nat, n: nat): nat { if n == 0 then 1 else b * Pow(b, n - 1) }

  lemma {:induction false} SizeOfKids(kids: seq<Tree>, kvs: seq<KV>, h: nat)
    requires |kids| == |kvs| + 1 && FullKids(kids, h)
    ensures |kids| * Pow(B, h + 1) - 1 <= |Weave(kids, kvs)| <= |kids| * Pow(2 * B, h + 1) - 1
    decreases h, |kids|
  {
    SizeOfFull(kids[0], h, MIN_LEN);
    assert (MIN_LEN + 1) * Pow(B, h) == Pow(B, h + 1);
    if |kids| > 1 {
      hide Pow;
      FullKidsPart(kids, 1, |kids|, h);
      assert kids[1..|kids|] == kids[1..];
      SizeOfKids(kids[1..], kvs[1..], h);
      OneMore(|kids| - 1, Pow(B, h + 1));
      OneMore(|kids| - 1, Pow(2 * B, h + 1));
    }
  }

  /** A tree of height `h` with a root of at least `lo` pairs. */
  lemma {:induction false} SizeOfFull(t: Tree, h: nat, lo: nat)
    requires Full(t, h, lo)
    ensures (lo + 1) * Pow(B, h) - 1 <= |Flat(t)| <= Pow(2 * B, h + 1) - 1
    decreases h, 0
  {
    if h > 0 {
      SizeOfKids(t.kids, t.kvs, h - 1);
      Times(lo + 1, |t.kids|, Pow(B, h));
      Times(|t.kids|, 2 * B, Pow(2 * B, h));
    }
  }

  /** The floor of the logarithm to the base B, and 0 below 1. */
  ghost function Log(x: nat): nat { if x < B then 0 else 1 + Log(x / B) }

  lemma {:induction false} PowWithin(h: nat, x: nat)
    requires Pow(B, h) <= x
    ensures h <= Log(x)
    decreases h
  {
    if h > 0 {
      PowPositive(B, h - 1);
      PowWithin(h - 1, x / B);
    }
  }

  /** That is the exponent of the greatest power not above. */
  lemma {:induction false} LogIsFloor(x: nat)
    requires x > 0
    ensures Pow(B, Log(x)) <= x < Pow(B, Log(x) + 1)
    decreases x
  {
    if x >= B {
      LogIsFloor(x / B);
      var low, high := Pow(B, Log(x / B)), Pow(B, Log(x / B) + 1);
      assert B * low <= B * (x / B) <= x < B * (x / B) + B <= B * high;
    }
  }

  lemma {:induction false} PowPositive(b: nat, n: nat)
    requires b > 0
    ensures Pow(b, n) >= 1
  {
    if n > 0 { PowPositive(b, n - 1); }
  }

  /** How many pairs a tree of the map holds, and so how high it is. */
  lemma HeightIsLogarithmic(t: Tree, h: nat)
    requires Balanced(t, h)
    ensures |Flat(t)| <= Pow(2 * B, h + 1) - 1 && (h > 0 ==> 2 * Pow(B, h) - 1 <= |Flat(t)|)
    ensures h <= Log((|Flat(t)| + 1) / 2)
  {
    SizeOfFull(t, h, if h == 0 then 0 else 1);
    if h > 0 { PowWithin(h, (|Flat(t)| + 1) / 2); }
  }

  lemma OneMore(n: nat, x: nat)
    ensures (n + 1) * x == n * x + x
  {
  }

  lemma Times(a: nat, b: nat, c: nat)
    requires a <= b
    ensures a * c <= b * c
  {
  }
}
