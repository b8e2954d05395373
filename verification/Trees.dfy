/** Trees of nodes as values: the sequence of pairs a tree holds, places in a tree given by paths
    from its root, and what putting another subtree at such a place changes. */
module Trees {
  import opened Nodes

  /** The tree hanging from `node`, as a value. A leaf has no children. */
  datatype Tree = Tree(node: Node, kvs: seq<KV>, kids: seq<Tree>)

  type Path = seq<nat>

  // ----- In-order contents

  ghost function Flat(t: Tree): seq<KV>
    decreases t, 1
  {
    if t.kids == [] then t.kvs else Weave(t.kids, t.kvs)
  }

  /** Children interleaved with the pairs that separate them. */
  ghost function Weave(kids: seq<Tree>, kvs: seq<KV>): seq<KV>
    decreases kids, 0
  {
    if kids == [] then []
    else if |kids| == 1 || kvs == [] then Flat(kids[0])
    else Flat(kids[0]) + [kvs[0]] + Weave(kids[1..], kvs[1..])
  }

  /** What comes before child `i`. */
  ghost function Left(kids: seq<Tree>, kvs: seq<KV>, i: nat): seq<KV>
    requires |kids| == |kvs| + 1 && i < |kids|
  {
    if i == 0 then [] else Weave(kids[..i], kvs[..i - 1]) + [kvs[i - 1]]
  }

  /** What comes after child `i`. */
  ghost function Right(kids: seq<Tree>, kvs: seq<KV>, i: nat): seq<KV>
    requires |kids| == |kvs| + 1 && i < |kids|
  {
    if i == |kvs| then [] else [kvs[i]] + Weave(kids[i + 1..], kvs[i + 1..])
  }

  lemma {:induction false} WeaveJoin(kidsL: seq<Tree>, kvsL: seq<KV>, kv: KV, kidsR: seq<Tree>, kvsR: seq<KV>)
    requires |kidsL| == |kvsL| + 1 && |kidsR| == |kvsR| + 1
    ensures Weave(kidsL + kidsR, kvsL + [kv] + kvsR) == Weave(kidsL, kvsL) + [kv] + Weave(kidsR, kvsR)
    decreases kidsL
  {
    var kids, kvs := kidsL + kidsR, kvsL + [kv] + kvsR;
    if |kidsL| == 1 {
      assert kids[1..] == kidsR && kvs[1..] == kvsR;
    } else {
      assert kids[1..] == kidsL[1..] + kidsR && kvs[1..] == kvsL[1..] + [kv] + kvsR;
      WeaveJoin(kidsL[1..], kvsL[1..], kv, kidsR, kvsR);
    }
  }

  lemma WeaveSplit(kids: seq<Tree>, kvs: seq<KV>, i: nat)
    requires |kids| == |kvs| + 1 && i < |kvs|
    ensures Weave(kids, kvs) == Weave(kids[..i + 1], kvs[..i]) + [kvs[i]] + Weave(kids[i + 1..], kvs[i + 1..])
  {
    assert kids == kids[..i + 1] + kids[i + 1..];
    assert kvs == kvs[..i] + [kvs[i]] + kvs[i + 1..];
    WeaveJoin(kids[..i + 1], kvs[..i], kvs[i], kids[i + 1..], kvs[i + 1..]);
  }

  lemma WeaveLast(kids: seq<Tree>, kvs: seq<KV>)
    requires |kids| == |kvs| + 1
    ensures Weave(kids, kvs) == Left(kids, kvs, |kvs|) + Flat(kids[|kvs|])
  {
    if kvs != [] {
      var n := |kvs|;
      WeaveSplit(kids, kvs, n - 1);
      assert kids[n..] == [kids[n]] && kvs[n..] == [];
    }
  }

  /** What precedes child `i` does not depend on that child or on what follows it. */
  lemma LeftPrefix(kids: seq<Tree>, kvs: seq<KV>, kids': seq<Tree>, kvs': seq<KV>, i: nat)
    requires |kids| == |kvs| + 1 && |kids'| == |kvs'| + 1 && i < |kids| && i < |kids'|
    requires kids[..i] == kids'[..i] && kvs[..i] == kvs'[..i]
    ensures Left(kids, kvs, i) == Left(kids', kvs', i)
  {
    if 0 < i {
      assert kvs[..i - 1] == kvs[..i][..i - 1] == kvs'[..i - 1];
      assert kvs[i - 1] == kvs[..i][i - 1] == kvs'[i - 1];
    }
  }

  lemma WeaveUpTo(kids: seq<Tree>, kvs: seq<KV>, i: nat)
    requires |kids| == |kvs| + 1 && i < |kids|
    ensures Weave(kids[..i + 1], kvs[..i]) == Left(kids, kvs, i) + Flat(kids[i])
  {
    hide Weave, Left, Flat;
    WeaveLast(kids[..i + 1], kvs[..i]);
    LeftPrefix(kids[..i + 1], kvs[..i], kids, kvs, i);
  }

  lemma WeaveAt(kids: seq<Tree>, kvs: seq<KV>, i: nat)
    requires |kids| == |kvs| + 1 && i < |kids|
    ensures Weave(kids, kvs) == Left(kids, kvs, i) + Flat(kids[i]) + Right(kids, kvs, i)
  {
    hide Weave, Left, Flat;
    WeaveUpTo(kids, kvs, i);
    if i < |kvs| {
      WeaveSplit(kids, kvs, i);
      Associative(Left(kids, kvs, i) + Flat(kids[i]), [kvs[i]], Weave(kids[i + 1..], kvs[i + 1..]));
    } else {
      assert kids[..i + 1] == kids && kvs[..i] == kvs;
    }
  }

  // ----- Places

  /** The path leads to a node, through nodes with one more child than pairs. */
  ghost predicate ValidPath(t: Tree, p: Path)
    decreases |p|
  {
    p == [] || (p[0] < |t.kids| && |t.kids| == |t.kvs| + 1 && ValidPath(t.kids[p[0]], p[1..]))
  }

  ghost function SubAt(t: Tree, p: Path): Tree
    requires ValidPath(t, p)
    decreases |p|
  {
    if p == [] then t else SubAt(t.kids[p[0]], p[1..])
  }

  ghost function SetAt(t: Tree, p: Path, s: Tree): Tree
    requires ValidPath(t, p)
    decreases |p|
  {
    if p == [] then s else t.(kids := t.kids[p[0] := SetAt(t.kids[p[0]], p[1..], s)])
  }

  /** The pairs before the subtree at `p`, in order. */
  ghost function Before(t: Tree, p: Path): seq<KV>
    requires ValidPath(t, p)
    decreases |p|
  {
    if p == [] then [] else Left(t.kids, t.kvs, p[0]) + Before(t.kids[p[0]], p[1..])
  }

  ghost function After(t: Tree, p: Path): seq<KV>
    requires ValidPath(t, p)
    decreases |p|
  {
    if p == [] then [] else After(t.kids[p[0]], p[1..]) + Right(t.kids, t.kvs, p[0])
  }

  lemma {:induction false} FlatAt(t: Tree, p: Path)
    requires ValidPath(t, p)
    ensures Flat(t) == Before(t, p) + Flat(SubAt(t, p)) + After(t, p)
    decreases |p|
  {
    if p != [] {
      WeaveAt(t.kids, t.kvs, p[0]);
      FlatAt(t.kids[p[0]], p[1..]);
    }
  }

  lemma SwapKid(kids: seq<Tree>, kvs: seq<KV>, i: nat, k: Tree)
    requires |kids| == |kvs| + 1 && i < |kids|
    ensures Left(kids[i := k], kvs, i) == Left(kids, kvs, i)
    ensures Right(kids[i := k], kvs, i) == Right(kids, kvs, i)
    ensures Weave(kids[i := k], kvs) == Left(kids, kvs, i) + Flat(k) + Right(kids, kvs, i)
  {
    var kids' := kids[i := k];
    assert kids'[..i] == kids[..i] && kids'[i + 1..] == kids[i + 1..];
    WeaveAt(kids', kvs, i);
  }

  lemma {:induction false} SetAtPlace(t: Tree, p: Path, s: Tree)
    requires ValidPath(t, p)
    ensures ValidPath(SetAt(t, p, s), p) && SubAt(SetAt(t, p, s), p) == s
    ensures Before(SetAt(t, p, s), p) == Before(t, p) && After(SetAt(t, p, s), p) == After(t, p)
    decreases |p|
  {
    if p != [] {
      var k := SetAt(t.kids[p[0]], p[1..], s);
      SetAtPlace(t.kids[p[0]], p[1..], s);
      SwapKid(t.kids, t.kvs, p[0], k);
    }
  }

  lemma SetAtFlat(t: Tree, p: Path, s: Tree)
    requires ValidPath(t, p)
    ensures Flat(SetAt(t, p, s)) == Before(t, p) + Flat(s) + After(t, p)
  {
    SetAtPlace(t, p, s);
    FlatAt(SetAt(t, p, s), p);
  }

  lemma SetAtSameFlat(t: Tree, p: Path, s: Tree)
    requires ValidPath(t, p) && Flat(s) == Flat(SubAt(t, p))
    ensures Flat(SetAt(t, p, s)) == Flat(t)
  {
    SetAtFlat(t, p, s);
    FlatAt(t, p);
  }

  lemma {:induction false} PathConcat(t: Tree, p: Path, q: Path)
    requires ValidPath(t, p) && ValidPath(SubAt(t, p), q)
    ensures ValidPath(t, p + q) && SubAt(t, p + q) == SubAt(SubAt(t, p), q)
    ensures Before(t, p + q) == Before(t, p) + Before(SubAt(t, p), q)
    ensures After(t, p + q) == After(SubAt(t, p), q) + After(t, p)
    decreases |p|
  {
    hide Left, Right;
    if p == [] {
      assert p + q == q;
    } else {
      assert (p + q)[1..] == p[1..] + q;
      PathConcat(t.kids[p[0]], p[1..], q);
    }
  }

  lemma {:induction false} PathPrefix(t: Tree, p: Path, q: Path)
    requires ValidPath(t, p + q)
    ensures ValidPath(t, p) && ValidPath(SubAt(t, p), q)
    decreases |p|
  {
    if p == [] {
      assert p + q == q;
    } else {
      assert (p + q)[1..] == p[1..] + q;
      PathPrefix(t.kids[p[0]], p[1..], q);
    }
  }

  lemma OneStep(s: Tree, i: nat)
    requires |s.kids| == |s.kvs| + 1 && i < |s.kids|
    ensures ValidPath(s, [i]) && SubAt(s, [i]) == s.kids[i]
    ensures Before(s, [i]) == Left(s.kids, s.kvs, i) && After(s, [i]) == Right(s.kids, s.kvs, i)
  {
    var p: Path := [i];
    assert p[1..] == [];
    var k := s.kids[i];
    assert ValidPath(k, []) && Before(k, []) == [] && After(k, []) == [] && SubAt(k, []) == k;
  }

  /** The step from a node at `p` to its child `i`. */
  lemma Step(t: Tree, p: Path, i: nat)
    requires ValidPath(t, p)
    requires var s := SubAt(t, p); |s.kids| == |s.kvs| + 1 && i < |s.kids|
    ensures ValidPath(t, p + [i]) && SubAt(t, p + [i]) == SubAt(t, p).kids[i]
    ensures var s := SubAt(t, p);
      && Before(t, p + [i]) == Before(t, p) + Left(s.kids, s.kvs, i)
      && After(t, p + [i]) == Right(s.kids, s.kvs, i) + After(t, p)
  {
    OneStep(SubAt(t, p), i);
    PathConcat(t, p, [i]);
  }

  /** The step from a node to its parent. */
  lemma StepUp(t: Tree, p: Path)
    requires ValidPath(t, p) && p != []
    ensures var (q, i) := (p[..|p| - 1], p[|p| - 1]);
      && p == q + [i] && ValidPath(t, q)
      && var s := SubAt(t, q);
      && |s.kids| == |s.kvs| + 1 && i < |s.kids| && SubAt(t, p) == s.kids[i]
      && Before(t, p) == Before(t, q) + Left(s.kids, s.kvs, i)
      && After(t, p) == Right(s.kids, s.kvs, i) + After(t, q)
  {
    var q, i := p[..|p| - 1], p[|p| - 1];
    assert p == q + [i];
    PathPrefix(t, q, [i]);
    Step(t, q, i);
  }

  // ----- Footprints

  /** Every node of the tree, as often as it is used. */
  ghost function Bag(t: Tree): multiset<Node>
    decreases t, 1
  {
    multiset{t.node} + Bags(t.kids)
  }

  ghost function Bags(kids: seq<Tree>): multiset<Node>
    decreases kids, 0
  {
    if kids == [] then multiset{} else Bag(kids[0]) + Bags(kids[1..])
  }

  /** No node is used twice. */
  ghost predicate Once(m: multiset<Node>) { forall n :: n in m ==> m[n] == 1 }

  lemma BagsOne(t: Tree)
    ensures Bags([t]) == Bag(t)
  {
    assert [t][1..] == [];
    assert Bags([]) == multiset{};
  }

  lemma {:induction false} BagsConcat(a: seq<Tree>, b: seq<Tree>)
    ensures Bags(a + b) == Bags(a) + Bags(b)
    decreases a
  {
    if a == [] {
      assert a + b == b;
    } else {
      assert (a + b)[1..] == a[1..] + b;
      BagsConcat(a[1..], b);
    }
  }

  lemma BagsAt(kids: seq<Tree>, i: nat)
    requires i < |kids|
    ensures Bags(kids) == Bags(kids[..i]) + Bag(kids[i]) + Bags(kids[i + 1..])
  {
    assert kids == kids[..i] + kids[i..];
    BagsConcat(kids[..i], kids[i..]);
    assert kids[i..][1..] == kids[i + 1..];
  }

  /** The nodes of the tree that are not in the subtree at `p`. */
  ghost function Around(t: Tree, p: Path): multiset<Node>
    requires ValidPath(t, p)
    decreases |p|
  {
    if p == [] then multiset{}
    else multiset{t.node} + Bags(t.kids[..p[0]]) + Bags(t.kids[p[0] + 1..]) + Around(t.kids[p[0]], p[1..])
  }

  lemma {:induction false} BagAt(t: Tree, p: Path)
    requires ValidPath(t, p)
    ensures Bag(t) == Around(t, p) + Bag(SubAt(t, p))
    decreases |p|
  {
    if p != [] {
      BagsAt(t.kids, p[0]);
      BagAt(t.kids[p[0]], p[1..]);
    }
  }

  lemma {:induction false} SetAtAround(t: Tree, p: Path, s: Tree)
    requires ValidPath(t, p) && ValidPath(SetAt(t, p, s), p)
    ensures Around(SetAt(t, p, s), p) == Around(t, p)
    decreases |p|
  {
    if p != [] {
      var t' := SetAt(t, p, s);
      assert t'.kids[..p[0]] == t.kids[..p[0]] && t'.kids[p[0] + 1..] == t.kids[p[0] + 1..];
      SetAtAround(t.kids[p[0]], p[1..], s);
    }
  }

  lemma Associative<T>(x: seq<T>, y: seq<T>, z: seq<T>)
    ensures x + (y + z) == x + y + z
  {
  }
}
