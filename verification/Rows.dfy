/** The row of leaves of a tree: its leaves in order, and the pairs of internal nodes between them.
    Regrouping internal nodes keeps the row, and the row says how many pairs come before a leaf. */
module Rows {
  import opened Nodes
  import opened Trees
  import opened Edits

  datatype Item = Leaf(node: Node, kvs: seq<KV>) | Between(kv: KV)

  ghost function Row(t: Tree): seq<Item>
    decreases t, 1
  {
    if t.kids == [] then [Leaf(t.node, t.kvs)] else RowWeave(t.kids, t.kvs)
  }

  ghost function RowWeave(kids: seq<Tree>, kvs: seq<KV>): seq<Item>
    decreases kids, 0
  {
    if kids == [] then []
    else if |kids| == 1 || kvs == [] then Row(kids[0])
    else Row(kids[0]) + [Between(kvs[0])] + RowWeave(kids[1..], kvs[1..])
  }

  ghost function Pairs(row: seq<Item>): seq<KV> {
    if row == [] then [] else (if row[0].Leaf? then row[0].kvs else [row[0].kv]) + Pairs(row[1..])
  }

  lemma {:induction false} PairsConcat(a: seq<Item>, b: seq<Item>)
    ensures Pairs(a + b) == Pairs(a) + Pairs(b)
    decreases a
  {
    if a == [] {
      assert a + b == b;
    } else {
      assert (a + b)[1..] == a[1..] + b;
      PairsConcat(a[1..], b);
    }
  }

  lemma PairsOne(x: Item)
    ensures Pairs([x]) == if x.Leaf? then x.kvs else [x.kv]
  {
    assert Pairs([x][1..]) == [];
  }

  /** The row holds the pairs of the tree in order. */
  lemma {:induction false} PairsOfRow(t: Tree)
    ensures Pairs(Row(t)) == Flat(t)
    decreases t, 1
  {
    if t.kids == [] {
      PairsOne(Leaf(t.node, t.kvs));
    } else {
      PairsOfRows(t.kids, t.kvs);
    }
  }

  lemma {:induction false} PairsOfRows(kids: seq<Tree>, kvs: seq<KV>)
    ensures Pairs(RowWeave(kids, kvs)) == Weave(kids, kvs)
    decreases kids, 0
  {
    if kids != [] {
      PairsOfRow(kids[0]);
      if |kids| != 1 && kvs != [] {
        PairsOfRows(kids[1..], kvs[1..]);
        PairsConcat(Row(kids[0]) + [Between(kvs[0])], RowWeave(kids[1..], kvs[1..]));
        PairsConcat(Row(kids[0]), [Between(kvs[0])]);
        PairsOne(Between(kvs[0]));
      }
    }
  }

  lemma {:induction false} RowJoin(kidsL: seq<Tree>, kvsL: seq<KV>, kv: KV, kidsR: seq<Tree>, kvsR: seq<KV>)
    requires |kidsL| == |kvsL| + 1 && |kidsR| == |kvsR| + 1
    ensures RowWeave(kidsL + kidsR, kvsL + [kv] + kvsR) == RowWeave(kidsL, kvsL) + [Between(kv)] + RowWeave(kidsR, kvsR)
    decreases kidsL
  {
    var kids, kvs := kidsL + kidsR, kvsL + [kv] + kvsR;
    if |kidsL| == 1 {
      assert kids[1..] == kidsR && kvs[1..] == kvsR;
    } else {
      assert kids[1..] == kidsL[1..] + kidsR && kvs[1..] == kvsL[1..] + [kv] + kvsR;
      RowJoin(kidsL[1..], kvsL[1..], kv, kidsR, kvsR);
    }
  }

  /** The row of a node, told apart at child `i`. */
  ghost function RowLeft(kids: seq<Tree>, kvs: seq<KV>, i: nat): seq<Item>
    requires |kids| == |kvs| + 1 && i < |kids|
  {
    if i == 0 then [] else RowWeave(kids[..i], kvs[..i - 1]) + [Between(kvs[i - 1])]
  }

  ghost function RowRight(kids: seq<Tree>, kvs: seq<KV>, i: nat): seq<Item>
    requires |kids| == |kvs| + 1 && i < |kids|
  {
    if i == |kvs| then [] else [Between(kvs[i])] + RowWeave(kids[i + 1..], kvs[i + 1..])
  }

  lemma RowSplit(kids: seq<Tree>, kvs: seq<KV>, i: nat)
    requires |kids| == |kvs| + 1 && i < |kvs|
    ensures var front, back := RowWeave(kids[..i + 1], kvs[..i]), RowWeave(kids[i + 1..], kvs[i + 1..]);
      RowWeave(kids, kvs) == front + [Between(kvs[i])] + back
  {
    hide RowWeave;
    assert kids == kids[..i + 1] + kids[i + 1..];
    assert kvs == kvs[..i] + [kvs[i]] + kvs[i + 1..];
    RowJoin(kids[..i + 1], kvs[..i], kvs[i], kids[i + 1..], kvs[i + 1..]);
  }

  lemma RowLast(kids: seq<Tree>, kvs: seq<KV>)
    requires |kids| == |kvs| + 1
    ensures RowWeave(kids, kvs) == RowLeft(kids, kvs, |kvs|) + Row(kids[|kvs|])
  {
    if kvs != [] {
      var n := |kvs|;
      RowSplit(kids, kvs, n - 1);
      assert kids[n..] == [kids[n]] && kvs[n..] == [];
    }
  }

  lemma RowLeftPrefix(kids: seq<Tree>, kvs: seq<KV>, kids': seq<Tree>, kvs': seq<KV>, i: nat)
    requires |kids| == |kvs| + 1 && |kids'| == |kvs'| + 1 && i < |kids| && i < |kids'|
    requires kids[..i] == kids'[..i] && kvs[..i] == kvs'[..i]
    ensures RowLeft(kids, kvs, i) == RowLeft(kids', kvs', i)
  {
    if 0 < i {
      assert kvs[..i - 1] == kvs[..i][..i - 1] == kvs'[..i - 1];
      assert kvs[i - 1] == kvs[..i][i - 1] == kvs'[i - 1];
    }
  }

  lemma RowAt(kids: seq<Tree>, kvs: seq<KV>, i: nat)
    requires |kids| == |kvs| + 1 && i < |kids|
    ensures RowWeave(kids, kvs) == RowLeft(kids, kvs, i) + Row(kids[i]) + RowRight(kids, kvs, i)
  {
    hide RowWeave, RowLeft, Row;
    if i < |kvs| {
      var k, v := kids[..i + 1], kvs[..i];
      assert RowWeave(k, v) == RowLeft(kids, kvs, i) + Row(kids[i]) by {
        RowLast(k, v);
        RowLeftPrefix(k, v, kids, kvs, i);
      }
      assert RowWeave(kids, kvs) == RowWeave(k, v) + RowRight(kids, kvs, i) by {
        RowSplit(kids, kvs, i);
      }
    } else {
      RowLast(kids, kvs);
    }
  }

  /** The pairs before child `i` are those of the row before it. */
  lemma PairsLeft(kids: seq<Tree>, kvs: seq<KV>, i: nat)
    requires |kids| == |kvs| + 1 && i < |kids|
    ensures Pairs(RowLeft(kids, kvs, i)) == Left(kids, kvs, i)
  {
    if i != 0 {
      PairsOfRows(kids[..i], kvs[..i - 1]);
      PairsConcat(RowWeave(kids[..i], kvs[..i - 1]), [Between(kvs[i - 1])]);
      PairsOne(Between(kvs[i - 1]));
    }
  }

  lemma RowPair(s: Tree, i: nat)
    requires |s.kids| == |s.kvs| + 1 && i < |s.kvs|
    ensures Row(s) == RowLeft(s.kids, s.kvs, i) + Row(s.kids[i]) + [Between(s.kvs[i])] + Row(s.kids[i + 1])
      + RowRight(s.kids, s.kvs, i + 1)
  {
    RowAt(s.kids, s.kvs, i);
    var kids, kvs := s.kids[i + 1..], s.kvs[i + 1..];
    RowAt(kids, kvs, 0);
    assert RowLeft(kids, kvs, 0) == [];
    if i + 1 < |s.kvs| {
      assert kids[1..] == s.kids[i + 2..] && kvs[1..] == s.kvs[i + 2..];
    }
  }

  lemma RowAsJoin(s: Tree, i: nat, node: Node)
    requires Pair(s, i) && s.kids[i].kids != []
    ensures Row(s) == RowLeft(s.kids, s.kvs, i) + Row(Join(node, s.kids[i], s.kvs[i], s.kids[i + 1]))
      + RowRight(s.kids, s.kvs, i + 1)
  {
    hide RowWeave, RowLeft, RowRight;
    RowPair(s, i);
    var l, r := s.kids[i], s.kids[i + 1];
    RowJoin(l.kids, l.kvs, s.kvs[i], r.kids, r.kvs);
  }

  lemma RowRegroup(s: Tree, i: nat, l: Tree, kv: KV, r: Tree, node: Node)
    requires Pair(s, i) && SameKind(l, r) && l.kids != [] && s.kids[i].kids != []
    requires Join(node, l, kv, r) == Join(node, s.kids[i], s.kvs[i], s.kids[i + 1])
    ensures Row(Regroup(s, i, l, kv, r)) == Row(s)
  {
    var s' := Regroup(s, i, l, kv, r);
    RowAsJoin(s, i, node);
    RowAsJoin(s', i, node);
    assert s'.kids[..i] == s.kids[..i] && s'.kvs[..i] == s.kvs[..i];
    assert RowLeft(s'.kids, s'.kvs, i) == RowLeft(s.kids, s.kvs, i) by {
      if 0 < i { assert s'.kvs[..i - 1] == s.kvs[..i - 1]; }
    }
    assert s'.kids[i + 2..] == s.kids[i + 2..] && s'.kvs[i + 1..] == s.kvs[i + 1..];
    assert RowRight(s'.kids, s'.kvs, i + 1) == RowRight(s.kids, s.kvs, i + 1) by {
      if i + 1 < |s.kvs| { assert s'.kvs[i + 2..] == s.kvs[i + 2..]; }
    }
  }

  lemma RowContract(s: Tree, i: nat, k: Tree)
    requires Pair(s, i) && s.kids[i].kids != []
    requires k == Join(k.node, s.kids[i], s.kvs[i], s.kids[i + 1])
    ensures Row(Contract(s, i, k)) == Row(s)
  {
    var s' := Contract(s, i, k);
    RowAsJoin(s, i, k.node);
    RowAt(s'.kids, s'.kvs, i);
    assert RowLeft(s'.kids, s'.kvs, i) == RowLeft(s.kids, s.kvs, i) by {
      assert s'.kids[..i] == s.kids[..i];
      if 0 < i { assert s'.kvs[..i - 1] == s.kvs[..i - 1]; }
    }
    assert RowRight(s'.kids, s'.kvs, i) == RowRight(s.kids, s.kvs, i + 1) by {
      assert s'.kids[i + 1..] == s.kids[i + 2..];
      if i + 1 < |s.kvs| { assert s'.kvs[i + 1..] == s.kvs[i + 2..] && s'.kvs[i] == s.kvs[i + 1]; }
    }
  }

  lemma RowMerged(s: Tree, i: nat)
    requires Pair(s, i) && s.kids[i].kids != []
    ensures Row(Merged(s, i)) == Row(s)
  {
    RowContract(s, i, Join(s.kids[i].node, s.kids[i], s.kvs[i], s.kids[i + 1]));
  }

  lemma RowStolenLeft(s: Tree, i: nat, n: nat)
    requires Pair(s, i) && n < |s.kids[i].kvs| && s.kids[i].kids != []
    ensures Row(StolenLeft(s, i, n)) == Row(s)
  {
    var l, kv, r := s.kids[i], s.kvs[i], s.kids[i + 1];
    var h, up, t := Head(l, n), l.kvs[n], Join(r.node, Tail(r.node, l, n + 1), kv, r);
    assert SameKind(h, t) && Join(s.node, h, up, t) == Join(s.node, l, kv, r) by {
      StolenLeftJoin(s.node, l, kv, r, n);
    }
    RowRegroup(s, i, h, up, t, s.node);
  }

  lemma RowStolenRight(s: Tree, i: nat, n: nat)
    requires Pair(s, i) && n < |s.kids[i + 1].kvs| && s.kids[i].kids != []
    ensures Row(StolenRight(s, i, n)) == Row(s)
  {
    var l, kv, r := s.kids[i], s.kvs[i], s.kids[i + 1];
    var h, up, t := Join(l.node, l, kv, Head(r, n)), r.kvs[n], Tail(r.node, r, n + 1);
    assert SameKind(h, t) && Join(s.node, h, up, t) == Join(s.node, l, kv, r) by {
      StolenRightJoin(s.node, l, kv, r, n);
    }
    RowRegroup(s, i, h, up, t, s.node);
  }

  /** A subtree with the same row leaves the row of the whole tree as it was. */
  lemma {:induction false} RowSet(t: Tree, p: Path, s: Tree)
    requires ValidPath(t, p) && Row(s) == Row(SubAt(t, p))
    ensures Row(SetAt(t, p, s)) == Row(t)
    decreases |p|
  {
    if p != [] {
      var i, k := p[0], SetAt(t.kids[p[0]], p[1..], s);
      RowSet(t.kids[i], p[1..], s);
      var kids := t.kids[i := k];
      assert kids[..i] == t.kids[..i] && kids[i + 1..] == t.kids[i + 1..];
      RowAt(t.kids, t.kvs, i);
      RowAt(kids, t.kvs, i);
    }
  }

  // ----- Where a leaf is

  /** The leaf `leaf` holds the pairs `kvs` and has the pairs `before` in front of it. */
  ghost predicate LeafIn(row: seq<Item>, leaf: Node, before: seq<KV>, kvs: seq<KV>) {
    exists i :: 0 <= i < |row| && row[i] == Leaf(leaf, kvs) && Pairs(row[..i]) == before
  }

  lemma LeafInMiddle(a: seq<Item>, row: seq<Item>, b: seq<Item>, leaf: Node, before: seq<KV>, kvs: seq<KV>)
    requires LeafIn(row, leaf, before, kvs)
    ensures LeafIn(a + row + b, leaf, Pairs(a) + before, kvs)
  {
    var i :| 0 <= i < |row| && row[i] == Leaf(leaf, kvs) && Pairs(row[..i]) == before;
    var whole := a + row + b;
    assert whole[..|a| + i] == a + row[..i] && whole[|a| + i] == row[i];
    PairsConcat(a, row[..i]);
  }

  lemma {:induction false} LeafOfPath(t: Tree, p: Path)
    requires ValidPath(t, p) && SubAt(t, p).kids == []
    ensures LeafIn(Row(t), SubAt(t, p).node, Before(t, p), SubAt(t, p).kvs)
    decreases |p|
  {
    var s := SubAt(t, p);
    if p == [] {
      assert Row(t)[0] == Leaf(s.node, s.kvs) && Pairs(Row(t)[..0]) == [];
    } else {
      var i, k := p[0], t.kids[p[0]];
      LeafOfPath(k, p[1..]);
      RowAt(t.kids, t.kvs, i);
      PairsLeft(t.kids, t.kvs, i);
      LeafInMiddle(RowLeft(t.kids, t.kvs, i), Row(k), RowRight(t.kids, t.kvs, i), s.node, Before(k, p[1..]), s.kvs);
    }
  }

  /** Where the row has a leaf, the tree has a path to it. */
  lemma {:induction false} PathOfLeaf(t: Tree, j: nat) returns (p: Path)
    requires Regular(t) && j < |Row(t)| && Row(t)[j].Leaf?
    ensures ValidPath(t, p) && SubAt(t, p).kids == []
    ensures Row(t)[j] == Leaf(SubAt(t, p).node, SubAt(t, p).kvs) && Before(t, p) == Pairs(Row(t)[..j])
    decreases t, 1
  {
    if t.kids == [] {
      p := [];
    } else {
      var i, j' := ChildOfLeaf(t.kids, t.kvs, j);
      RowAt(t.kids, t.kvs, i);
      PairsLeft(t.kids, t.kvs, i);
      var a, b := RowLeft(t.kids, t.kvs, i), Row(t.kids[i]);
      assert Row(t)[j] == b[j'];
      var q := PathOfLeaf(t.kids[i], j');
      p := [i] + q;
      assert p[1..] == q;
      assert Row(t)[..j] == a + b[..j'];
      PairsConcat(a, b[..j']);
    }
  }

  lemma RowLeftNext(kids: seq<Tree>, kvs: seq<KV>, i: nat)
    requires |kids| == |kvs| + 1 && 0 < i < |kids|
    ensures RowLeft(kids, kvs, i) == Row(kids[0]) + [Between(kvs[0])] + RowLeft(kids[1..], kvs[1..], i - 1)
  {
    if i > 1 {
      assert kids[..i][1..] == kids[1..][..i - 1] && kvs[..i - 1][1..] == kvs[1..][..i - 2];
    }
  }

  lemma {:induction false} ChildOfLeaf(kids: seq<Tree>, kvs: seq<KV>, j: nat) returns (i: nat, j': nat)
    requires |kids| == |kvs| + 1 && j < |RowWeave(kids, kvs)| && RowWeave(kids, kvs)[j].Leaf?
    ensures i < |kids| && j' < |Row(kids[i])| && j == |RowLeft(kids, kvs, i)| + j'
    decreases kids
  {
    RowAt(kids, kvs, 0);
    if j < |Row(kids[0])| {
      i, j' := 0, j;
    } else {
      var d := |Row(kids[0])| + 1;
      var i0;
      i0, j' := ChildOfLeaf(kids[1..], kvs[1..], j - d);
      i := i0 + 1;
      RowLeftNext(kids, kvs, i);
    }
  }

  /** Every node of the tree is a leaf or has one more child than pairs. */
  ghost predicate Regular(t: Tree)
    decreases t
  {
    Arity(t) && forall i :: 0 <= i < |t.kids| ==> Regular(t.kids[i])
  }
}
