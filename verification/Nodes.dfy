/** The nodes of the B-tree as they lie in memory, and the moves on their buffers. */
module Nodes {
  const B: nat := 6
  const CAPACITY: nat := 2 * B - 1
  const MIN_LEN: nat := B - 1
  const KV_IDX_CENTER: nat := B - 1

  type Key(0, !new)
  type Val(0, !new)

  datatype KV = KV(key: Key, val: Val)

  /** One node. A leaf owns no edges; an internal node owns a buffer of 2 * B of them.
      Only the first `len` pairs and the first `len + 1` edges mean anything.
      The height of a node is not stored: whoever holds a reference to it knows it. */
  class Node {
    var parent: Node?
    var parentIdx: nat
    var len: nat
    const kvs: array<KV>
    const edges: array<Node?>

    constructor Leaf()
      ensures fresh(kvs) && fresh(edges)
      ensures parent == null && len == 0
      ensures kvs.Length == CAPACITY && edges.Length == 0
    {
      parent, parentIdx, len := null, 0, 0;
      kvs := new KV[CAPACITY];
      edges := new Node?[0];
    }

    constructor Internal()
      ensures fresh(kvs) && fresh(edges)
      ensures parent == null && len == 0
      ensures kvs.Length == CAPACITY && edges.Length == 2 * B
    {
      parent, parentIdx, len := null, 0, 0;
      kvs := new KV[CAPACITY];
      edges := new Node?[2 * B];
    }

    /** The buffers have their sizes and `len` stays within them. */
    ghost predicate Sized()
      reads this`len
    {
      kvs.Length == CAPACITY && len <= CAPACITY && (edges.Length == 0 || edges.Length == 2 * B)
    }

    ghost function View(): Cell
      requires Sized()
      reads this, kvs, edges
    {
      Cell(parent, parentIdx, kvs[..len], if edges.Length == 0 then [] else edges[..len + 1])
    }

    method SetParentLink(parent: Node, idx: nat)
      modifies this`parent, this`parentIdx
      ensures this.parent == parent && this.parentIdx == idx
    {
      this.parent, this.parentIdx := parent, idx;
    }

    method ClearParentLink()
      modifies this`parent
      ensures parent == null
    {
      parent := null;
    }

    /** Gives a new internal node its first edge. */
    method SetFirstEdge(child: Node)
      requires Sized() && edges.Length != 0 && len == 0
      modifies edges
      ensures Sized() && View() == old(View()).(edges := [child])
    {
      edges[0] := child;
    }

    /** Puts a pair at `idx` of a leaf with room for it. */
    method InsertFit(idx: nat, kv: KV)
      requires Sized() && edges.Length == 0 && idx <= len < CAPACITY
      modifies this`len, kvs
      ensures Sized()
      ensures var c := old(View()); View() == c.(kvs := c.kvs[..idx] + [kv] + c.kvs[idx..])
    {
      var newLen := len + 1;
      SliceInsert(kvs, newLen, idx, kv);
      len := newLen;
    }

    /** Puts a pair at `idx` of an internal node with room for it, and an edge right of that pair. */
    method InsertFitEdge(idx: nat, kv: KV, edge: Node)
      requires Sized() && edges.Length != 0 && idx <= len < CAPACITY
      modifies this`len, kvs, edges
      ensures Sized()
      ensures var c := old(View());
        View() == c.(kvs := c.kvs[..idx] + [kv] + c.kvs[idx..],
                     edges := c.edges[..idx + 1] + [edge] + c.edges[idx + 1..])
    {
      var newLen := len + 1;
      ghost var ks, es := kvs[..len], edges[..len + 1];
      SliceInsert(kvs, newLen, idx, kv);
      SliceInsert(edges, newLen + 1, idx + 1, edge);
      assert kvs[..newLen] == ks[..idx] + [kv] + ks[idx..];
      assert edges[..newLen + 1] == es[..idx + 1] + [edge] + es[idx + 1..];
      len := newLen;
    }

    method RemoveKv(idx: nat) returns (kv: KV)
      requires Sized() && edges.Length == 0 && idx < len
      modifies this`len, kvs
      ensures Sized()
      ensures var c := old(View());
        kv == c.kvs[idx] && View() == c.(kvs := c.kvs[..idx] + c.kvs[idx + 1..])
    {
      kv := SliceRemove(kvs, len, idx);
      len := len - 1;
    }

    /** Takes out a pair of an internal node together with the edge right of it. */
    method RemoveKvEdge(idx: nat) returns (kv: KV)
      requires Sized() && edges.Length != 0 && idx < len
      modifies this`len, kvs, edges
      ensures Sized()
      ensures var c := old(View());
        && kv == c.kvs[idx]
        && View() == c.(kvs := c.kvs[..idx] + c.kvs[idx + 1..], edges := c.edges[..idx + 1] + c.edges[idx + 2..])
    {
      kv := SliceRemove(kvs, len, idx);
      var _ := SliceRemove(edges, len + 1, idx + 1);
      len := len - 1;
    }

    method ReplaceKv(idx: nat, kv: KV) returns (oldKv: KV)
      requires Sized() && idx < len
      modifies kvs
      ensures Sized()
      ensures var c := old(View()); oldKv == c.kvs[idx] && View() == c.(kvs := c.kvs[idx := kv])
    {
      oldKv := kvs[idx];
      kvs[idx] := kv;
    }

    /** Appends a pair and everything in `right`, which keeps its stale contents. */
    method Absorb(kv: KV, right: Node)
      requires Sized() && right.Sized() && kvs != right.kvs && edges != right.edges
      requires edges.Length == right.edges.Length && len + 1 + right.len <= CAPACITY
      modifies this`len, kvs, edges
      ensures Sized()
      ensures var (c, r) := (old(View()), old(right.View()));
        View() == c.(kvs := c.kvs + [kv] + r.kvs, edges := c.edges + r.edges)
    {
      var oldLen, newLen := len, len + 1 + right.len;
      len := newLen;
      AppendMoved(kvs, oldLen, kv, right.kvs, right.len);
      if edges.Length != 0 {
        MoveToSlice(right.edges, 0, right.len + 1, edges, oldLen + 1, newLen + 1);
      }
    }

    /** Moves the pairs of `left` from `n` on in front of this node's, the first of them through the parent,
        which gives `kv` in exchange. */
    method StealFromLeft(left: Node, n: nat, kv: KV)
      requires Sized() && left.Sized() && this != left && kvs != left.kvs && edges != left.edges
      requires edges.Length == left.edges.Length && n < left.len && len + left.len - n <= CAPACITY
      modifies this`len, kvs, edges, left`len
      ensures Sized() && left.Sized()
      ensures var (l, c) := (old(left.View()), old(View()));
        && left.View() == l.(kvs := l.kvs[..n], edges := if l.edges == [] then [] else l.edges[..n + 1])
        && View() == c.(kvs := l.kvs[n + 1..] + [kv] + c.kvs,
                        edges := if l.edges == [] then [] else l.edges[n + 1..] + c.edges)
    {
      var oldLeftLen, newLen := left.len, len + (left.len - n);
      left.len, len := n, newLen;
      PrependMoved(kvs, newLen, left.kvs, n + 1, oldLeftLen, kv);
      assert kvs[..newLen] == old(left.kvs[..left.len])[n + 1..] + [kv] + old(kvs[..len]);
      if edges.Length != 0 {
        PrependEdges(edges, newLen + 1, left.edges, n + 1, oldLeftLen + 1);
        assert edges[..newLen + 1] == old(left.edges[..left.len + 1])[n + 1..] + old(edges[..len + 1]);
      }
    }

    /** Moves the first `count` pairs of `right` behind this node's, the last of them through the parent,
        which gives `kv` in exchange. */
    method StealFromRight(right: Node, count: nat, kv: KV)
      requires Sized() && right.Sized() && this != right && kvs != right.kvs && edges != right.edges
      requires edges.Length == right.edges.Length && 0 < count <= right.len && len + count <= CAPACITY
      modifies this`len, kvs, edges, right`len, right.kvs, right.edges
      ensures Sized() && right.Sized()
      ensures var (c, r) := (old(View()), old(right.View()));
        && View() == c.(kvs := c.kvs + [kv] + r.kvs[..count - 1],
                        edges := if r.edges == [] then [] else c.edges + r.edges[..count])
        && right.View() == r.(kvs := r.kvs[count..], edges := if r.edges == [] then [] else r.edges[count..])
    {
      var oldLen, newLen, oldRightLen := len, len + count, right.len;
      len, right.len := newLen, right.len - count;
      AppendMoved(kvs, oldLen, kv, right.kvs, count - 1);
      SliceShl(right.kvs, oldRightLen, count);
      assert kvs[..newLen] == old(kvs[..len]) + [kv] + old(right.kvs[..right.len])[..count - 1];
      assert right.kvs[..right.len] == old(right.kvs[..right.len])[count..];
      if edges.Length != 0 {
        MoveToSlice(right.edges, 0, count, edges, oldLen + 1, newLen + 1);
        SliceShl(right.edges, oldRightLen + 1, count);
        assert edges[..newLen + 1] == old(edges[..len + 1]) + old(right.edges[..right.len + 1])[..count];
        assert right.edges[..right.len + 1] == old(right.edges[..right.len + 1])[count..];
      }
    }

    /** Cuts the node at the pair `idx`, which is taken out; what is right of it goes to the new node `right`. */
    method SplitData(idx: nat, right: Node) returns (kv: KV)
      requires Sized() && right.Sized() && this != right && kvs != right.kvs && edges != right.edges
      requires edges.Length == right.edges.Length && idx < len
      modifies this`len, right`len, right.kvs, right.edges
      ensures Sized() && right.Sized()
      ensures var (c, r) := (old(View()), old(right.View()));
        && kv == c.kvs[idx]
        && View() == c.(kvs := c.kvs[..idx], edges := if c.edges == [] then [] else c.edges[..idx + 1])
        && right.View() == r.(kvs := c.kvs[idx + 1..], edges := if c.edges == [] then [] else c.edges[idx + 1..])
    {
      var oldLen, newLen := len, len - idx - 1;
      right.len := newLen;
      kv := kvs[idx];
      MoveToSlice(kvs, idx + 1, oldLen, right.kvs, 0, newLen);
      len := idx;
      if edges.Length != 0 {
        MoveToSlice(edges, idx + 1, oldLen + 1, right.edges, 0, newLen + 1);
      }
    }

    /** Moves the pairs from `idx` on, and the edges right of them, to the empty node `right`. */
    method MoveSuffixData(idx: nat, right: Node)
      requires Sized() && right.Sized() && this != right && kvs != right.kvs && edges != right.edges
      requires edges.Length == right.edges.Length && idx <= len && right.len == 0
      modifies this`len, right`len, right.kvs, right.edges
      ensures Sized() && right.Sized()
      ensures var (c, r) := (old(View()), old(right.View()));
        && View() == c.(kvs := c.kvs[..idx], edges := if c.edges == [] then [] else c.edges[..idx + 1])
        && right.View() == r.(kvs := c.kvs[idx..], edges := if c.edges == [] then [] else r.edges + c.edges[idx + 1..])
    {
      var oldLen, newLen := len, len - idx;
      if newLen > 0 {
        len, right.len := idx, newLen;
        MoveToSlice(kvs, idx, oldLen, right.kvs, 0, newLen);
        assert right.kvs[..newLen] == old(kvs[..len])[idx..];
        if edges.Length != 0 {
          MoveToSlice(edges, idx + 1, oldLen + 1, right.edges, 1, newLen + 1);
          assert right.edges[..newLen + 1] == old(right.edges[..1]) + old(edges[..len + 1])[idx + 1..];
        }
      }
    }
  }

  /** What a node says, leaving out the unused part of its buffers. */
  datatype Cell = Cell(parent: Node?, parentIdx: nat, kvs: seq<KV>, edges: seq<Node?>)

  type Mem = map<Node, Cell>

  /** The allocator, holding the nodes that are allocated and not yet released. */
  class Pool {
    ghost var nodes: set<Node>
    ghost var kvBuffers: set<array<KV>>
    ghost var edgeBuffers: set<array<Node?>>

    ghost function Repr(): set<object>
      reads this
    {
      {this} + nodes + kvBuffers + edgeBuffers
    }

    /** No two nodes share a buffer. */
    ghost predicate Apart()
      reads this
    {
      && (forall n <- nodes :: n.kvs in kvBuffers && n.edges in edgeBuffers)
      && (forall m <- nodes, n <- nodes | m != n :: m.kvs != n.kvs && m.edges != n.edges)
    }

    ghost predicate Valid()
      reads this, nodes
    {
      Apart() && forall n <- nodes :: n.Sized()
    }

    ghost function Mem(): Mem
      reads this, nodes, kvBuffers, edgeBuffers
      requires Valid()
    {
      map n | n in nodes :: n.View()
    }

    constructor ()
      ensures nodes == {} && Repr() == {this}
    {
      nodes, kvBuffers, edgeBuffers := {}, {}, {};
    }

    ghost method Adopt(n: Node)
      requires Valid() && n !in nodes && n.Sized() && n.kvs !in kvBuffers && n.edges !in edgeBuffers
      modifies this
      ensures Valid() && nodes == old(nodes) + {n}
      ensures kvBuffers == old(kvBuffers) + {n.kvs} && edgeBuffers == old(edgeBuffers) + {n.edges}
      ensures Mem() == old(Mem())[n := n.View()]
    {
      nodes := nodes + {n};
      kvBuffers, edgeBuffers := kvBuffers + {n.kvs}, edgeBuffers + {n.edges};
    }

    method NewLeaf() returns (n: Node)
      requires Valid()
      modifies this
      ensures Valid() && fresh(n) && fresh(Repr() - old(Repr()))
      ensures n.edges.Length == 0 && n.len == 0 && n.parent == null && n.Sized()
      ensures Mem() == old(Mem())[n := n.View()]
    {
      n := new Node.Leaf();
      Adopt(n);
    }

    method NewInternal() returns (n: Node)
      requires Valid()
      modifies this
      ensures Valid() && fresh(n) && fresh(Repr() - old(Repr()))
      ensures n.edges.Length != 0 && n.len == 0 && n.parent == null && n.Sized() && fresh(n.edges)
      ensures Mem() == old(Mem())[n := n.View()]
    {
      n := new Node.Internal();
      Adopt(n);
    }

    /** A new internal node with one child and no pairs. */
    method NewAbove(child: Node) returns (n: Node)
      requires Valid()
      modifies this
      ensures Valid() && fresh(n) && fresh(Repr() - old(Repr())) && n.Sized()
      ensures var c := n.View(); c.parent == null && c.kvs == [] && c.edges == [child]
      ensures Mem() == old(Mem())[n := n.View()]
    {
      n := new Node.Internal();
      n.SetFirstEdge(child);
      Adopt(n);
    }

    method Release(n: Node)
      requires Valid() && n in nodes
      modifies this
      ensures Valid() && Repr() <= old(Repr())
      ensures Mem() == old(Mem()) - {n}
    {
      nodes := nodes - {n};
    }
  }

  // ----- Buffer moves. A slice is a buffer together with the bounds of the part it covers.

  /** Inserts into the slice `a[..hi]`, whose last slot is unused. */
  method SliceInsert<T>(a: array<T>, hi: nat, idx: nat, x: T)
    requires idx < hi <= a.Length
    modifies a
    ensures a[..hi] == old(a[..idx]) + [x] + old(a[idx..hi - 1])
    ensures a[hi..] == old(a[hi..])
  {
    forall i | idx < i < hi { a[i] := a[i - 1]; }
    a[idx] := x;
  }

  /** Takes an element out of the slice `a[..hi]`, leaving its last slot unused. */
  method SliceRemove<T>(a: array<T>, hi: nat, idx: nat) returns (x: T)
    requires idx < hi <= a.Length
    modifies a
    ensures x == old(a[idx])
    ensures a[..hi - 1] == old(a[..idx]) + old(a[idx + 1..hi])
    ensures a[hi..] == old(a[hi..])
  {
    x := a[idx];
    forall i | idx <= i < hi - 1 { a[i] := a[i + 1]; }
  }

  /** Shifts the slice `a[..hi]` left by `distance`. */
  method SliceShl<T>(a: array<T>, hi: nat, distance: nat)
    requires distance <= hi <= a.Length
    modifies a
    ensures a[..hi - distance] == old(a[distance..hi])
    ensures a[hi..] == old(a[hi..])
  {
    forall i | 0 <= i < hi - distance { a[i] := a[i + distance]; }
  }

  /** Shifts the slice `a[..hi]` right by `distance`. */
  method SliceShr<T>(a: array<T>, hi: nat, distance: nat)
    requires distance <= hi <= a.Length
    modifies a
    ensures a[distance..hi] == old(a[..hi - distance])
    ensures a[hi..] == old(a[hi..]) && forall j :: distance <= j < hi ==> a[j] == old(a[j - distance])
  {
    forall i | distance <= i < hi { a[i] := a[i - distance]; }
  }

  /** Moves `src[slo..shi]` to `dst[dlo..dhi]`, a slice of another buffer with the same length. */
  method MoveToSlice<T>(src: array<T>, slo: nat, shi: nat, dst: array<T>, dlo: nat, dhi: nat)
    requires slo <= shi <= src.Length && dlo <= dhi <= dst.Length
    requires shi - slo == dhi - dlo
    requires src != dst
    modifies dst
    ensures dst[..dhi] == old(dst[..dlo]) + old(src[slo..shi])
    ensures dst[dhi..] == old(dst[dhi..]) && forall j :: dhi <= j < dst.Length ==> dst[j] == old(dst[j])
    ensures forall j :: dlo <= j < dhi ==> dst[j] == old(src[slo + (j - dlo)])
  {
    forall i | dlo <= i < dhi { dst[i] := src[slo + (i - dlo)]; }
  }

  /** Writes `x` behind the slice `dst[..n]` and moves `src[..m]` behind that. */
  method AppendMoved<T>(dst: array<T>, n: nat, x: T, src: array<T>, m: nat)
    requires n + 1 + m <= dst.Length && m <= src.Length && src != dst
    modifies dst
    ensures dst[..n + 1 + m] == old(dst[..n]) + [x] + old(src[..m])
  {
    dst[n] := x;
    MoveToSlice(src, 0, m, dst, n + 1, n + 1 + m);
  }

  /** Shifts the slice `dst[..hi]` right to put `src[lo..to]` and `x` in front of it. */
  method PrependMoved<T>(dst: array<T>, hi: nat, src: array<T>, lo: nat, to: nat, x: T)
    requires lo <= to <= src.Length && to - lo + 1 <= hi <= dst.Length && src != dst
    modifies dst
    ensures dst[..hi] == old(src[lo..to]) + [x] + old(dst[..hi - (to - lo + 1)])
  {
    var count := to - lo + 1;
    ghost var front, back := src[lo..to], dst[..hi - count];
    SliceShr(dst, hi, count);
    MoveToSlice(src, lo, to, dst, 0, count - 1);
    dst[count - 1] := x;
    SliceIs(dst[..hi], front + [x], back);
  }

  lemma SliceIs<T>(s: seq<T>, a: seq<T>, b: seq<T>)
    requires |s| == |a| + |b|
    requires (forall j :: 0 <= j < |a| ==> s[j] == a[j]) && forall j :: |a| <= j < |s| ==> s[j] == b[j - |a|]
    ensures s == a + b
  {
  }

  method PrependEdges<T>(dst: array<T>, hi: nat, src: array<T>, lo: nat, to: nat)
    requires lo <= to <= src.Length && to - lo <= hi <= dst.Length && src != dst
    modifies dst
    ensures dst[..hi] == old(src[lo..to]) + old(dst[..hi - (to - lo)])
  {
    var count := to - lo;
    ghost var front, back := src[lo..to], dst[..hi - count];
    SliceShr(dst, hi, count);
    MoveToSlice(src, lo, to, dst, 0, count);
    SliceIs(dst[..hi], front, back);
  }
}
