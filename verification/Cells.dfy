/** The moves on nodes, seen from the memory they happen in. */
module Cells {
  import opened Nodes

  /** If only one node differs from what memory was, memory changed there. */
  lemma Put1At(pool: Pool, n: Node, m: Mem)
    requires pool.Apart() && n in pool.nodes && n.Sized() && m.Keys == pool.nodes
    requires forall k <- pool.nodes | k != n :: k.Sized() && k.View() == m[k]
    ensures pool.Valid() && pool.Mem() == m[n := n.View()]
  {
  }

  lemma Put2At(pool: Pool, a: Node, b: Node, m: Mem)
    requires pool.Apart() && a in pool.nodes && b in pool.nodes && a.Sized() && b.Sized() && m.Keys == pool.nodes
    requires forall k <- pool.nodes | k != a && k != b :: k.Sized() && k.View() == m[k]
    ensures pool.Valid() && pool.Mem() == Put2(m, a, a.View(), b, b.View())
  {
  }

  ghost function Put2(m: Mem, a: Node, ca: Cell, b: Node, cb: Cell): Mem {
    var m': Mem := m[a := ca];
    m'[b := cb]
  }

  method InsertFit(node: Node, idx: nat, kv: KV, pool: Pool)
    requires pool.Valid() && node in pool.nodes
    requires var c := pool.Mem()[node]; c.edges == [] && idx <= |c.kvs| < CAPACITY
    modifies pool.nodes, pool.kvBuffers, pool.edgeBuffers
    ensures pool.Valid()
    ensures var (m, c) := (old(pool.Mem()), old(pool.Mem())[node]);
      pool.Mem() == m[node := c.(kvs := c.kvs[..idx] + [kv] + c.kvs[idx..])]
  {
    ghost var m := pool.Mem();
    node.InsertFit(idx, kv);
    Put1At(pool, node, m);
  }

  method InsertFitEdge(node: Node, idx: nat, kv: KV, edge: Node, pool: Pool)
    requires pool.Valid() && node in pool.nodes
    requires var c := pool.Mem()[node]; c.edges != [] && idx <= |c.kvs| < CAPACITY
    modifies pool.nodes, pool.kvBuffers, pool.edgeBuffers
    ensures pool.Valid()
    ensures var (m, c) := (old(pool.Mem()), old(pool.Mem())[node]);
      pool.Mem() == m[node := c.(kvs := c.kvs[..idx] + [kv] + c.kvs[idx..],
                                 edges := c.edges[..idx + 1] + [edge] + c.edges[idx + 1..])]
  {
    ghost var m := pool.Mem();
    node.InsertFitEdge(idx, kv, edge);
    Put1At(pool, node, m);
  }

  method RemoveKv(node: Node, idx: nat, pool: Pool) returns (kv: KV)
    requires pool.Valid() && node in pool.nodes
    requires var c := pool.Mem()[node]; c.edges == [] && idx < |c.kvs|
    modifies pool.nodes, pool.kvBuffers, pool.edgeBuffers
    ensures pool.Valid()
    ensures var (m, c) := (old(pool.Mem()), old(pool.Mem())[node]);
      kv == c.kvs[idx] && pool.Mem() == m[node := c.(kvs := c.kvs[..idx] + c.kvs[idx + 1..])]
  {
    ghost var m := pool.Mem();
    kv := node.RemoveKv(idx);
    Put1At(pool, node, m);
  }

  method RemoveKvEdge(node: Node, idx: nat, pool: Pool) returns (kv: KV)
    requires pool.Valid() && node in pool.nodes
    requires var c := pool.Mem()[node]; c.edges != [] && idx < |c.kvs|
    modifies pool.nodes, pool.kvBuffers, pool.edgeBuffers
    ensures pool.Valid()
    ensures var (m, c) := (old(pool.Mem()), old(pool.Mem())[node]);
      && kv == c.kvs[idx]
      && pool.Mem() == m[node := c.(kvs := c.kvs[..idx] + c.kvs[idx + 1..],
                                    edges := c.edges[..idx + 1] + c.edges[idx + 2..])]
  {
    ghost var m := pool.Mem();
    kv := node.RemoveKvEdge(idx);
    Put1At(pool, node, m);
  }

  method ReplaceKv(node: Node, idx: nat, kv: KV, pool: Pool) returns (oldKv: KV)
    requires pool.Valid() && node in pool.nodes && idx < |pool.Mem()[node].kvs|
    modifies pool.nodes, pool.kvBuffers, pool.edgeBuffers
    ensures pool.Valid()
    ensures var (m, c) := (old(pool.Mem()), old(pool.Mem())[node]);
      oldKv == c.kvs[idx] && pool.Mem() == m[node := c.(kvs := c.kvs[idx := kv])]
  {
    ghost var m := pool.Mem();
    oldKv := node.ReplaceKv(idx, kv);
    Put1At(pool, node, m);
  }

  method Absorb(left: Node, kv: KV, right: Node, pool: Pool)
    requires pool.Valid() && left in pool.nodes && right in pool.nodes && left != right
    requires var (l, r) := (pool.Mem()[left], pool.Mem()[right]);
      (l.edges == [] <==> r.edges == []) && |l.kvs| + 1 + |r.kvs| <= CAPACITY
    modifies pool.nodes, pool.kvBuffers, pool.edgeBuffers
    ensures pool.Valid()
    ensures var (m, l, r) := (old(pool.Mem()), old(pool.Mem())[left], old(pool.Mem())[right]);
      pool.Mem() == m[left := l.(kvs := l.kvs + [kv] + r.kvs, edges := l.edges + r.edges)]
  {
    ghost var m := pool.Mem();
    left.Absorb(kv, right);
    Put1At(pool, left, m);
  }

  method StealFromLeft(right: Node, left: Node, n: nat, kv: KV, pool: Pool)
    requires pool.Valid() && left in pool.nodes && right in pool.nodes && left != right
    requires var (l, r) := (pool.Mem()[left], pool.Mem()[right]);
      (l.edges == [] <==> r.edges == []) && n < |l.kvs| && |r.kvs| + |l.kvs| - n <= CAPACITY
    modifies pool.nodes, pool.kvBuffers, pool.edgeBuffers
    ensures pool.Valid()
    ensures var (m, l, r) := (old(pool.Mem()), old(pool.Mem())[left], old(pool.Mem())[right]);
      pool.Mem() == Put2(m,
        left, l.(kvs := l.kvs[..n], edges := if l.edges == [] then [] else l.edges[..n + 1]),
        right, r.(kvs := l.kvs[n + 1..] + [kv] + r.kvs,
                  edges := if l.edges == [] then [] else l.edges[n + 1..] + r.edges))
  {
    ghost var m := pool.Mem();
    right.StealFromLeft(left, n, kv);
    Put2At(pool, left, right, m);
  }

  method StealFromRight(left: Node, right: Node, count: nat, kv: KV, pool: Pool)
    requires pool.Valid() && left in pool.nodes && right in pool.nodes && left != right
    requires var (l, r) := (pool.Mem()[left], pool.Mem()[right]);
      (l.edges == [] <==> r.edges == []) && 0 < count <= |r.kvs| && |l.kvs| + count <= CAPACITY
    modifies pool.nodes, pool.kvBuffers, pool.edgeBuffers
    ensures pool.Valid()
    ensures var (m, l, r) := (old(pool.Mem()), old(pool.Mem())[left], old(pool.Mem())[right]);
      pool.Mem() == Put2(m,
        left, l.(kvs := l.kvs + [kv] + r.kvs[..count - 1],
                 edges := if r.edges == [] then [] else l.edges + r.edges[..count]),
        right, r.(kvs := r.kvs[count..], edges := if r.edges == [] then [] else r.edges[count..]))
  {
    ghost var m := pool.Mem();
    left.StealFromRight(right, count, kv);
    Put2At(pool, left, right, m);
  }

  method SplitData(node: Node, idx: nat, right: Node, pool: Pool) returns (kv: KV)
    requires pool.Valid() && node in pool.nodes && right in pool.nodes && node != right
    requires var (c, r) := (pool.Mem()[node], pool.Mem()[right]);
      (c.edges == [] <==> r.edges == []) && idx < |c.kvs|
    modifies pool.nodes, pool.kvBuffers, pool.edgeBuffers
    ensures pool.Valid()
    ensures var (m, c, r) := (old(pool.Mem()), old(pool.Mem())[node], old(pool.Mem())[right]);
      && kv == c.kvs[idx]
      && pool.Mem() == Put2(m,
        node, c.(kvs := c.kvs[..idx], edges := if c.edges == [] then [] else c.edges[..idx + 1]),
        right, r.(kvs := c.kvs[idx + 1..], edges := if c.edges == [] then [] else c.edges[idx + 1..]))
  {
    ghost var m := pool.Mem();
    kv := node.SplitData(idx, right);
    Put2At(pool, node, right, m);
  }

  method MoveSuffixData(node: Node, idx: nat, right: Node, pool: Pool)
    requires pool.Valid() && node in pool.nodes && right in pool.nodes && node != right
    requires var (c, r) := (pool.Mem()[node], pool.Mem()[right]);
      (c.edges == [] <==> r.edges == []) && idx <= |c.kvs| && r.kvs == []
    modifies pool.nodes, pool.kvBuffers, pool.edgeBuffers
    ensures pool.Valid()
    ensures var (m, c, r) := (old(pool.Mem()), old(pool.Mem())[node], old(pool.Mem())[right]);
      pool.Mem() == Put2(m,
        node, c.(kvs := c.kvs[..idx], edges := if c.edges == [] then [] else c.edges[..idx + 1]),
        right, r.(kvs := c.kvs[idx..], edges := if c.edges == [] then [] else r.edges + c.edges[idx + 1..]))
  {
    ghost var m := pool.Mem();
    node.MoveSuffixData(idx, right);
    Put2At(pool, node, right, m);
  }

  method ClearParentLink(n: Node, pool: Pool)
    requires pool.Valid() && n in pool.nodes
    modifies pool.nodes
    ensures pool.Valid()
    ensures var m := old(pool.Mem()); pool.Mem() == m[n := m[n].(parent := null)]
  {
    ghost var m := pool.Mem();
    n.ClearParentLink();
    Put1At(pool, n, m);
  }

  /** Clears the link of `n` and releases the node `top` it led to. */
  method Unhang(n: Node, top: Node, pool: Pool)
    requires pool.Valid() && n in pool.nodes && top in pool.nodes && n != top
    modifies pool, pool.nodes
    ensures pool.Valid() && pool.Repr() <= old(pool.Repr())
    ensures var m := old(pool.Mem()); pool.Mem() == m[n := m[n].(parent := null)] - {top}
  {
    ClearParentLink(n, pool);
    pool.Release(top);
  }

  // ----- Reading

  method ReadLen(n: Node, pool: Pool) returns (len: nat)
    requires pool.Valid() && n in pool.nodes
    ensures len == |pool.Mem()[n].kvs|
  {
    assert pool.Mem()[n] == n.View();
    len := n.len;
  }

  method ReadKv(n: Node, i: nat, pool: Pool) returns (kv: KV)
    requires pool.Valid() && n in pool.nodes && i < |pool.Mem()[n].kvs|
    ensures kv == pool.Mem()[n].kvs[i]
  {
    assert pool.Mem()[n] == n.View();
    kv := n.kvs[i];
  }

  method ReadEdge(n: Node, i: nat, pool: Pool) returns (child: Node)
    requires pool.Valid() && n in pool.nodes && i < |pool.Mem()[n].edges| && pool.Mem()[n].edges[i] != null
    ensures child == pool.Mem()[n].edges[i]
  {
    assert pool.Mem()[n] == n.View();
    child := n.edges[i];
  }

  method ReadIsLeaf(n: Node, pool: Pool) returns (leaf: bool)
    requires pool.Valid() && n in pool.nodes
    ensures leaf <==> pool.Mem()[n].edges == []
  {
    assert pool.Mem()[n] == n.View();
    leaf := n.edges.Length == 0;
  }

  method ReadParent(n: Node, pool: Pool) returns (parent: Node?, i: nat)
    requires pool.Valid() && n in pool.nodes
    ensures parent == pool.Mem()[n].parent && i == pool.Mem()[n].parentIdx
  {
    assert pool.Mem()[n] == n.View();
    parent, i := n.parent, n.parentIdx;
  }
}
