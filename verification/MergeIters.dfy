/** Merging two ascending sources. Where both hold the same key, the pair of the second source wins. */
module MergeIters {
  import opened Nodes
  import opened Options
  import opened Memory
  import opened Search
  import opened Dying
  import opened IntoIters

  type Order = (KV, KV) -> Ordering

  /** The merge of two sequences: the smaller head first, and the head of `b` for two equal ones. */
  ghost function Union(a: seq<KV>, b: seq<KV>, cmp: Order): seq<KV> {
    if a == [] then b
    else if b == [] then a
    else match cmp(a[0], b[0])
      case Less => [a[0]] + Union(a[1..], b, cmp)
      case Greater => [b[0]] + Union(a, b[1..], cmp)
      case Equal => [b[0]] + Union(a[1..], b[1..], cmp)
  }

  /** An item taken from a source but not handed out yet. */
  datatype Peeked = PeekedA(kv: KV) | PeekedB(kv: KV)

  ghost function PeekOfA(peeked: Option<Peeked>): seq<KV> {
    if peeked.Some? && peeked.value.PeekedA? then [peeked.value.kv] else []
  }

  ghost function PeekOfB(peeked: Option<Peeked>): seq<KV> {
    if peeked.Some? && peeked.value.PeekedB? then [peeked.value.kv] else []
  }

  ghost function Head(f: seq<KV>): Option<KV> { if f == [] then None else Some(f[0]) }

  ghost function Rest(f: seq<KV>): seq<KV> { if f == [] then [] else f[1..] }

  /** What is handed out for the next items of the two sources, and what is kept for later. */
  function Hand(a: Option<KV>, b: Option<KV>, cmp: Order): (r: (Option<KV>, Option<KV>, Option<Peeked>)) {
    if a.Some? && b.Some? then
      match cmp(a.value, b.value)
      case Less => (a, None, Some(PeekedB(b.value)))
      case Greater => (None, b, Some(PeekedA(a.value)))
      case Equal => (a, b, None)
    else (a, b, None)
  }

  /** Handing out the smaller of the two heads, the second if both are equal, gives the merge. */
  lemma HandsUnion(a: seq<KV>, b: seq<KV>, cmp: Order)
    ensures var u := Union(a, b, cmp);
      var fromA := a != [] && (b == [] || cmp(a[0], b[0]) != Greater);
      var fromB := b != [] && (a == [] || cmp(a[0], b[0]) != Less);
      && Head(u) == (if fromB then Some(b[0]) else if fromA then Some(a[0]) else None)
      && Rest(u) == Union(if fromA then a[1..] else a, if fromB then b[1..] else b, cmp)
      && (a != [] || b != [] ==> u != [])
  {
  }

  /** Of two heads the smaller is handed out and the other kept; of equal ones both are; a head on its own is. */
  lemma HandIs(a: seq<KV>, b: seq<KV>, cmp: Order)
    ensures var (x, y, kept) := Hand(Head(a), Head(b), cmp);
      var fromA := a != [] && (b == [] || cmp(a[0], b[0]) != Greater);
      var fromB := b != [] && (a == [] || cmp(a[0], b[0]) != Less);
      && x == (if fromA then Some(a[0]) else None) && PeekOfA(kept) + Rest(a) == (if fromA then a[1..] else a)
      && y == (if fromB then Some(b[0]) else None) && PeekOfB(kept) + Rest(b) == (if fromB then b[1..] else b)
  {
    if a != [] { assert [a[0]] + a[1..] == a && [] + a[1..] == a[1..]; }
    if b != [] { assert [b[0]] + b[1..] == b && [] + b[1..] == b[1..]; }
  }

  lemma HandsNothing(a: Option<KV>, b: Option<KV>, cmp: Order)
    ensures Hand(a, b, cmp).0.None? && Hand(a, b, cmp).1.None? ==> a.None? && b.None?
  {
  }

  /** With an item taken from a source before, that item is its head. */
  lemma PeekedHeads(peeked: Option<Peeked>, a: seq<KV>, b: seq<KV>)
    ensures var (f, g) := (PeekOfA(peeked) + a, PeekOfB(peeked) + b);
      match peeked
      case None => f == a && g == b
      case Some(PeekedA(kv)) => Head(f) == Some(kv) && Rest(f) == a && g == b
      case Some(PeekedB(kv)) => Head(g) == Some(kv) && Rest(g) == b && f == a
  {
  }

  /** Of the nodes `o` some were released, leaving `o'`, and nothing else changed. */
  ghost predicate Drained(m: Mem, m': Mem, o: multiset<Node>, o': multiset<Node>) {
    Shrunk(m, m', o) && o' <= o && forall n :: n in o && n in m' ==> n in o'
  }

  lemma DrainedSum(m: Mem, m': Mem, m'': Mem, a: multiset<Node>, b: multiset<Node>, a': multiset<Node>,
                   b': multiset<Node>)
    requires Drained(m, m', a, a') && Drained(m', m'', b, b')
    ensures Drained(m, m'', a + b, a' + b')
  {
  }

  lemma DrainedFirst(m: Mem, m': Mem, a: multiset<Node>, b: multiset<Node>, a': multiset<Node>)
    requires Drained(m, m', a, a')
    ensures Drained(m, m', a + b, a' + b)
  {
  }

  lemma DrainedSecond(m: Mem, m': Mem, a: multiset<Node>, b: multiset<Node>, b': multiset<Node>)
    requires Drained(m, m', b, b')
    ensures Drained(m, m', a + b, a + b')
  {
  }

  class MergeIter {
    const a: IntoIter
    const b: IntoIter
    var peeked: Option<Peeked>

    constructor (a: IntoIter, b: IntoIter)
      ensures this.a == a && this.b == b && peeked.None?
    {
      this.a, this.b, peeked := a, b, None;
    }

    ghost predicate In(m: Mem)
      reads this, a, b
    {
      a != b && a.In(m) && b.In(m) && Apart(a.Owned(), b.Owned())
    }

    ghost function RestOfA(m: Mem): seq<KV>
      requires In(m)
      reads this, a, b
    {
      PeekOfA(peeked) + a.Rest(m)
    }

    ghost function RestOfB(m: Mem): seq<KV>
      requires In(m)
      reads this, a, b
    {
      PeekOfB(peeked) + b.Rest(m)
    }

    /** The nodes of the sources not released yet. */
    ghost function Owned(): multiset<Node>
      reads this, a, b
    {
      a.Owned() + b.Owned()
    }

    method NextOfA(pool: Pool) returns (kv: Option<KV>)
      requires pool.Valid() && In(pool.Mem())
      modifies a, pool
      ensures pool.Valid() && pool.Repr() <= old(pool.Repr())
      ensures Drained(old(pool.Mem()), pool.Mem(), old(a.Owned()), a.Owned())
      ensures In(pool.Mem()) && b.Rest(pool.Mem()) == old(b.Rest(pool.Mem()))
      ensures kv == Head(old(a.Rest(pool.Mem()))) && a.Rest(pool.Mem()) == Rest(old(a.Rest(pool.Mem())))
      ensures kv.None? ==> a.Owned() == multiset{}
    {
      hide Walking, Shrunk, Pool.Mem, Pool.Valid, IntoIter.In, IntoIter.Owned, IntoIter.Rest;
      ghost var m, o := pool.Mem(), a.Owned();
      kv := a.Next(pool);
      InKept(b, m, pool.Mem(), o);
    }

    method NextOfB(pool: Pool) returns (kv: Option<KV>)
      requires pool.Valid() && In(pool.Mem())
      modifies b, pool
      ensures pool.Valid() && pool.Repr() <= old(pool.Repr())
      ensures Drained(old(pool.Mem()), pool.Mem(), old(b.Owned()), b.Owned())
      ensures In(pool.Mem()) && a.Rest(pool.Mem()) == old(a.Rest(pool.Mem()))
      ensures kv == Head(old(b.Rest(pool.Mem()))) && b.Rest(pool.Mem()) == Rest(old(b.Rest(pool.Mem())))
      ensures kv.None? ==> b.Owned() == multiset{}
    {
      hide Walking, Shrunk, Pool.Mem, Pool.Valid, IntoIter.In, IntoIter.Owned, IntoIter.Rest;
      ghost var m, o := pool.Mem(), b.Owned();
      assert Apart(o, a.Owned());
      kv := b.Next(pool);
      InKept(a, m, pool.Mem(), o);
    }

    /** The next items of the two sources; of two different ones only the smaller, keeping the other. */
    method Nexts(cmp: Order, pool: Pool) returns (aNext: Option<KV>, bNext: Option<KV>)
      requires pool.Valid() && In(pool.Mem())
      modifies this, a, b, pool
      ensures pool.Valid() && pool.Repr() <= old(pool.Repr())
      ensures Drained(old(pool.Mem()), pool.Mem(), old(Owned()), Owned())
      ensures In(pool.Mem())
      ensures var (f, g) := (old(RestOfA(pool.Mem())), old(RestOfB(pool.Mem())));
        var fromA := f != [] && (g == [] || cmp(f[0], g[0]) != Greater);
        var fromB := g != [] && (f == [] || cmp(f[0], g[0]) != Less);
        && aNext == (if fromA then Some(f[0]) else None) && RestOfA(pool.Mem()) == (if fromA then f[1..] else f)
        && bNext == (if fromB then Some(g[0]) else None) && RestOfB(pool.Mem()) == if fromB then g[1..] else g
      ensures aNext.None? && bNext.None? ==> Owned() == multiset{}
    {
      hide Walking, Drained, Head, Rest, PeekOfA, PeekOfB, Union, Hand, Pool.Mem, Pool.Valid;
      ghost var f, g := RestOfA(pool.Mem()), RestOfB(pool.Mem());
      var x, y := TakeBoth(pool);
      HandsNothing(x, y, cmp);
      HandIs(f, g, cmp);
      var (p, q, kept) := Hand(x, y, cmp);
      Keep(kept, pool.Mem());
      aNext, bNext := p, q;
    }

    method Keep(kept: Option<Peeked>, ghost m: Mem)
      requires In(m)
      modifies this
      ensures In(m) && Owned() == old(Owned()) && peeked == kept
      ensures a.Rest(m) == old(a.Rest(m)) && b.Rest(m) == old(b.Rest(m))
    {
      hide Walking, Pool.Mem, Pool.Valid;
      peeked := kept;
    }

    /** The next items of the two sources, one of them perhaps taken before. */
    method TakeBoth(pool: Pool) returns (x: Option<KV>, y: Option<KV>)
      requires pool.Valid() && In(pool.Mem())
      modifies a, b, pool
      ensures pool.Valid() && pool.Repr() <= old(pool.Repr())
      ensures Drained(old(pool.Mem()), pool.Mem(), old(Owned()), Owned())
      ensures In(pool.Mem())
      ensures var (f, g) := (old(RestOfA(pool.Mem())), old(RestOfB(pool.Mem())));
        && x == Head(f) && y == Head(g) && a.Rest(pool.Mem()) == Rest(f) && b.Rest(pool.Mem()) == Rest(g)
      ensures x.None? && y.None? ==> Owned() == multiset{}
    {
      hide Walking, Drained, Head, Rest, PeekOfA, PeekOfB, Pool.Mem, Pool.Valid;
      ghost var m, o, p := pool.Mem(), a.Owned(), b.Owned();
      PeekedHeads(peeked, a.Rest(m), b.Rest(m));
      match peeked {
        case Some(PeekedA(kv)) =>
          x := Some(kv);
          y := NextOfB(pool);
          DrainedSecond(m, pool.Mem(), o, p, b.Owned());
        case Some(PeekedB(kv)) =>
          y := Some(kv);
          x := NextOfA(pool);
          DrainedFirst(m, pool.Mem(), o, p, a.Owned());
        case None =>
          x, y := TakeFresh(pool);
      }
    }

    method TakeFresh(pool: Pool) returns (x: Option<KV>, y: Option<KV>)
      requires pool.Valid() && In(pool.Mem())
      modifies a, b, pool
      ensures pool.Valid() && pool.Repr() <= old(pool.Repr())
      ensures Drained(old(pool.Mem()), pool.Mem(), old(Owned()), Owned())
      ensures In(pool.Mem())
      ensures var (f, g) := (old(a.Rest(pool.Mem())), old(b.Rest(pool.Mem())));
        && x == Head(f) && y == Head(g) && a.Rest(pool.Mem()) == Rest(f) && b.Rest(pool.Mem()) == Rest(g)
      ensures x.None? && y.None? ==> Owned() == multiset{}
    {
      hide Walking, Drained, Pool.Mem, Pool.Valid;
      ghost var m, o, p := pool.Mem(), a.Owned(), b.Owned();
      x := NextOfA(pool);
      ghost var m1, o1 := pool.Mem(), a.Owned();
      y := NextOfB(pool);
      DrainedSum(m, m1, pool.Mem(), o, p, o1, b.Owned());
    }

    /** The next pair of the merge. */
    method Next(cmp: Order, pool: Pool) returns (kv: Option<KV>)
      requires pool.Valid() && In(pool.Mem())
      modifies this, a, b, pool
      ensures pool.Valid() && pool.Repr() <= old(pool.Repr())
      ensures Drained(old(pool.Mem()), pool.Mem(), old(Owned()), Owned())
      ensures In(pool.Mem())
      ensures var u := old(Union(RestOfA(pool.Mem()), RestOfB(pool.Mem()), cmp));
        kv == Head(u) && Union(RestOfA(pool.Mem()), RestOfB(pool.Mem()), cmp) == Rest(u)
      ensures kv.None? ==> Owned() == multiset{}
    {
      hide Walking, Drained, Union, Hand, Pool.Mem, Pool.Valid;
      HandsUnion(RestOfA(pool.Mem()), RestOfB(pool.Mem()), cmp);
      var aNext, bNext := Nexts(cmp, pool);
      kv := if bNext.Some? then bNext else aNext;
    }
  }
}
