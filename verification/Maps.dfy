/** The map: a tree of pairs in key order together with its length. */
module Maps {
  import opened Nodes
  import opened Options
  import opened Trees
  import opened Memory
  import opened Shapes
  import opened Places
  import opened Navigate
  import opened Search
  import opened Roots
  import Fix
  import Insert
  import Remove
  import SplitOff
  import Lengths
  import opened Dying
  import opened IntoIters
  import opened MergeIters
  import Append
  import BulkPush

  /** A map with a root: the tree below it, and its length. */
  ghost predicate Keeps(m: Mem, node: Node, height: nat, length: nat, t: Tree) {
    Holds(m, t) && t.node == node && Balanced(t, height) && length == |Flat(t)|
  }

  /** What entry the map has for a key: its pair, or the leaf edge where the key belongs, if there is a root. */
  datatype Entry = Vacant(edge: Option<Handle>) | Occupied(kv: Handle)

  lemma KeepsHeld(m: Mem, node: Node, height: nat, length: nat, t: Tree)
    requires Keeps(m, node, height, length, t)
    ensures Holds(m, t) && t.node == node && Balanced(t, height) && length == |Flat(t)|
  {
  }

  lemma KeepsOf(m: Mem, m': Mem, node: Node, height: nat, length: nat, t: Tree, t': Tree)
    requires Becomes(m, m', t, t') && t'.node == node && Balanced(t', height) && length == |Flat(t')|
    ensures Keeps(m', node, height, length, t')
  {
  }

  lemma FullBalanced(t: Tree, h: nat)
    requires Full(t, h, 1)
    ensures Balanced(t, h)
  {
    FullFrom(t, h, 1, if h == 0 then 0 else 1);
  }

  /** A pair of a leaf, with `g` pairs before it. */
  ghost predicate InLeaf(t: Tree, q: Path, kv: Handle, g: nat) {
    Kv(t, q, kv) && SubAt(t, q).kids == [] && Index(t, q, kv) == g
  }

  lemma NothingHit(comp: Comparator)
    ensures !Hit([], comp) && Cut([], comp) == 0
  {
  }

  // ----- What operations do to a tree with its root

  method InsertAt(root: Root, length: nat, edge: Handle, kv: KV, pool: Pool, ghost t: Tree, ghost p: Path)
    returns (handle: Handle, ghost t': Tree, ghost q: Path)
    requires pool.Valid() && Keeps(pool.Mem(), root.node, root.height, length, t) && LeafEdge(t, p, edge)
    modifies root, pool, pool.nodes, pool.kvBuffers, pool.edgeBuffers
    ensures pool.Valid() && fresh(pool.Repr() - old(pool.Repr())) && Becomes(old(pool.Mem()), pool.Mem(), t, t')
    ensures Keeps(pool.Mem(), root.node, root.height, length + 1, t')
    ensures var g := Gap(t, p, edge); g <= |Flat(t)| && Flat(t') == Put(Flat(t), g, kv) && InLeaf(t', q, handle, g)
  {
    hide Holds, Becomes, Balanced, Full, LeafEdge, Kv, Index, Pool.Mem, Pool.Valid;
    ghost var m := pool.Mem();
    handle, t', q := Insert.InsertRecursing(edge, kv, root, pool, t, p);
    FullBalanced(t', root.height);
    KeepsOf(m, pool.Mem(), root.node, root.height, length + 1, t, t');
  }

  method RemoveAt(root: Root, length: nat, kv: Handle, pool: Pool, ghost t: Tree, ghost p: Path)
    returns (oldKv: KV, ghost t': Tree)
    requires pool.Valid() && Keeps(pool.Mem(), root.node, root.height, length, t) && Kv(t, p, kv)
    modifies root, pool, pool.nodes, pool.kvBuffers, pool.edgeBuffers
    ensures pool.Valid() && pool.Repr() <= old(pool.Repr()) && Becomes(old(pool.Mem()), pool.Mem(), t, t')
    ensures length > 0 && Keeps(pool.Mem(), root.node, root.height, length - 1, t')
    ensures var g := Index(t, p, kv); g < |Flat(t)| && oldKv == Flat(t)[g] && Flat(t') == Take(Flat(t), g)
  {
    hide Holds, Becomes, Balanced, Full, LeafEdge, Kv, Index, Gap, Pool.Mem, Pool.Valid;
    ghost var m := pool.Mem();
    var edge, emptied; ghost var t1, q;
    oldKv, edge, emptied, t1, q := Remove.RemoveKvTracking(kv, root, false, pool, t, p);
    t' := t1;
    if emptied { t' := PopEmptied(root, pool, m, t, t1); }
    KeepsOf(m, pool.Mem(), root.node, root.height, length - 1, t, t');
  }

  method TrackAt(root: Root, length: nat, kv: Handle, pool: Pool, ghost t: Tree, ghost p: Path)
    returns (oldKv: KV, edge: Handle, ghost t': Tree, ghost p': Path)
    requires pool.Valid() && Keeps(pool.Mem(), root.node, root.height, length, t) && Kv(t, p, kv)
    modifies root, pool, pool.nodes, pool.kvBuffers, pool.edgeBuffers
    ensures pool.Valid() && pool.Repr() <= old(pool.Repr()) && Becomes(old(pool.Mem()), pool.Mem(), t, t')
    ensures length > 0 && Keeps(pool.Mem(), root.node, root.height, length - 1, t')
    ensures var g := Index(t, p, kv);
      && g < |Flat(t)| && oldKv == Flat(t)[g] && Flat(t') == Take(Flat(t), g)
      && LeafEdge(t', p', edge) && Gap(t', p', edge) == g
  {
    hide Holds, Becomes, Balanced, Full, LeafEdge, Kv, Index, Gap, Pool.Mem, Pool.Valid;
    ghost var m := pool.Mem();
    var emptied;
    oldKv, edge, emptied, t', p' := Remove.RemoveKvTracking(kv, root, true, pool, t, p);
    KeepsOf(m, pool.Mem(), root.node, root.height, length - 1, t, t');
  }

  method PopEmptied(root: Root, pool: Pool, ghost m0: Mem, ghost t0: Tree, ghost t: Tree) returns (ghost t': Tree)
    requires pool.Valid() && Becomes(m0, pool.Mem(), t0, t) && t.node == root.node
    requires root.height > 0 && t.kvs == [] && Full(t, root.height, 0)
    modifies root, pool, pool.nodes, pool.kvBuffers, pool.edgeBuffers
    ensures pool.Valid() && pool.Repr() <= old(pool.Repr()) && Becomes(m0, pool.Mem(), t0, t')
    ensures t'.node == root.node && Balanced(t', root.height) && Flat(t') == Flat(t) && t.kids != [] && t' == t.kids[0]
  {
    hide Holds, Becomes, Pool.Mem, Pool.Valid;
    ghost var m := pool.Mem();
    Fix.BecomesHolds(m0, m, t0, t);
    EmptiedRoot(t, root.height);
    root.PopInternalLevel(pool, t);
    t' := t.kids[0];
    BecomesTrans(m0, m, pool.Mem(), t0, t, t');
  }

  lemma EmptiedRoot(t: Tree, h: nat)
    requires h > 0 && t.kvs == [] && Full(t, h, 0)
    ensures |t.kids| == 1 && Balanced(t.kids[0], h - 1) && Flat(t.kids[0]) == Flat(t)
  {
    FullFrom(t.kids[0], h - 1, MIN_LEN, if h - 1 == 0 then 0 else 1);
  }

  method ReplaceAt(root: Root, length: nat, kv: Handle, val: Val, pool: Pool, ghost t: Tree, ghost p: Path)
    returns (oldVal: Val, ghost t': Tree)
    requires pool.Valid() && Keeps(pool.Mem(), root.node, root.height, length, t) && Kv(t, p, kv)
    modifies pool.nodes, pool.kvBuffers, pool.edgeBuffers
    ensures pool.Valid() && Becomes(old(pool.Mem()), pool.Mem(), t, t')
    ensures Keeps(pool.Mem(), root.node, root.height, length, t')
    ensures Kv(t', p, kv) && Index(t', p, kv) == Index(t, p, kv)
    ensures var (f, g) := (Flat(t), Index(t, p, kv));
      g < |f| && oldVal == f[g].val && Flat(t') == f[g := KV(f[g].key, val)]
  {
    hide Holds, Becomes, Balanced, Full, Index, Pool.Mem, Pool.Valid;
    ghost var m := pool.Mem();
    var x := KvAt(kv.node, kv.idx, pool, t, p);
    var y := KV(x.key, val);
    PairAfterEdge(t, p, kv.idx);
    IndexIs(t, p, kv);
    Remove.ReplacedAt(t, p, kv, y);
    Fix.SetAtNode(t, p, SubAt(t, p).(kvs := SubAt(t, p).kvs[kv.idx := y]));
    ReplacedBalanced(t, root.height, p, SubAt(t, p).kvs[kv.idx := y]);
    var old_;
    old_, t' := ReplaceKv(kv.node, kv.idx, y, pool, t, p);
    oldVal := old_.val;
    KeepsOf(m, pool.Mem(), root.node, root.height, length, t, t');
  }

  lemma IndexIs(t: Tree, p: Path, kv: Handle)
    requires Kv(t, p, kv)
    ensures Index(t, p, kv) == End(t, p, kv.idx)
  {
  }

  lemma ReplacedBalanced(t: Tree, h: nat, p: Path, kvs: seq<KV>)
    requires Balanced(t, h) && ValidPath(t, p) && |kvs| == |SubAt(t, p).kvs|
    ensures Balanced(SetKvs(t, p, kvs), h)
  {
    Remove.FullReplaced(t, h, if h == 0 then 0 else 1, p, kvs);
  }

  // ----- What operations do to the sequence of pairs

  /** The pairs with a value for a key: in place of the old value if the comparator hits a pair, which keeps its key,
      and else at the place it points to. */
  ghost function Inserted(f: seq<KV>, comp: Comparator, key: Key, val: Val): seq<KV> {
    var c := Cut(f, comp);
    if Hit(f, comp) then f[c := KV(f[c].key, val)] else Put(f, c, KV(key, val))
  }

  ghost function Removed(f: seq<KV>, comp: Comparator): seq<KV> {
    if Hit(f, comp) then Take(f, Cut(f, comp)) else f
  }

  ghost function Sought(f: seq<KV>, comp: Comparator): Option<KV> {
    if Hit(f, comp) then Some(f[Cut(f, comp)]) else None
  }

  /** What is sought is the one pair whose key the comparator says Equal of. */
  lemma SoughtHas(f: seq<KV>, comp: Comparator, x: KV)
    requires Monotone(f, comp)
    ensures Sought(f, comp) == Some(x) <==> x in f && comp(x.key) == Equal
  {
    var c := Cut(f, comp);
    if x in f && comp(x.key) == Equal {
      var i :| 0 <= i < |f| && f[i] == x;
      assert c <= i;
    }
  }

  class BTreeMap {
    var root: Option<Root>
    var length: nat
    ghost var tree: Option<Tree>

    ghost function Parts(): set<object>
      reads this
    {
      {this} + if root.Some? then {root.value} else {}
    }

    /** The nodes the map owns. */
    ghost function Owned(): multiset<Node>
      reads this
    {
      if tree.Some? then Bag(tree.value) else multiset{}
    }

    /** The map is in order in memory `m`. */
    ghost predicate In(m: Mem)
      reads Parts()
    {
      && (root.Some? <==> tree.Some?) && (root.None? ==> length == 0)
      && (root.Some? ==> Keeps(m, root.value.node, root.value.height, length, tree.value))
    }

    /** The pairs of the map, in order. */
    ghost function Contents(): seq<KV>
      reads this
    {
      if tree.Some? then Flat(tree.value) else []
    }

    constructor ()
      ensures forall m: Mem :: In(m)
      ensures Contents() == [] && Owned() == multiset{} && length == 0 && Parts() == {this}
    {
      root, length, tree := None, 0, None;
    }

    /** The length is exact. */
    lemma LengthExact(m: Mem)
      requires In(m)
      ensures length == |Contents()|
    {
    }

    /** The value of the pair that the comparator hits. `calls` counts the calls of the comparator. */
    method Get(comp: Comparator, pool: Pool) returns (val: Option<Val>, ghost calls: nat)
      requires pool.Valid() && In(pool.Mem()) && Monotone(Contents(), comp)
      ensures var sought := Sought(Contents(), comp); val == if sought.Some? then Some(sought.value.val) else None
      ensures calls <= if root.None? then 0 else CAPACITY * (root.value.height + 1)
      ensures calls <= CAPACITY * (Log((|Contents()| + 1) / 2) + 1)
    {
      hide Holds, Balanced, Monotone, Pool.Mem, Pool.Valid;
      if root.None? { return None, 0; }
      ghost var t := tree.value;
      KeepsHeld(pool.Mem(), root.value.node, root.value.height, length, t);
      var r; ghost var q;
      r, q, calls := SearchTree(root.value.node, comp, pool, t);
      SearchDepth(t, root.value.height, q, r);
      HeightIsLogarithmic(t, root.value.height);
      if r.Found? {
        var kv := ReadPair(r.kv, pool, t, q);
        val := Some(kv.val);
      } else {
        val := None;
      }
    }

    /** A gap where a pair may be inserted: at a leaf edge, or before the first root. */
    ghost predicate VacantAt(edge: Option<Handle>, q: Path, g: nat)
      reads this
    {
      match edge
      case None => root.None? && g == 0
      case Some(e) => root.Some? && tree.Some? && LeafEdge(tree.value, q, e) && Gap(tree.value, q, e) == g
    }

    /** What entry the map has for a key. */
    method FindEntry(comp: Comparator, pool: Pool) returns (e: Entry, ghost q: Path)
      requires pool.Valid() && In(pool.Mem()) && Monotone(Contents(), comp)
      ensures root.Some? <==> tree.Some?
      ensures e.Occupied? ==> root.Some? && Hit(Contents(), comp)
      ensures e.Occupied? ==> Kv(tree.value, q, e.kv) && Index(tree.value, q, e.kv) == Cut(Contents(), comp)
      ensures e.Vacant? ==> !Hit(Contents(), comp) && VacantAt(e.edge, q, Cut(Contents(), comp))
    {
      hide Holds, Balanced, Monotone, Hit, Cut, Kv, Index, LeafEdge, Gap, Flat, Pool.Mem, Pool.Valid;
      if root.None? {
        NothingHit(comp);
        return Vacant(None), [];
      }
      KeepsHeld(pool.Mem(), root.value.node, root.value.height, length, tree.value);
      var r; ghost var calls;
      r, q, calls := SearchTree(root.value.node, comp, pool, tree.value);
      e := if r.Found? then Occupied(r.kv) else Vacant(Some(r.edge));
    }

    method SetTree(length: nat, ghost m: Mem, ghost t: Tree)
      requires root.Some? && Keeps(m, root.value.node, root.value.height, length, t)
      modifies this
      ensures In(m) && root == old(root) && tree == Some(t) && this.length == length
    {
      this.length, tree := length, Some(t);
    }

    method SetRoot(root: Root, length: nat, ghost m: Mem, ghost t: Tree)
      requires Keeps(m, root.node, root.height, length, t)
      modifies this
      ensures In(m) && this.root == Some(root) && tree == Some(t) && this.length == length
    {
      this.root, this.length, tree := Some(root), length, Some(t);
    }

    method RemoveOccupied(kv: Handle, pool: Pool, ghost q: Path) returns (oldKv: KV)
      requires pool.Valid() && In(pool.Mem()) && root.Some? && Kv(tree.value, q, kv)
      modifies Parts(), pool, pool.nodes, pool.kvBuffers, pool.edgeBuffers
      ensures pool.Valid() && pool.Repr() <= old(pool.Repr())
      ensures Edited(old(pool.Mem()), pool.Mem(), old(Owned()), Owned())
      ensures In(pool.Mem()) && root == old(root)
      ensures var (f, g) := (old(Contents()), old(Index(tree.value, q, kv)));
        g < |f| && oldKv == f[g] && Contents() == Take(f, g)
    {
      hide Keeps, Becomes, Holds, Flat, Kv, Index, Edited, Take, Bag, SubAt, ValidPath, Pool.Mem, Pool.Valid;
      ghost var m, t' := pool.Mem(), tree.value;
      oldKv, t' := RemoveAt(root.value, length, kv, pool, tree.value, q);
      BecomesEdited(m, pool.Mem(), tree.value, t');
      SetTree(length - 1, pool.Mem(), t');
    }

    /** Removes a pair, popping the root at once if that empties it, and tells the leaf edge left behind. */
    method RemoveTracked(kv: Handle, pool: Pool, ghost q: Path) returns (oldKv: KV, edge: Handle, ghost q': Path)
      requires pool.Valid() && In(pool.Mem()) && root.Some? && Kv(tree.value, q, kv)
      modifies Parts(), pool, pool.nodes, pool.kvBuffers, pool.edgeBuffers
      ensures pool.Valid() && pool.Repr() <= old(pool.Repr())
      ensures Edited(old(pool.Mem()), pool.Mem(), old(Owned()), Owned())
      ensures In(pool.Mem()) && root == old(root)
      ensures var (f, g) := (old(Contents()), old(Index(tree.value, q, kv)));
        && g < |f| && oldKv == f[g] && Contents() == Take(f, g)
        && LeafEdge(tree.value, q', edge) && Gap(tree.value, q', edge) == g
    {
      hide Keeps, Becomes, Holds, Flat, Kv, Index, Edited, Take, Bag, SubAt, ValidPath, LeafEdge, Gap, Pool.Mem,
           Pool.Valid;
      ghost var m, t' := pool.Mem(), tree.value;
      oldKv, edge, t', q' := TrackAt(root.value, length, kv, pool, tree.value, q);
      BecomesEdited(m, pool.Mem(), tree.value, t');
      SetTree(length - 1, pool.Mem(), t');
    }

    /** Inserts a pair at a vacant gap, in a first root if there is none, and tells where it is then. */
    method InsertVacant(edge: Option<Handle>, kv: KV, pool: Pool, ghost q: Path, ghost g: nat)
      returns (handle: Handle, ghost q': Path)
      requires pool.Valid() && In(pool.Mem()) && VacantAt(edge, q, g)
      modifies Parts(), pool, pool.nodes, pool.kvBuffers, pool.edgeBuffers
      ensures pool.Valid() && fresh(pool.Repr() - old(pool.Repr())) && fresh(Parts() - old(Parts()))
      ensures Edited(old(pool.Mem()), pool.Mem(), old(Owned()), Owned())
      ensures In(pool.Mem()) && root.Some? && tree.Some? && (edge.Some? ==> root == old(root))
      ensures var f := old(Contents());
        g <= |f| && Contents() == Put(f, g, kv) && InLeaf(tree.value, q', handle, g)
    {
      hide Keeps, Flat, LeafEdge, Gap, Edited, Bag, InLeaf, Pool.Mem, Pool.Valid;
      match edge {
        case None => handle, q' := InsertFirst(kv, pool);
        case Some(e) => handle, q' := InsertAtEdge(e, kv, pool, q);
      }
    }

    method InsertAtEdge(edge: Handle, kv: KV, pool: Pool, ghost q: Path) returns (handle: Handle, ghost q': Path)
      requires pool.Valid() && In(pool.Mem()) && root.Some? && LeafEdge(tree.value, q, edge)
      modifies Parts(), pool, pool.nodes, pool.kvBuffers, pool.edgeBuffers
      ensures pool.Valid() && fresh(pool.Repr() - old(pool.Repr()))
      ensures Edited(old(pool.Mem()), pool.Mem(), old(Owned()), Owned())
      ensures In(pool.Mem()) && root == old(root)
      ensures var (f, g) := (old(Contents()), old(Gap(tree.value, q, edge)));
        g <= |f| && Contents() == Put(f, g, kv) && InLeaf(tree.value, q', handle, g)
    {
      hide Keeps, Becomes, Holds, Flat, LeafEdge, Gap, Edited, Put, Bag, SubAt, ValidPath, InLeaf, Pool.Mem, Pool.Valid;
      ghost var m := pool.Mem();
      ghost var t';
      handle, t', q' := InsertAt(root.value, length, edge, kv, pool, tree.value, q);
      BecomesEdited(m, pool.Mem(), tree.value, t');
      SetTree(length + 1, pool.Mem(), t');
    }

    method ReplaceOccupied(kv: Handle, val: Val, pool: Pool, ghost q: Path) returns (oldVal: Val)
      requires pool.Valid() && In(pool.Mem()) && root.Some? && Kv(tree.value, q, kv)
      modifies this, pool.nodes, pool.kvBuffers, pool.edgeBuffers
      ensures pool.Valid() && Edited(old(pool.Mem()), pool.Mem(), old(Owned()), Owned())
      ensures In(pool.Mem()) && root == old(root) && length == old(length)
      ensures Kv(tree.value, q, kv) && Index(tree.value, q, kv) == old(Index(tree.value, q, kv))
      ensures var (f, g) := (old(Contents()), old(Index(tree.value, q, kv)));
        g < |f| && oldVal == f[g].val && Contents() == f[g := KV(f[g].key, val)]
    {
      hide Keeps, Becomes, Holds, Flat, Kv, Index, Edited, Take, Bag, SubAt, ValidPath, Pool.Mem, Pool.Valid;
      ghost var m, t' := pool.Mem(), tree.value;
      oldVal, t' := ReplaceAt(root.value, length, kv, val, pool, tree.value, q);
      BecomesEdited(m, pool.Mem(), tree.value, t');
      tree := Some(t');
    }

    /** Puts the first pair into a map without a root. */
    method InsertFirst(kv: KV, pool: Pool) returns (handle: Handle, ghost q: Path)
      requires pool.Valid() && In(pool.Mem()) && root.None?
      modifies Parts(), pool, pool.nodes, pool.kvBuffers, pool.edgeBuffers
      ensures pool.Valid() && fresh(pool.Repr() - old(pool.Repr()))
      ensures Edited(old(pool.Mem()), pool.Mem(), old(Owned()), Owned())
      ensures In(pool.Mem()) && fresh(Parts() - old(Parts())) && Contents() == [kv]
      ensures root.Some? && tree.Some? && InLeaf(tree.value, q, handle, 0)
    {
      hide Keeps, Edited, Bag, Flat, InLeaf, Pool.Mem, Pool.Valid;
      var r; ghost var t;
      r, t := FirstLeaf(kv, pool);
      SetRoot(r, 1, pool.Mem(), t);
      handle, q := Handle(r.node, 0), [];
    }

    /** Inserts a pair. On an equivalent key, keeps the stored key and returns the old value. */
    method Insert(key: Key, val: Val, doubleComp: (Key, Key) -> Ordering, pool: Pool) returns (oldVal: Option<Val>)
      requires pool.Valid() && In(pool.Mem()) && Monotone(Contents(), k => doubleComp(k, key))
      modifies Parts(), pool, pool.nodes, pool.kvBuffers, pool.edgeBuffers
      ensures pool.Valid() && fresh(pool.Repr() - old(pool.Repr()))
      ensures Edited(old(pool.Mem()), pool.Mem(), old(Owned()), Owned())
      ensures In(pool.Mem()) && fresh(Parts() - old(Parts()))
      ensures var comp := k => doubleComp(k, key); Contents() == Inserted(old(Contents()), comp, key, val)
      ensures var comp := k => doubleComp(k, key);
        var sought := Sought(old(Contents()), comp); oldVal == if sought.Some? then Some(sought.value.val) else None
    {
      hide Edited, Monotone, Inserted, Sought, BTreeMap.In, BTreeMap.Owned, BTreeMap.Contents, BTreeMap.Parts, Pool.Mem,
           Pool.Valid;
      var comp := k => doubleComp(k, key);
      oldVal := InsertBy(comp, key, val, pool);
    }

    method InsertBy(comp: Comparator, key: Key, val: Val, pool: Pool) returns (oldVal: Option<Val>)
      requires pool.Valid() && In(pool.Mem()) && Monotone(Contents(), comp)
      modifies Parts(), pool, pool.nodes, pool.kvBuffers, pool.edgeBuffers
      ensures pool.Valid() && fresh(pool.Repr() - old(pool.Repr()))
      ensures Edited(old(pool.Mem()), pool.Mem(), old(Owned()), Owned())
      ensures In(pool.Mem()) && fresh(Parts() - old(Parts())) && Contents() == Inserted(old(Contents()), comp, key, val)
      ensures var sought := Sought(old(Contents()), comp);
        oldVal == if sought.Some? then Some(sought.value.val) else None
    {
      hide Keeps, Edited, Holds, Monotone, LeafEdge, Kv, Index, Gap, Flat, BTreeMap.In, BTreeMap.Owned;
      hide Pool.Mem, Pool.Valid;
      var e; ghost var q;
      e, q := FindEntry(comp, pool);
      match e {
        case Vacant(edge) =>
          var handle; ghost var q';
          handle, q' := InsertVacant(edge, KV(key, val), pool, q, Cut(Contents(), comp));
          oldVal := None;
        case Occupied(kv) =>
          var x := ReplaceOccupied(kv, val, pool, q);
          oldVal := Some(x);
      }
    }

    /** Removes the pair that the comparator hits. */
    method RemoveEntry(comp: Comparator, pool: Pool) returns (oldKv: Option<KV>)
      requires pool.Valid() && In(pool.Mem()) && Monotone(Contents(), comp)
      modifies Parts(), pool, pool.nodes, pool.kvBuffers, pool.edgeBuffers
      ensures pool.Valid() && pool.Repr() <= old(pool.Repr())
      ensures Edited(old(pool.Mem()), pool.Mem(), old(Owned()), Owned())
      ensures In(pool.Mem()) && root == old(root)
      ensures Contents() == Removed(old(Contents()), comp) && oldKv == Sought(old(Contents()), comp)
    {
      hide Keeps, Holds, Monotone, LeafEdge, Kv, Index, Gap, Flat, Edited, Pool.Mem, Pool.Valid;
      OwnedSame(pool.Mem());
      var e; ghost var q;
      e, q := FindEntry(comp, pool);
      if e.Occupied? {
        var x := RemoveOccupied(e.kv, pool, q);
        oldKv := Some(x);
      } else {
        oldKv := None;
      }
    }

    lemma OwnedSame(m: Mem)
      requires In(m)
      ensures Edited(m, m, Owned(), Owned())
    {
      if root.Some? { BecomesNothing(m, tree.value); }
    }

    /** The map only depends on its own nodes, which are in memory. */
    lemma InElsewhere(m: Mem, m': Mem)
      requires In(m) && forall n :: n in Owned() && n in m ==> n in m' && m'[n] == m[n]
      ensures In(m') && forall n :: n in Owned() ==> n in m
    {
      if root.Some? {
        var t := tree.value;
        RepIn(m, t);
        HoldsKept(m, m', t);
      }
    }

    /** Removes and returns the first pair. */
    method PopFirst(pool: Pool) returns (kv: Option<KV>)
      requires pool.Valid() && In(pool.Mem())
      modifies Parts(), pool, pool.nodes, pool.kvBuffers, pool.edgeBuffers
      ensures pool.Valid() && pool.Repr() <= old(pool.Repr())
      ensures Edited(old(pool.Mem()), pool.Mem(), old(Owned()), Owned())
      ensures In(pool.Mem()) && root == old(root)
      ensures var f := old(Contents());
        if f == [] then kv == None && Contents() == f else kv == Some(f[0]) && Contents() == f[1..]
    {
      hide Keeps, Holds, LeafEdge, Kv, Index, Gap, Flat, Edited, Bag, Pool.Mem, Pool.Valid;
      OwnedSame(pool.Mem());
      if root.None? { return None; }
      var e; ghost var q;
      e, q := FirstEntry(root.value, length, pool, tree.value);
      if e.None? { return None; }
      var x := RemoveOccupied(e.value, pool, q);
      kv := Some(x);
    }

    /** Removes and returns the last pair. */
    method PopLast(pool: Pool) returns (kv: Option<KV>)
      requires pool.Valid() && In(pool.Mem())
      modifies Parts(), pool, pool.nodes, pool.kvBuffers, pool.edgeBuffers
      ensures pool.Valid() && pool.Repr() <= old(pool.Repr())
      ensures Edited(old(pool.Mem()), pool.Mem(), old(Owned()), Owned())
      ensures In(pool.Mem()) && root == old(root)
      ensures var f := old(Contents());
        if f == [] then kv == None && Contents() == f else kv == Some(f[|f| - 1]) && Contents() == f[..|f| - 1]
    {
      hide Keeps, Holds, LeafEdge, Kv, Index, Gap, Flat, Edited, Bag, Pool.Mem, Pool.Valid;
      OwnedSame(pool.Mem());
      if root.None? { return None; }
      var e; ghost var q;
      e, q := LastEntry(root.value, length, pool, tree.value);
      if e.None? { return None; }
      var x := RemoveOccupied(e.value, pool, q);
      kv := Some(x);
    }

    /** Splits off the pairs from the place on, as a map of their own. */
    method SplitOff(comp: Comparator, pool: Pool) returns (other: BTreeMap)
      requires pool.Valid() && In(pool.Mem()) && Monotone(Contents(), comp)
      modifies Parts(), pool, pool.nodes, pool.kvBuffers, pool.edgeBuffers
      ensures pool.Valid() && fresh(pool.Repr() - old(pool.Repr())) && fresh(other.Parts()) && root == old(root)
      ensures Parts() == old(Parts())
      ensures Edited(old(pool.Mem()), pool.Mem(), old(Owned()), Owned() + other.Owned())
      ensures Once(Owned() + other.Owned())
      ensures In(pool.Mem()) && other.In(pool.Mem())
      ensures var (f, c) := (old(Contents()), Cut(old(Contents()), comp));
        Contents() == f[..c] && other.Contents() == f[c..]
    {
      hide Keeps, Edited, Monotone, Once, Cut, BTreeMap.In, BTreeMap.Owned, BTreeMap.Contents, Pool.Mem, Pool.Valid;
      other := new BTreeMap();
      if length == 0 {
        SplitEmpty(pool.Mem(), other);
      } else {
        SplitInto(other, comp, pool);
      }
    }

    method SplitInto(other: BTreeMap, comp: Comparator, pool: Pool)
      requires pool.Valid() && In(pool.Mem()) && length > 0 && other != this && Monotone(Contents(), comp)
      requires other !in pool.Repr() && other !in Parts()
      modifies Parts(), other, pool, pool.nodes, pool.kvBuffers, pool.edgeBuffers
      ensures pool.Valid() && fresh(pool.Repr() - old(pool.Repr())) && root == old(root)
      ensures fresh(other.Parts() - {other}) && Parts() == old(Parts())
      ensures Edited(old(pool.Mem()), pool.Mem(), old(Owned()), Owned() + other.Owned())
      ensures Once(Owned() + other.Owned())
      ensures In(pool.Mem()) && other.In(pool.Mem())
      ensures var (f, c) := (old(Contents()), Cut(old(Contents()), comp));
        Contents() == f[..c] && other.Contents() == f[c..]
    {
      hide Keeps, Holds, Flat, Edited, Bag, Monotone, Once, Cut, Pool.Mem, Pool.Valid;
      var right, lengthA, lengthB; ghost var t, u;
      right, lengthA, lengthB, t, u := SplitRoots(root.value, length, comp, pool, tree.value);
      Share(other, right, lengthA, lengthB, pool.Mem(), t, u);
    }

    /** Keeps one tree and gives the other map another. */
    method Share(other: BTreeMap, right: Root, lengthA: nat, lengthB: nat, ghost m: Mem, ghost t: Tree, ghost u: Tree)
      requires root.Some? && other != this
      requires Keeps(m, root.value.node, root.value.height, lengthA, t)
      requires Keeps(m, right.node, right.height, lengthB, u)
      modifies this, other
      ensures In(m) && other.In(m) && root == old(root) && Parts() == old(Parts()) && other.Parts() == {other, right}
      ensures Contents() == Flat(t) && other.Contents() == Flat(u) && Owned() == Bag(t) && other.Owned() == Bag(u)
    {
      hide Keeps, Flat, Bag;
      SetTree(lengthA, m, t);
      other.SetRoot(right, lengthB, m, u);
    }

    lemma SplitEmpty(m: Mem, other: BTreeMap)
      requires In(m) && length == 0 && other.Owned() == multiset{}
      ensures Contents() == [] && Once(Owned() + other.Owned()) && Edited(m, m, Owned(), Owned() + other.Owned())
    {
      OwnedSame(m);
      assert Owned() + other.Owned() == Owned();
    }

    /** Takes the pairs of another map, whose pairs win on equal keys, and leaves that map empty. */
    method Append(other: BTreeMap, cmp: Order, pool: Pool)
      requires pool.Valid() && In(pool.Mem()) && other.In(pool.Mem()) && Parts() !! other.Parts()
      requires Apart(Owned(), other.Owned())
      modifies Parts(), other.Parts(), pool, pool.nodes, pool.kvBuffers, pool.edgeBuffers
      ensures pool.Valid() && fresh(pool.Repr() - old(pool.Repr()))
      ensures fresh(Parts() + other.Parts() - old(Parts() + other.Parts())) && Parts() !! other.Parts()
      ensures Edited(old(pool.Mem()), pool.Mem(), old(Owned()) + old(other.Owned()), Owned() + other.Owned())
      ensures Apart(Owned(), other.Owned())
      ensures In(pool.Mem()) && other.In(pool.Mem())
      ensures Contents() == Union(old(Contents()), old(other.Contents()), cmp) && other.Contents() == []
    {
      hide Keeps, Holds, Flat, Edited, Bag, Union, Apart, Pool.Mem, Pool.Valid;
      UnionEmpty(Contents(), other.Contents(), cmp);
      LengthExact(pool.Mem());
      other.LengthExact(pool.Mem());
      BothSame(pool.Mem(), other);
      if other.length == 0 { return; }
      if length == 0 {
        Swap(other, pool.Mem());
      } else {
        Merge(other, cmp, pool);
      }
    }

    method Swap(other: BTreeMap, ghost m: Mem)
      requires In(m) && other.In(m) && Parts() !! other.Parts()
      modifies this, other
      ensures In(m) && other.In(m) && Contents() == old(other.Contents()) && other.Contents() == old(Contents())
      ensures Owned() == old(other.Owned()) && other.Owned() == old(Owned())
      ensures Parts() !! other.Parts() && Parts() + other.Parts() == old(Parts() + other.Parts())
    {
      hide Keeps, Flat, Bag;
      root, other.root := other.root, root;
      length, other.length := other.length, length;
      tree, other.tree := other.tree, tree;
    }

    /** Takes both maps apart and builds one of their merged pairs. */
    method Merge(other: BTreeMap, cmp: Order, pool: Pool)
      requires pool.Valid() && In(pool.Mem()) && other.In(pool.Mem()) && root.Some? && other.root.Some?
      requires Parts() !! other.Parts() && Apart(Owned(), other.Owned())
      modifies this, other, pool, pool.nodes, pool.kvBuffers, pool.edgeBuffers
      ensures pool.Valid() && fresh(pool.Repr() - old(pool.Repr())) && root.Some? && fresh(root.value)
      ensures other.root.None?
      ensures Edited(old(pool.Mem()), pool.Mem(), old(Owned()) + old(other.Owned()), Owned() + other.Owned())
      ensures Apart(Owned(), other.Owned()) && In(pool.Mem()) && other.In(pool.Mem())
      ensures Contents() == Union(old(Contents()), old(other.Contents()), cmp) && other.Contents() == []
    {
      hide Keeps, Holds, Flat, Edited, Bag, Union, Apart, Pool.Mem, Pool.Valid;
      var newRoot, newLength; ghost var t;
      newRoot, newLength, t := MergeRoots(root.value, length, other.root.value, other.length, cmp, pool, tree.value,
                                          other.tree.value);
      other.Reset(pool.Mem());
      SetRoot(newRoot, newLength, pool.Mem(), t);
      NothingElse(Owned(), other.Owned());
    }

    method Reset(ghost m: Mem)
      modifies this
      ensures root.None? && tree.None? && length == 0 && In(m)
    {
      root, length, tree := None, 0, None;
    }

    lemma BothSame(m: Mem, other: BTreeMap)
      requires In(m) && other.In(m) && Apart(Owned(), other.Owned())
      ensures Edited(m, m, Owned() + other.Owned(), Owned() + other.Owned())
      ensures Edited(m, m, Owned() + other.Owned(), other.Owned() + Owned()) && Apart(other.Owned(), Owned())
    {
      OwnedSame(m);
      other.OwnedSame(m);
    }

    /** Takes the map apart into an iterator over its pairs. */
    method IntoIter(pool: Pool) returns (iter: IntoIter)
      requires pool.Valid() && In(pool.Mem())
      modifies this
      ensures fresh(iter) && iter.In(pool.Mem()) && iter.Rest(pool.Mem()) == old(Contents())
      ensures iter.Owned() == old(Owned())
      ensures In(pool.Mem()) && Contents() == [] && Owned() == multiset{} && Parts() == {this}
    {
      hide Holds, Walking, Flat, Bag, Balanced, Pool.Mem, Pool.Valid;
      if root.Some? {
        iter := new IntoIter(root.value.node, length, pool.Mem(), tree.value);
      } else {
        iter := new IntoIter.Empty(pool.Mem());
      }
      Reset(pool.Mem());
    }

    /** Dropping the pairs of a map releases all its nodes. */
    method Clear(pool: Pool)
      requires pool.Valid() && In(pool.Mem())
      modifies this, pool
      ensures pool.Valid() && pool.Repr() <= old(pool.Repr()) && Shrunk(old(pool.Mem()), pool.Mem(), old(Owned()))
      ensures In(pool.Mem()) && Contents() == [] && Owned() == multiset{} && Parts() == {this}
      ensures forall n :: n in old(Owned()) ==> n !in pool.Mem()
    {
      hide Keeps, Shrunk, Walking, Pool.Mem, Pool.Valid;
      var iter := IntoIter(pool);
      iter.Drop(pool);
    }
  }

  lemma SearchDepth(t: Tree, h: nat, q: Path, r: SearchResult)
    requires Balanced(t, h) && ValidPath(t, q)
    ensures |q| <= h
  {
    FullSub(t, h, if h == 0 then 0 else 1, q);
  }

  method ReadPair(kv: Handle, pool: Pool, ghost t: Tree, ghost q: Path) returns (x: KV)
    requires pool.Valid() && Holds(pool.Mem(), t) && Kv(t, q, kv)
    ensures Index(t, q, kv) < |Flat(t)| && x == Flat(t)[Index(t, q, kv)]
  {
    hide Holds, Pool.Mem, Pool.Valid;
    PairAfterEdge(t, q, kv.idx);
    x := KvAt(kv.node, kv.idx, pool, t, q);
  }

  lemma BecomesEdited(m: Mem, m': Mem, t: Tree, t': Tree)
    requires Becomes(m, m', t, t')
    ensures Edited(m, m', Bag(t), Bag(t'))
  {
  }

  /** A new tree of one leaf with one pair. */
  method FirstLeaf(kv: KV, pool: Pool) returns (root: Root, ghost t: Tree)
    requires pool.Valid()
    modifies pool, pool.nodes, pool.kvBuffers, pool.edgeBuffers
    ensures pool.Valid() && fresh(root) && fresh(pool.Repr() - old(pool.Repr()))
    ensures Keeps(pool.Mem(), root.node, root.height, 1, t) && Flat(t) == [kv]
    ensures InLeaf(t, [], Handle(root.node, 0), 0)
    ensures Edited(old(pool.Mem()), pool.Mem(), multiset{}, Bag(t))
  {
    hide Holds, Edited, Pool.Mem, Pool.Valid;
    ghost var m := pool.Mem();
    root := new Root(pool);
    ghost var m1, t0 := pool.Mem(), Tree(root.node, [], []);
    t := PushFirst(root.node, kv, pool, t0);
    EditedTrans(m, m1, pool.Mem(), multiset{}, Bag(t0), Bag(t));
  }

  method PushFirst(leaf: Node, kv: KV, pool: Pool, ghost t0: Tree) returns (ghost t: Tree)
    requires pool.Valid() && Holds(pool.Mem(), t0) && t0 == Tree(leaf, [], [])
    modifies pool.nodes, pool.kvBuffers, pool.edgeBuffers
    ensures pool.Valid() && Becomes(old(pool.Mem()), pool.Mem(), t0, t)
    ensures t == Tree(leaf, [kv], []) && Balanced(t, 0) && Flat(t) == [kv] && Holds(pool.Mem(), t)
  {
    hide Holds, Pool.Mem, Pool.Valid;
    AtRoot(t0);
    t := InsertInLeaf(leaf, 0, kv, pool, t0, []);
    assert t == Tree(leaf, [kv], []);
  }

  lemma UnionEmpty(f: seq<KV>, g: seq<KV>, cmp: Order)
    ensures g == [] ==> Union(f, g, cmp) == f
    ensures f == [] ==> Union(f, g, cmp) == g
  {
  }

  lemma NothingElse(a: multiset<Node>, b: multiset<Node>)
    requires b == multiset{}
    ensures a + b == a && Apart(a, b)
  {
  }

  // ----- First and last pairs

  method FirstEntry(root: Root, length: nat, pool: Pool, ghost t: Tree) returns (e: Option<Handle>, ghost q: Path)
    requires pool.Valid() && Keeps(pool.Mem(), root.node, root.height, length, t)
    ensures e.None? <==> Flat(t) == []
    ensures e.Some? ==> Kv(t, q, e.value) && Index(t, q, e.value) == 0
  {
    hide Holds, Balanced, Flat, SubAt, ValidPath, Before, Pool.Mem, Pool.Valid;
    AtRoot(t);
    var edge;
    edge, q := FirstLeafEdge(root.node, pool, t, []);
    var len := Len(edge.node, pool, t, q);
    FirstPair(t, root.height, q, edge);
    e := if len > 0 then Some(edge) else None;
  }

  lemma FirstPair(t: Tree, h: nat, q: Path, e: Handle)
    requires Balanced(t, h) && LeafEdge(t, q, e) && e.idx == 0 && Gap(t, q, e) == 0
    ensures |SubAt(t, q).kvs| == 0 <==> Flat(t) == []
    ensures Kv(t, q, e) ==> Index(t, q, e) == 0
  {
    FullSub(t, h, if h == 0 then 0 else 1, q);
    FlatAt(t, q);
  }

  method LastEntry(root: Root, length: nat, pool: Pool, ghost t: Tree) returns (e: Option<Handle>, ghost q: Path)
    requires pool.Valid() && Keeps(pool.Mem(), root.node, root.height, length, t)
    ensures e.None? <==> Flat(t) == []
    ensures e.Some? ==> Kv(t, q, e.value) && Index(t, q, e.value) + 1 == |Flat(t)|
  {
    hide Holds, Balanced, Flat, SubAt, ValidPath, Before, Pool.Mem, Pool.Valid;
    AtRoot(t);
    var edge;
    edge, q := LastLeafEdge(root.node, pool, t, []);
    assert [] + q == q;
    LastPair(t, root.height, q, edge);
    e := if edge.idx > 0 then Some(Handle(edge.node, edge.idx - 1)) else None;
  }

  lemma LastPair(t: Tree, h: nat, q: Path, e: Handle)
    requires Balanced(t, h) && LeafEdge(t, q, e) && e.idx == |SubAt(t, q).kvs| && Gap(t, q, e) == |Flat(t)|
    ensures e.idx == 0 <==> Flat(t) == []
    ensures e.idx > 0 ==> var x := Handle(e.node, e.idx - 1); Kv(t, q, x) && Index(t, q, x) + 1 == |Flat(t)|
  {
    FullSub(t, h, if h == 0 then 0 else 1, q);
    FlatAt(t, q);
  }

  // ----- Splitting and merging maps

  method SplitRoots(root: Root, length: nat, comp: Comparator, pool: Pool, ghost t0: Tree)
    returns (right: Root, lengthA: nat, lengthB: nat, ghost t: Tree, ghost u: Tree)
    requires pool.Valid() && Keeps(pool.Mem(), root.node, root.height, length, t0) && Monotone(Flat(t0), comp)
    modifies root, pool, pool.nodes, pool.kvBuffers, pool.edgeBuffers
    ensures pool.Valid() && fresh(pool.Repr() - old(pool.Repr())) && fresh(right)
    ensures Keeps(pool.Mem(), root.node, root.height, lengthA, t)
    ensures Keeps(pool.Mem(), right.node, right.height, lengthB, u)
    ensures Edited(old(pool.Mem()), pool.Mem(), Bag(t0), Bag(t) + Bag(u)) && Once(Bag(t) + Bag(u))
    ensures Flat(t) == Flat(t0)[..Cut(Flat(t0), comp)] && Flat(u) == Flat(t0)[Cut(Flat(t0), comp)..]
  {
    hide Holds, Balanced, Flat, Monotone, Edited, Once, Bag, Cut, Pool.Mem, Pool.Valid;
    ghost var m := pool.Mem();
    right, t, u := SplitOff.SplitOff(root, comp, pool, t0);
    DividesHolds(m, pool.Mem(), t0, t, u);
    lengthA, lengthB := Lengths.CalcSplitLength(length, root, right, pool, t, u);
  }

  method MergeRoots(a: Root, lengthA: nat, b: Root, lengthB: nat, cmp: Order, pool: Pool, ghost t: Tree, ghost u: Tree)
    returns (root: Root, length: nat, ghost w: Tree)
    requires pool.Valid() && Keeps(pool.Mem(), a.node, a.height, lengthA, t)
    requires Keeps(pool.Mem(), b.node, b.height, lengthB, u)
    requires Apart(Bag(t), Bag(u))
    modifies pool, pool.nodes, pool.kvBuffers, pool.edgeBuffers
    ensures pool.Valid() && fresh(pool.Repr() - old(pool.Repr())) && fresh(root)
    ensures Keeps(pool.Mem(), root.node, root.height, length, w) && Flat(w) == Union(Flat(t), Flat(u), cmp)
    ensures Edited(old(pool.Mem()), pool.Mem(), Bag(t) + Bag(u), Bag(w))
  {
    hide Holds, Balanced, Flat, Edited, Bag, Walking, Union, Apart, Keeps, Created, Pool.Mem, Pool.Valid;
    hide MergeIter.In, MergeIter.Owned, MergeIter.RestOfA, MergeIter.RestOfB;
    ghost var m := pool.Mem();
    KeepsHeld(m, a.node, a.height, lengthA, t);
    KeepsHeld(m, b.node, b.height, lengthB, u);
    var iter := MergeSources(a.node, lengthA, b.node, lengthB, m, t, u);
    root, length, w := FillNewRoot(iter, cmp, pool, m, t, u);
  }

  method FillNewRoot(iter: MergeIter, cmp: Order, pool: Pool, ghost m: Mem, ghost t: Tree, ghost u: Tree)
    returns (root: Root, length: nat, ghost w: Tree)
    requires pool.Valid() && m == pool.Mem() && iter.In(m) && iter.Owned() == Bag(t) + Bag(u) && Holds(m, t)
    requires Holds(m, u)
    requires iter.RestOfA(m) == Flat(t) && iter.RestOfB(m) == Flat(u)
    modifies iter, iter.a, iter.b, pool, pool.nodes, pool.kvBuffers, pool.edgeBuffers
    ensures pool.Valid() && fresh(pool.Repr() - old(pool.Repr())) && fresh(root)
    ensures Keeps(pool.Mem(), root.node, root.height, length, w) && Flat(w) == Union(Flat(t), Flat(u), cmp)
    ensures Edited(m, pool.Mem(), Bag(t) + Bag(u), Bag(w))
  {
    hide Holds, Balanced, Flat, Edited, Bag, Walking, Union, Keeps, Created, Pool.Mem, Pool.Valid;
    hide MergeIter.In, MergeIter.Owned, MergeIter.RestOfA, MergeIter.RestOfB;
    root := new Root(pool);
    length, w := FillRoot(root, iter, cmp, pool, m, t, u);
  }

  method MergeSources(a: Node, lengthA: nat, b: Node, lengthB: nat, ghost m: Mem, ghost t: Tree, ghost u: Tree)
    returns (iter: MergeIter)
    requires Holds(m, t) && Holds(m, u) && t.node == a && u.node == b && lengthA == |Flat(t)| && lengthB == |Flat(u)|
    requires Apart(Bag(t), Bag(u))
    ensures fresh(iter) && fresh(iter.a) && fresh(iter.b) && iter.In(m) && iter.Owned() == Bag(t) + Bag(u)
    ensures iter.RestOfA(m) == Flat(t) && iter.RestOfB(m) == Flat(u)
  {
    hide Holds, Flat, Bag, Walking, Pool.Mem, Pool.Valid;
    var x := new IntoIter(a, lengthA, m, t);
    var y := new IntoIter(b, lengthB, m, u);
    iter := new MergeIter(x, y);
  }

  method FillRoot(root: Root, iter: MergeIter, cmp: Order, pool: Pool, ghost m0: Mem, ghost t: Tree, ghost u: Tree)
    returns (length: nat, ghost w: Tree)
    requires pool.Valid() && iter.In(m0) && iter.Owned() == Bag(t) + Bag(u) && Holds(m0, t) && Holds(m0, u)
    requires iter.RestOfA(m0) == Flat(t) && iter.RestOfB(m0) == Flat(u)
    requires root.height == 0 && Created(m0, pool.Mem(), Tree(root.node, [], []))
    modifies root, iter, iter.a, iter.b, pool, pool.nodes, pool.kvBuffers, pool.edgeBuffers
    ensures pool.Valid() && fresh(pool.Repr() - old(pool.Repr()))
    ensures Keeps(pool.Mem(), root.node, root.height, length, w) && Flat(w) == Union(Flat(t), Flat(u), cmp)
    ensures Edited(m0, pool.Mem(), Bag(t) + Bag(u), Bag(w))
  {
    hide Holds, Flat, Bag, Walking, Balanced, Edited, Union, Apart, Pool.Mem, Pool.Valid;
    ghost var m1, t0, o := pool.Mem(), Tree(root.node, [], []), iter.Owned();
    EmptyLeaf(t0);
    NewBeside(m0, m1, t0, t, u);
    Append.MergeSpared(iter, m0, m1);
    length, w := Append.AppendFromSortedIters(root, iter, cmp, 0, pool, t0, CAPACITY);
    EditedTrans(m0, m1, pool.Mem(), o, Bag(t0) + o, Bag(w));
  }

  lemma EmptyLeaf(t: Tree)
    requires t.kvs == [] && t.kids == []
    ensures BulkPush.Pushable(t, 0, CAPACITY) && Flat(t) == [] && forall f: seq<KV> :: Flat(t) + f == f
  {
  }

  /** A new tree beside two others. */
  lemma NewBeside(m: Mem, m': Mem, n: Tree, t: Tree, u: Tree)
    requires Holds(m, t) && Holds(m, u) && Created(m, m', n)
    ensures Holds(m', n) && Apart(Bag(n), Bag(t) + Bag(u)) && Edited(m, m', Bag(t) + Bag(u), Bag(n) + (Bag(t) + Bag(u)))
    ensures forall x :: x in Bag(t) + Bag(u) ==> (x in m <==> x in m') && (x in m ==> m'[x] == m[x])
  {
    hide Bag, Rep;
    assert forall x :: x in Bag(t) + Bag(u) ==> x in m by { RepIn(m, t); RepIn(m, u); }
    EditedBeside(m, m', multiset{}, Bag(n), Bag(t) + Bag(u));
    assert multiset{} + (Bag(t) + Bag(u)) == Bag(t) + Bag(u);
  }
}
