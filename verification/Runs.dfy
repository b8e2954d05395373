/** Any run of operations on any number of maps in one memory refines the same run on sorted association lists. */
module Runs {
  import opened Nodes
  import opened Options
  import opened Trees
  import opened Memory
  import opened Search
  import opened MergeIters
  import opened Roots
  import opened Maps
  import opened Orders
  import Dying
  import D = Drains

  // ----- Operations and what they mean

  /** What one map is asked to do. */
  datatype Edit<!S> =
    | Insert(key: Key, val: Val)
    | Remove(key: Key)
    | Get(key: Key)
    | PopFirst
    | PopLast
    | Retain(pred: (S, Key, Val) -> D.Verdict<S>, state: S)
    | Clear

  datatype Answer = Nothing | Value(val: Option<Val>) | Pair(kv: Option<KV>)

  function ValOf(x: Option<KV>): Option<Val> { if x.Some? then Some(x.value.val) else None }

  ghost function Popped(f: seq<KV>, first: bool): (seq<KV>, Answer) {
    if f == [] then (f, Pair(None))
    else if first then (f[1..], Pair(Some(f[0])))
    else (f[..|f| - 1], Pair(Some(f[|f| - 1])))
  }

  ghost function Outcome<S>(f: seq<KV>, e: Edit<S>, lt: Precedence): (seq<KV>, Answer) {
    match e
    case Insert(key, val) => (Assign(f, lt, key, val), Value(ValOf(Find(f, lt, key))))
    case Remove(key) => (Without(f, lt, key), Value(ValOf(Find(f, lt, key))))
    case Get(key) => (f, Value(ValOf(Find(f, lt, key))))
    case PopFirst => Popped(f, true)
    case PopLast => Popped(f, false)
    case Retain(pred, state) => (D.Gone(f, pred, state), Nothing)
    case Clear => ([], Nothing)
  }

  lemma {:induction false} SortedGone<S>(f: seq<KV>, pred: (S, Key, Val) -> D.Verdict<S>, s: S, lt: Precedence)
    requires Sorted(f, lt)
    ensures Sorted(D.Gone(f, pred, s), lt)
    ensures forall x :: x in D.Gone(f, pred, s) ==> exists i :: 0 <= i < |f| && f[i].key == x.key
  {
    if f != [] {
      var s' := pred(s, f[0].key, f[0].val).state;
      SortedGone(f[1..], pred, s', lt);
      forall x | x in D.Gone(f[1..], pred, s') ensures exists i :: 0 < i < |f| && f[i].key == x.key {
        var i :| 0 <= i < |f[1..]| && f[1..][i].key == x.key;
        assert f[i + 1].key == x.key;
      }
    }
  }

  lemma SortedEdit<S>(f: seq<KV>, e: Edit<S>, lt: Precedence)
    requires StrictWeak(lt) && Sorted(f, lt)
    ensures Sorted(Outcome(f, e, lt).0, lt)
  {
    match e
    case Insert(key, val) => SortedAssign(f, lt, key, val);
    case Remove(key) => SortedSides(f, lt, key); SortedJoin(Below(f, lt, key), Above(f, lt, key), lt, key);
    case Retain(pred, state) => SortedGone(f, pred, state, lt);
    case _ =>
  }

  // ----- What the edits of one list mean, by look-ups and membership alone

  /** Inserting stores the value, under the key that was stored before if there was one, and answers the old value.
      All other keys are found as before. */
  lemma InsertMeans<S>(f: seq<KV>, lt: Precedence, key: Key, val: Val, k: Key)
    requires StrictWeak(lt) && Sorted(f, lt)
    ensures var (g, answer) := Outcome(f, Edit<S>.Insert(key, val), lt);
      && Sorted(g, lt)
      && answer == (if Find(f, lt, key).Some? then Value(Some(Find(f, lt, key).value.val)) else Value(None))
      && Find(g, lt, k) ==
         if !Equivalent(lt, k, key) then Find(f, lt, k)
         else Some(KV(if Find(f, lt, key).Some? then Find(f, lt, key).value.key else key, val))
  {
    hide Sorted, Find, Assign;
    AssignFinds(f, lt, key, val, k);
  }

  /** After removing a key, it is not found; all other keys are found as before. Answers the value that was removed. */
  lemma RemoveMeans<S>(f: seq<KV>, lt: Precedence, key: Key, k: Key)
    requires StrictWeak(lt) && Sorted(f, lt)
    ensures var (g, answer) := Outcome(f, Edit<S>.Remove(key), lt);
      && Sorted(g, lt)
      && answer == (if Find(f, lt, key).Some? then Value(Some(Find(f, lt, key).value.val)) else Value(None))
      && Find(g, lt, k) == if Equivalent(lt, k, key) then None else Find(f, lt, k)
  {
    hide Sorted, Find, Without;
    WithoutFinds(f, lt, key, k);
  }

  /** Getting changes nothing, and clearing leaves nothing. */
  lemma GetClearMean<S>(f: seq<KV>, lt: Precedence, key: Key)
    ensures var (g, answer) := Outcome(f, Edit<S>.Get(key), lt);
      && g == f
      && answer == if Find(f, lt, key).Some? then Value(Some(Find(f, lt, key).value.val)) else Value(None)
    ensures Outcome(f, Edit<S>.Clear, lt) == ([], Nothing)
  {
  }

  /** Popping takes out and answers the pair with the least, or the greatest, key, if there is any. */
  lemma PopMeans<S>(f: seq<KV>, lt: Precedence, first: bool)
    requires StrictWeak(lt) && Sorted(f, lt)
    ensures var (g, answer) := Outcome(f, if first then Edit<S>.PopFirst else Edit<S>.PopLast, lt);
      match answer
      case Pair(None) => f == [] && g == []
      case Pair(Some(x)) =>
        && Sorted(g, lt) && x !in g && (forall y :: y in f <==> y == x || y in g)
        && forall y :: y in g ==> if first then lt(x.key, y.key) else lt(y.key, x.key)
      case _ => false
  {
    if f != [] {
      var n := |f| - 1;
      assert f == [f[0]] + f[1..] && f == f[..n] + [f[n]];
      forall y | y in f[1..] ensures lt(f[0].key, y.key) {}
      forall y | y in f[..n] ensures lt(y.key, f[n].key) {}
    }
  }

  /** Retaining keeps a key exactly if the predicate accepts its pair in the state that the pairs before left it in,
      with the value it gives then. */
  lemma RetainMeans<S>(f: seq<KV>, lt: Precedence, pred: (S, Key, Val) -> D.Verdict<S>, s: S, i: nat)
    requires StrictWeak(lt) && Sorted(f, lt) && i < |f|
    ensures var (g, answer) := Outcome(f, Retain(pred, s), lt);
      var v := pred(D.StateAfter(f[..i], pred, s), f[i].key, f[i].val);
      && Sorted(g, lt) && answer == Nothing && (forall x :: x in g ==> exists y :: y in f && y.key == x.key)
      && Find(g, lt, f[i].key) == if v.accepts then Some(KV(f[i].key, v.val)) else None
  {
    hide Find;
    var g, key := D.Gone(f, pred, s), f[i].key;
    var v := pred(D.StateAfter(f[..i], pred, s), key, f[i].val);
    SortedGone(f, pred, s, lt);
    forall x ensures x in g && Equivalent(lt, x.key, key) <==> v.accepts && x == KV(key, v.val) {
      D.GoneHas(f, pred, s, x);
      if j :| 0 <= j < |f| && D.AcceptedAs(pred(D.StateAfter(f[..j], pred, s), f[j].key, f[j].val), f[j].key, x) {
        assert j < i ==> lt(f[j].key, key);
        assert j > i ==> lt(key, f[j].key);
      }
    }
    FindHas(g, lt, key, KV(key, v.val));
    if Find(g, lt, key).Some? { FindHas(g, lt, key, Find(g, lt, key).value); }
  }

  method DoInsert(x: BTreeMap, key: Key, val: Val, lt: Precedence, pool: Pool) returns (answer: Answer)
    requires pool.Valid() && x.In(pool.Mem()) && StrictWeak(lt) && Sorted(x.Contents(), lt)
    modifies x.Parts(), pool, pool.nodes, pool.kvBuffers, pool.edgeBuffers
    ensures pool.Valid() && fresh(pool.Repr() - old(pool.Repr())) && fresh(x.Parts() - old(x.Parts()))
    ensures x.In(pool.Mem()) && Edited(old(pool.Mem()), pool.Mem(), old(x.Owned()), x.Owned())
    ensures x.Contents() == Assign(old(x.Contents()), lt, key, val)
    ensures answer == Value(ValOf(Find(old(x.Contents()), lt, key)))
  {
    hide Edited, StrictWeak, Sorted, Assign, Without, Find, Monotone, Inserted, Removed, Sought, Dying.Shrunk, Pool.Mem,
         Pool.Valid;
    hide BTreeMap.In, BTreeMap.Owned, BTreeMap.Contents;
    InsertedAssigns(x.Contents(), lt, key, val);
    var v := x.Insert(key, val, Double(lt), pool);
    answer := Value(v);
  }

  method DoRemove(x: BTreeMap, key: Key, lt: Precedence, pool: Pool) returns (answer: Answer)
    requires pool.Valid() && x.In(pool.Mem()) && StrictWeak(lt) && Sorted(x.Contents(), lt)
    modifies x.Parts(), pool, pool.nodes, pool.kvBuffers, pool.edgeBuffers
    ensures pool.Valid() && fresh(pool.Repr() - old(pool.Repr())) && fresh(x.Parts() - old(x.Parts()))
    ensures x.In(pool.Mem()) && Edited(old(pool.Mem()), pool.Mem(), old(x.Owned()), x.Owned())
    ensures x.Contents() == Without(old(x.Contents()), lt, key)
    ensures answer == Value(ValOf(Find(old(x.Contents()), lt, key)))
  {
    hide Edited, StrictWeak, Sorted, Assign, Without, Find, Monotone, Inserted, Removed, Sought, Dying.Shrunk, Pool.Mem,
         Pool.Valid;
    hide BTreeMap.In, BTreeMap.Owned, BTreeMap.Contents;
    RemovedIsWithout(x.Contents(), lt, key);
    var kv := x.RemoveEntry(For(lt, key), pool);
    answer := Value(ValOf(kv));
  }

  method DoGet(x: BTreeMap, key: Key, lt: Precedence, pool: Pool) returns (answer: Answer)
    requires pool.Valid() && x.In(pool.Mem()) && StrictWeak(lt) && Sorted(x.Contents(), lt)
    ensures answer == Value(ValOf(Find(x.Contents(), lt, key)))
  {
    hide Edited, StrictWeak, Sorted, Assign, Without, Find, Monotone, Inserted, Removed, Sought, Dying.Shrunk, Pool.Mem,
         Pool.Valid;
    hide BTreeMap.In, BTreeMap.Owned, BTreeMap.Contents;
    RemovedIsWithout(x.Contents(), lt, key);
    var v; ghost var calls;
    v, calls := x.Get(For(lt, key), pool);
    answer := Value(v);
  }

  method DoPop(x: BTreeMap, first: bool, pool: Pool) returns (answer: Answer)
    requires pool.Valid() && x.In(pool.Mem())
    modifies x.Parts(), pool, pool.nodes, pool.kvBuffers, pool.edgeBuffers
    ensures pool.Valid() && pool.Repr() <= old(pool.Repr()) && x.root == old(x.root)
    ensures x.In(pool.Mem()) && Edited(old(pool.Mem()), pool.Mem(), old(x.Owned()), x.Owned())
    ensures (x.Contents(), answer) == Popped(old(x.Contents()), first)
  {
    hide Edited, StrictWeak, Sorted, Assign, Without, Find, Monotone, Inserted, Removed, Sought, Dying.Shrunk, Pool.Mem,
         Pool.Valid;
    hide BTreeMap.In, BTreeMap.Owned, BTreeMap.Contents;
    var kv;
    if first { kv := x.PopFirst(pool); } else { kv := x.PopLast(pool); }
    answer := Pair(kv);
  }

  method DoRetain<S(!new)>(x: BTreeMap, pred: (S, Key, Val) -> D.Verdict<S>, s: S, pool: Pool)
    requires pool.Valid() && x.In(pool.Mem())
    modifies x.Parts(), pool, pool.nodes, pool.kvBuffers, pool.edgeBuffers
    ensures pool.Valid() && pool.Repr() <= old(pool.Repr()) && x.root == old(x.root)
    ensures x.In(pool.Mem()) && Edited(old(pool.Mem()), pool.Mem(), old(x.Owned()), x.Owned())
    ensures x.Contents() == D.Gone(old(x.Contents()), pred, s)
  {
    hide Edited, StrictWeak, Sorted, Assign, Without, Find, Monotone, Inserted, Removed, Sought, Dying.Shrunk, Pool.Mem,
         Pool.Valid;
    hide BTreeMap.In, BTreeMap.Owned, BTreeMap.Contents;
    var s'; ghost var shown;
    s', shown := D.Retain(x, pred, s, pool);
  }

  method DoClear(x: BTreeMap, pool: Pool)
    requires pool.Valid() && x.In(pool.Mem())
    modifies x, pool
    ensures pool.Valid() && pool.Repr() <= old(pool.Repr()) && x.Parts() == {x}
    ensures x.In(pool.Mem()) && Edited(old(pool.Mem()), pool.Mem(), old(x.Owned()), x.Owned()) && x.Contents() == []
  {
    hide Edited, StrictWeak, Sorted, Assign, Without, Find, Monotone, Inserted, Removed, Sought, Dying.Shrunk, Pool.Mem,
         Pool.Valid;
    hide BTreeMap.In, BTreeMap.Owned, BTreeMap.Contents;
    ghost var m, o := pool.Mem(), x.Owned();
    x.Clear(pool);
    ClearedEdits(m, pool.Mem(), o);
  }

  /** One map does what it is asked. */
  method Do<S(!new)>(x: BTreeMap, e: Edit<S>, lt: Precedence, pool: Pool) returns (answer: Answer)
    requires pool.Valid() && x.In(pool.Mem()) && StrictWeak(lt) && Sorted(x.Contents(), lt)
    modifies x.Parts(), pool, pool.nodes, pool.kvBuffers, pool.edgeBuffers
    ensures pool.Valid() && fresh(pool.Repr() - old(pool.Repr())) && fresh(x.Parts() - old(x.Parts()))
    ensures x.In(pool.Mem()) && Edited(old(pool.Mem()), pool.Mem(), old(x.Owned()), x.Owned())
    ensures (x.Contents(), answer) == Outcome(old(x.Contents()), e, lt)
  {
    hide Edited, StrictWeak, Sorted, Assign, Without, Find, Popped, Pool.Mem, Pool.Valid;
    hide BTreeMap.In, BTreeMap.Owned, BTreeMap.Contents, D.Gone;
    answer := Nothing;
    match e {
      case Insert(key, val) => answer := DoInsert(x, key, val, lt, pool);
      case Remove(key) => answer := DoRemove(x, key, lt, pool);
      case Get(key) =>
        x.OwnedSame(pool.Mem());
        answer := DoGet(x, key, lt, pool);
      case PopFirst => answer := DoPop(x, true, pool);
      case PopLast => answer := DoPop(x, false, pool);
      case Retain(pred, state) => DoRetain(x, pred, state, pool);
      case Clear => DoClear(x, pool);
    }
  }

  lemma ClearedEdits(m: Mem, m': Mem, o: multiset<Node>)
    requires Dying.Shrunk(m, m', o) && forall n :: n in o ==> n !in m'
    ensures Edited(m, m', o, multiset{})
  {
  }

  // ----- Many maps in one memory

  type Name(0, ==, !new)

  ghost function Objects(maps: map<Name, BTreeMap>): set<object>
    reads maps.Values
  {
    set i, o | i in maps && o in maps[i].Parts() :: o
  }

  /** The maps hold the lists; with `o`, they own all nodes of the memory, and no node has two owners. */
  ghost predicate World(maps: map<Name, BTreeMap>, lists: map<Name, seq<KV>>, o: multiset<Node>, m: Mem)
    reads maps.Values, Objects(maps)
  {
    && maps.Keys == lists.Keys
    && (forall i :: i in maps ==> maps[i].In(m) && maps[i].Contents() == lists[i] && Apart(maps[i].Owned(), o))
    && (forall i, j :: i in maps && j in maps && i != j ==>
          maps[i].Parts() !! maps[j].Parts() && Apart(maps[i].Owned(), maps[j].Owned()))
    && (forall n :: n in m ==> n in o || exists i :: i in maps && n in maps[i].Owned())
  }

  /** Maps and their roots are not parts of the memory's own objects. */
  lemma ObjectsElsewhere(maps: map<Name, BTreeMap>, pool: Pool)
    ensures Objects(maps) !! pool.Repr() && maps.Values <= Objects(maps)
    ensures forall o :: o in Objects(maps) ==> allocated(o)
  {
    forall o | o in Objects(maps) ensures o is BTreeMap || o is Root {}
    forall o: object | o in pool.Repr() ensures !(o is BTreeMap) && !(o is Root) {}
    forall x | x in maps.Values ensures x in Objects(maps) {
      var i :| i in maps && maps[i] == x;
      assert x in maps[i].Parts();
    }
  }

  lemma ObjectsLess(maps: map<Name, BTreeMap>, i: Name)
    requires i in maps
    ensures Objects(maps) == Objects(maps - {i}) + maps[i].Parts()
  {
    hide BTreeMap.Parts;
    ghost var rest := maps - {i};
    forall o | o in Objects(maps) ensures o in Objects(rest) + maps[i].Parts() {
      var j :| j in maps && o in maps[j].Parts();
      if j != i { assert j in rest && rest[j] == maps[j]; }
    }
    forall o | o in Objects(rest) ensures o in Objects(maps) {
      var j :| j in rest && o in rest[j].Parts();
      assert j in maps && rest[j] == maps[j];
    }
    forall o | o in maps[i].Parts() ensures o in Objects(maps) {}
  }

  lemma ObjectsMore(maps: map<Name, BTreeMap>, i: Name, x: BTreeMap)
    requires i !in maps
    ensures Objects(maps[i := x]) == Objects(maps) + x.Parts()
  {
    assert maps[i := x] - {i} == maps;
    ObjectsLess(maps[i := x], i);
  }

  /** Sets one map aside. */
  lemma Aside(maps: map<Name, BTreeMap>, lists: map<Name, seq<KV>>, o: multiset<Node>, m: Mem, i: Name)
    requires World(maps, lists, o, m) && i in maps
    ensures World(maps - {i}, lists - {i}, o + maps[i].Owned(), m)
    ensures Objects(maps - {i}) !! maps[i].Parts() && Objects(maps) == Objects(maps - {i}) + maps[i].Parts()
    ensures maps[i].In(m) && maps[i].Contents() == lists[i] && Apart(maps[i].Owned(), o)
  {
    hide BTreeMap.Parts, BTreeMap.In, BTreeMap.Contents, BTreeMap.Owned;
    ObjectsLess(maps, i);
    ghost var rest := maps - {i};
    forall n | n in m ensures n in o + maps[i].Owned() || exists j :: j in rest && n in rest[j].Owned() {
      if n !in o {
        var j :| j in maps && n in maps[j].Owned();
        if j != i { assert j in rest && rest[j] == maps[j]; }
      }
    }
  }

  /** Takes one map back. */
  lemma Back(maps: map<Name, BTreeMap>, lists: map<Name, seq<KV>>, o: multiset<Node>, m: Mem, i: Name, x: BTreeMap,
             f: seq<KV>)
    requires i !in maps && World(maps, lists, o + x.Owned(), m)
    requires x.In(m) && x.Contents() == f && Apart(x.Owned(), o) && Objects(maps) !! x.Parts()
    ensures World(maps[i := x], lists[i := f], o, m) && Objects(maps[i := x]) == Objects(maps) + x.Parts()
  {
    hide BTreeMap.Parts, BTreeMap.In, BTreeMap.Contents, BTreeMap.Owned;
    ObjectsMore(maps, i, x);
    ghost var all := maps[i := x];
    forall n | n in m ensures n in o || exists j :: j in all && n in all[j].Owned() {
      if n in x.Owned() {
        assert all[i] == x;
      } else if n !in o {
        var j :| j in maps && n in maps[j].Owned();
        assert j in all && all[j] == maps[j];
      }
    }
  }

  /** What happens to nodes set aside does not touch the maps. */
  lemma Framed(maps: map<Name, BTreeMap>, lists: map<Name, seq<KV>>, o: multiset<Node>, o': multiset<Node>, m: Mem,
               m': Mem)
    requires World(maps, lists, o, m) && Edited(m, m', o, o')
    ensures World(maps, lists, o', m')
  {
    hide BTreeMap.Parts, BTreeMap.In, BTreeMap.Contents, BTreeMap.Owned;
    forall i | i in maps ensures maps[i].In(m') && Apart(maps[i].Owned(), o') {
      maps[i].InElsewhere(m, m');
    }
    forall n | n in m' ensures n in o' || exists i :: i in maps && n in maps[i].Owned() {
      if n !in o' { assert n in m && n !in o; }
    }
  }

  /** One of the maps does what it is asked; the others do not notice. */
  method OnOne<S(!new)>(maps: map<Name, BTreeMap>, i: Name, e: Edit<S>, lt: Precedence, pool: Pool,
                        ghost lists: map<Name, seq<KV>>)
    returns (answer: Answer)
    requires pool.Valid() && World(maps, lists, multiset{}, pool.Mem()) && i in maps
    requires StrictWeak(lt) && i in lists && Sorted(lists[i], lt)
    modifies Objects(maps), pool, pool.nodes, pool.kvBuffers, pool.edgeBuffers
    ensures pool.Valid() && fresh(pool.Repr() - old(pool.Repr())) && fresh(Objects(maps) - old(Objects(maps)))
    ensures var (f, a) := Outcome(lists[i], e, lt); answer == a && World(maps, lists[i := f], multiset{}, pool.Mem())
  {
    hide Edited, StrictWeak, Sorted, World, Objects, Outcome, BTreeMap.Parts, BTreeMap.In, BTreeMap.Contents,
         BTreeMap.Owned, Pool.Mem, Pool.Valid;
    ghost var rest, others, m := maps - {i}, lists - {i}, pool.Mem();
    Aside(maps, lists, multiset{}, m, i);
    ObjectsElsewhere(rest, pool);
    var x := maps[i];
    ghost var o := x.Owned();
    ghost var beside := Objects(rest);
    answer := Do(x, e, lt, pool);
    assert Objects(rest) == beside && beside !! x.Parts();
    assert World(rest, others, multiset{} + o, m);
    assert multiset{} + o == o && multiset{} + x.Owned() == x.Owned();
    Framed(rest, others, o, x.Owned(), m, pool.Mem());
    Back(rest, others, multiset{}, pool.Mem(), i, x, x.Contents());
    assert rest[i := x] == maps;
    assert others[i := x.Contents()] == lists[i := x.Contents()];
  }

  /** One map takes the pairs of another. */
  method AppendTwo(maps: map<Name, BTreeMap>, i: Name, j: Name, lt: Precedence, pool: Pool,
                   ghost lists: map<Name, seq<KV>>)
    requires pool.Valid() && World(maps, lists, multiset{}, pool.Mem()) && i in maps && j in maps && i != j
    requires StrictWeak(lt) && i in lists && j in lists && Sorted(lists[i], lt) && Sorted(lists[j], lt)
    modifies Objects(maps), pool, pool.nodes, pool.kvBuffers, pool.edgeBuffers
    ensures pool.Valid() && fresh(pool.Repr() - old(pool.Repr())) && fresh(Objects(maps) - old(Objects(maps)))
    ensures World(maps, lists[i := WithAll(lists[i], lt, lists[j])][j := []], multiset{}, pool.Mem())
  {
    hide Edited, StrictWeak, Sorted, World, Objects, WithAll, Union, Apart, BTreeMap.Parts, BTreeMap.In,
         BTreeMap.Contents, BTreeMap.Owned, Pool.Mem, Pool.Valid;
    ghost var m := pool.Mem();
    var x, y := maps[i], maps[j];
    ghost var rest, others, o := BothAside(maps, lists, m, i, j);
    ObjectsElsewhere(rest, pool);
    UnionIsWithAll(lists[i], lists[j], lt);
    ghost var beside := Objects(rest);
    x.Append(y, Merging(lt), pool);
    assert Objects(rest) == beside && beside !! x.Parts() + y.Parts();
    assert World(rest, others, o, m);
    Framed(rest, others, o, x.Owned() + y.Owned(), m, pool.Mem());
    BothBack(maps, lists, pool.Mem(), i, j, rest, others);
  }

  /** Sets two maps aside. */
  lemma BothAside(maps: map<Name, BTreeMap>, lists: map<Name, seq<KV>>, m: Mem, i: Name, j: Name)
    returns (rest: map<Name, BTreeMap>, others: map<Name, seq<KV>>, o: multiset<Node>)
    requires World(maps, lists, multiset{}, m) && i in maps && j in maps && i != j
    ensures rest == maps - {i} - {j} && others == lists - {i} - {j} && o == maps[i].Owned() + maps[j].Owned()
    ensures World(rest, others, o, m) && Objects(rest) !! maps[i].Parts() + maps[j].Parts()
    ensures Objects(maps) == Objects(rest) + maps[i].Parts() + maps[j].Parts() && maps[i].Parts() !! maps[j].Parts()
    ensures maps[i].In(m) && maps[i].Contents() == lists[i] && maps[j].In(m) && maps[j].Contents() == lists[j]
    ensures Apart(maps[i].Owned(), maps[j].Owned())
  {
    hide BTreeMap.Parts, BTreeMap.In, BTreeMap.Contents, BTreeMap.Owned, Objects;
    assert maps[i].Parts() !! maps[j].Parts() && Apart(maps[i].Owned(), maps[j].Owned());
    rest, others, o := maps - {i} - {j}, lists - {i} - {j}, maps[i].Owned() + maps[j].Owned();
    AsideTwice(maps, lists, m, i, j);
  }

  lemma AsideTwice(maps: map<Name, BTreeMap>, lists: map<Name, seq<KV>>, m: Mem, i: Name, j: Name)
    requires World(maps, lists, multiset{}, m) && i in maps && j in maps && i != j
    ensures var rest := maps - {i} - {j};
      && World(rest, lists - {i} - {j}, maps[i].Owned() + maps[j].Owned(), m)
      && Objects(rest) !! maps[i].Parts() + maps[j].Parts()
      && Objects(maps) == Objects(rest) + maps[i].Parts() + maps[j].Parts()
    ensures maps[i].In(m) && maps[i].Contents() == lists[i] && maps[j].In(m) && maps[j].Contents() == lists[j]
  {
    hide World, BTreeMap.Parts, BTreeMap.In, BTreeMap.Contents, BTreeMap.Owned, Objects, Apart;
    Aside(maps, lists, multiset{}, m, i);
    ghost var rest := maps - {i};
    assert j in rest && rest[j] == maps[j] && j in lists - {i} && (lists - {i})[j] == lists[j] by {
      WorldNames(maps, lists, multiset{}, m);
    }
    Aside(rest, lists - {i}, multiset{} + maps[i].Owned(), m, j);
    assert multiset{} + maps[i].Owned() + maps[j].Owned() == maps[i].Owned() + maps[j].Owned();
  }

  lemma WorldNames(maps: map<Name, BTreeMap>, lists: map<Name, seq<KV>>, o: multiset<Node>, m: Mem)
    requires World(maps, lists, o, m)
    ensures maps.Keys == lists.Keys && forall i :: i in maps <==> i in lists
  {
    assert forall i :: i in maps <==> i in maps.Keys;
  }

  /** Takes two maps back. */
  lemma BothBack(maps: map<Name, BTreeMap>, lists: map<Name, seq<KV>>, m: Mem, i: Name, j: Name,
                 rest: map<Name, BTreeMap>, others: map<Name, seq<KV>>)
    requires i in maps && j in maps && i != j && rest == maps - {i} - {j} && others == lists - {i} - {j} && i in lists
    requires j in lists
    requires World(rest, others, maps[i].Owned() + maps[j].Owned(), m)
    requires Objects(rest) !! maps[i].Parts() + maps[j].Parts()
    requires maps[i].In(m) && maps[j].In(m) && maps[i].Parts() !! maps[j].Parts()
    requires Apart(maps[i].Owned(), maps[j].Owned())
    ensures World(maps, lists[i := maps[i].Contents()][j := maps[j].Contents()], multiset{}, m)
    ensures Objects(maps) == Objects(rest) + maps[i].Parts() + maps[j].Parts()
  {
    hide World, BTreeMap.Parts, BTreeMap.In, BTreeMap.Contents, BTreeMap.Owned, Objects;
    var (x, y) := (maps[i], maps[j]);
    assert multiset{} + x.Owned() == x.Owned();
    assert forall n :: n in y.Owned() ==> n !in x.Owned();
    Back(rest, others, x.Owned(), m, j, y, y.Contents());
    assert i !in rest[j := y];
    Back(rest[j := y], others[j := y.Contents()], multiset{}, m, i, x, x.Contents());
    assert rest[j := y][i := x] == maps;
    assert others[j := y.Contents()][i := x.Contents()] == lists[i := x.Contents()][j := y.Contents()];
  }

  /** A map gives away what is not below a key, as a new map. */
  method SplitTwo(maps: map<Name, BTreeMap>, i: Name, key: Key, j: Name, lt: Precedence, pool: Pool,
                  ghost lists: map<Name, seq<KV>>)
    returns (maps': map<Name, BTreeMap>)
    requires pool.Valid() && World(maps, lists, multiset{}, pool.Mem()) && i in maps && j !in maps
    requires StrictWeak(lt) && i in lists && Sorted(lists[i], lt)
    modifies Objects(maps), pool, pool.nodes, pool.kvBuffers, pool.edgeBuffers
    ensures pool.Valid() && fresh(pool.Repr() - old(pool.Repr())) && fresh(Objects(maps') - old(Objects(maps)))
    ensures World(maps', lists[i := Below(lists[i], lt, key)][j := NotBelow(lists[i], lt, key)], multiset{}, pool.Mem())
    ensures maps'.Keys == maps.Keys + {j}
  {
    hide Edited, StrictWeak, Sorted, World, Objects, Below, NotBelow, Cut, Once, Apart, Monotone, BTreeMap.Parts,
         BTreeMap.In,
         BTreeMap.Contents, BTreeMap.Owned, Pool.Mem, Pool.Valid;
    ghost var rest, others, m := maps - {i}, lists - {i}, pool.Mem();
    WorldNames(maps, lists, multiset{}, m);
    Aside(maps, lists, multiset{}, m, i);
    ObjectsElsewhere(rest, pool);
    CutDivides(lists[i], lt, key);
    var x := maps[i];
    ghost var beside, o, parts := Objects(rest), x.Owned(), x.Parts();
    OwnObject(x);
    var y := x.SplitOff(For(lt, key), pool);
    maps' := maps[j := y];
    assert x.Parts() == parts && Objects(rest) == beside && beside !! parts + y.Parts();
    assert World(rest, others, multiset{} + o, m);
    assert multiset{} + o == o;
    OnceApart(x.Owned(), y.Owned());
    Framed(rest, others, o, x.Owned() + y.Owned(), m, pool.Mem());
    assert lists[j := []][i := x.Contents()][j := y.Contents()] == lists[i := x.Contents()][j := y.Contents()];
    BothBack(maps', lists[j := []], pool.Mem(), i, j, rest, others);
  }

  lemma OnceApart(a: multiset<Node>, b: multiset<Node>)
    requires Once(a + b)
    ensures Apart(a, b)
  {
    forall n | n in a ensures n !in b {
      assert (a + b)[n] == a[n] + b[n];
    }
  }

  method NewMap(maps: map<Name, BTreeMap>, i: Name, pool: Pool, ghost lists: map<Name, seq<KV>>)
    returns (maps': map<Name, BTreeMap>)
    requires pool.Valid() && World(maps, lists, multiset{}, pool.Mem()) && i !in maps
    ensures fresh(Objects(maps') - Objects(maps)) && World(maps', lists[i := []], multiset{}, pool.Mem())
    ensures maps'.Keys == maps.Keys + {i}
  {
    hide Edited, World, Objects, Apart, BTreeMap.Parts, BTreeMap.In, BTreeMap.Contents, BTreeMap.Owned, Pool.Mem,
         Pool.Valid;
    ObjectsElsewhere(maps, pool);
    ghost var m, beside := pool.Mem(), Objects(maps);
    var y := new BTreeMap();
    assert Objects(maps) == beside && World(maps, lists, multiset{}, m);
    assert Apart(y.Owned(), multiset{}) by { OnceApart(y.Owned(), multiset{}); }
    assert multiset{} + y.Owned() == multiset{};
    Back(maps, lists, multiset{}, m, i, y, []);
    maps' := maps[i := y];
  }

  /** Dropping a map releases its nodes. */
  method DropMap(maps: map<Name, BTreeMap>, i: Name, pool: Pool, ghost lists: map<Name, seq<KV>>)
    returns (maps': map<Name, BTreeMap>)
    requires pool.Valid() && World(maps, lists, multiset{}, pool.Mem()) && i in maps
    modifies Objects(maps), pool, pool.nodes, pool.kvBuffers, pool.edgeBuffers
    ensures pool.Valid() && pool.Repr() <= old(pool.Repr()) && Objects(maps') <= old(Objects(maps))
    ensures World(maps', lists - {i}, multiset{}, pool.Mem()) && maps'.Keys == maps.Keys - {i}
  {
    hide Edited, World, Objects, Apart, Dying.Shrunk, BTreeMap.Parts, BTreeMap.In, BTreeMap.Contents, BTreeMap.Owned,
         Pool.Mem, Pool.Valid;
    maps' := maps - {i};
    ghost var others, m := lists - {i}, pool.Mem();
    Aside(maps, lists, multiset{}, m, i);
    ObjectsElsewhere(maps', pool);
    var x := maps[i];
    ghost var beside, o := Objects(maps'), x.Owned();
    OwnObject(x);
    x.Clear(pool);
    assert Objects(maps') == beside && World(maps', others, multiset{} + o, m);
    assert multiset{} + o == o;
    ClearedEdits(m, pool.Mem(), o);
    Framed(maps', others, o, multiset{}, m, pool.Mem());
  }

  lemma OwnObject(x: BTreeMap)
    ensures x in x.Parts() && forall o :: o in x.Parts() ==> allocated(o)
  {
  }

  // ----- Runs

  datatype Op<!S> =
    | New(at: Name)
    | On(at: Name, edit: Edit<S>)
    | Append(at: Name, from: Name)
    | SplitOff(at: Name, key: Key, into: Name)
    | Drop(at: Name)

  /** The names an operation uses are those of maps, and the names it gives are not. */
  predicate Fits<S>(op: Op<S>, names: set<Name>) {
    match op
    case New(at) => at !in names
    case On(at, e) => at in names
    case Append(at, from) => at in names && from in names && at != from
    case SplitOff(at, key, into) => at in names && into !in names
    case Drop(at) => at in names
  }

  function NamesAfter<S>(op: Op<S>, names: set<Name>): set<Name> {
    match op
    case New(at) => names + {at}
    case SplitOff(at, key, into) => names + {into}
    case Drop(at) => names - {at}
    case _ => names
  }

  /** What an operation means for the lists. */
  ghost function Step<S>(lists: map<Name, seq<KV>>, op: Op<S>, lt: Precedence): (map<Name, seq<KV>>, Answer)
    requires Fits(op, lists.Keys)
  {
    match op
    case New(at) => (lists[at := []], Nothing)
    case On(at, e) => var (f, answer) := Outcome(lists[at], e, lt); (lists[at := f], answer)
    case Append(at, from) => (lists[at := WithAll(lists[at], lt, lists[from])][from := []], Nothing)
    case SplitOff(at, key, into) =>
      (lists[at := Below(lists[at], lt, key)][into := NotBelow(lists[at], lt, key)], Nothing)
    case Drop(at) => (lists - {at}, Nothing)
  }

  predicate Runnable<S>(ops: seq<Op<S>>, names: set<Name>) {
    ops == [] || (Fits(ops[0], names) && Runnable(ops[1..], NamesAfter(ops[0], names)))
  }

  lemma StepNames<S>(lists: map<Name, seq<KV>>, op: Op<S>, lt: Precedence)
    requires Fits(op, lists.Keys)
    ensures Step(lists, op, lt).0.Keys == NamesAfter(op, lists.Keys)
  {
  }

  /** What a run means for the lists, and what it answers. */
  ghost function Play<S>(lists: map<Name, seq<KV>>, ops: seq<Op<S>>, lt: Precedence): (map<Name, seq<KV>>, seq<Answer>)
    requires Runnable(ops, lists.Keys)
    decreases |ops|
  {
    if ops == [] then
      (lists, [])
    else
      StepNames(lists, ops[0], lt);
      var (next, answer) := Step(lists, ops[0], lt);
      var (end, answers) := Play(next, ops[1..], lt);
      (end, [answer] + answers)
  }

  /** Each operation changes only the lists it names. Creating gives an empty list and dropping takes one away.
      Appending keeps the pairs of the second list and those of the first without an equivalent key in it, and empties
      the second. Splitting off divides the pairs at the key. */
  lemma StepMeans<S>(lists: map<Name, seq<KV>>, op: Op<S>, lt: Precedence)
    requires StrictWeak(lt) && AllSorted(lists, lt) && Fits(op, lists.Keys)
    ensures var (l, answer) := Step(lists, op, lt);
      && (forall i :: i in lists && i in l ==>
            i == op.at || (op.Append? && i == op.from) || (op.SplitOff? && i == op.into) || l[i] == lists[i])
      && match op
         case New(at) => l.Keys == lists.Keys + {at} && l[at] == [] && answer == Nothing
         case On(at, e) => l.Keys == lists.Keys && (l[at], answer) == Outcome(lists[at], e, lt)
         case Append(at, from) =>
           && l.Keys == lists.Keys && l[from] == [] && answer == Nothing
           && forall x :: x in l[at] <==>
                (x in lists[from] || (x in lists[at] && forall y :: y in lists[from] ==> !Equivalent(lt, x.key, y.key)))
         case SplitOff(at, key, into) =>
           && l.Keys == lists.Keys + {into} && answer == Nothing
           && (forall x :: x in l[at] <==> x in lists[at] && lt(x.key, key))
           && (forall x :: x in l[into] <==> x in lists[at] && !lt(x.key, key))
         case Drop(at) => l.Keys == lists.Keys - {at} && answer == Nothing
  {
    hide Sorted, StrictWeak, WithAll, Outcome;
    if op.Append? {
      var (f, g) := (lists[op.at], lists[op.from]);
      forall x
        ensures x in WithAll(f, lt, g) <==> (x in g || (x in f && forall y :: y in g ==> !Equivalent(lt, x.key, y.key)))
      {
        WithAllHas(f, lt, g, x);
      }
    }
  }

  /** A run is one step after the other, each on what the steps before left. */
  lemma {:induction false} PlayStep<S>(lists: map<Name, seq<KV>>, ops: seq<Op<S>>, lt: Precedence, k: nat)
    requires Runnable(ops, lists.Keys) && k < |ops|
    ensures Runnable(ops[..0], lists.Keys) && Play(lists, ops[..0], lt) == (lists, [])
    ensures Runnable(ops[..k], lists.Keys) && Runnable(ops[..k + 1], lists.Keys)
    ensures Fits(ops[k], Play(lists, ops[..k], lt).0.Keys)
    ensures var (l, answer) := Step(Play(lists, ops[..k], lt).0, ops[k], lt);
      && Play(lists, ops[..k + 1], lt).0 == l
      && |Play(lists, ops, lt).1| == |ops| && Play(lists, ops, lt).1[k] == answer
    decreases |ops|
  {
    hide Step, Fits;
    StepNames(lists, ops[0], lt);
    var next := Step(lists, ops[0], lt).0;
    PlayLength(next, ops[1..], lt);
    assert ops[..0] == [] && ops[1..][..0] == [];
    if k > 0 {
      PlayStep(next, ops[1..], lt, k - 1);
      PlayHead(lists, ops, lt, k);
    }
    PlayHead(lists, ops, lt, k + 1);
  }

  lemma PlayHead<S>(lists: map<Name, seq<KV>>, ops: seq<Op<S>>, lt: Precedence, k: nat)
    requires Runnable(ops, lists.Keys) && 0 < k <= |ops| && Runnable(ops[1..][..k - 1], NamesAfter(ops[0], lists.Keys))
    requires Step(lists, ops[0], lt).0.Keys == NamesAfter(ops[0], lists.Keys)
    ensures Runnable(ops[..k], lists.Keys)
    ensures Play(lists, ops[..k], lt).0 == Play(Step(lists, ops[0], lt).0, ops[1..][..k - 1], lt).0
  {
    assert ops[..k][0] == ops[0] && ops[..k][1..] == ops[1..][..k - 1];
  }

  lemma {:induction false} PlayLength<S>(lists: map<Name, seq<KV>>, ops: seq<Op<S>>, lt: Precedence)
    requires Runnable(ops, lists.Keys)
    ensures |Play(lists, ops, lt).1| == |ops|
    decreases |ops|
  {
    if ops != [] {
      StepNames(lists, ops[0], lt);
      PlayLength(Step(lists, ops[0], lt).0, ops[1..], lt);
    }
  }

  ghost predicate AllSorted(lists: map<Name, seq<KV>>, lt: Precedence) {
    forall i :: i in lists ==> Sorted(lists[i], lt)
  }

  lemma StepSorted<S>(lists: map<Name, seq<KV>>, op: Op<S>, lt: Precedence)
    requires StrictWeak(lt) && AllSorted(lists, lt) && Fits(op, lists.Keys)
    ensures AllSorted(Step(lists, op, lt).0, lt)
  {
    hide StrictWeak, Sorted, WithAll, Below, NotBelow, Outcome;
    match op
    case New(at) => assert Sorted([], lt) by { SortedNothing(lt); }
    case On(at, e) => SortedEdit(lists[at], e, lt);
    case Append(at, from) =>
      SortedNothing(lt);
      SortedWithAll(lists[at], lt, lists[from]);
    case SplitOff(at, key, into) =>
      SortedSides(lists[at], lt, key);
      SortedNotBelow(lists[at], lt, key);
    case Drop(at) =>
  }

  lemma SortedNothing(lt: Precedence)
    ensures Sorted([], lt)
  {
  }

  method Perform<S(!new)>(maps: map<Name, BTreeMap>, op: Op<S>, lt: Precedence, pool: Pool,
                          ghost lists: map<Name, seq<KV>>)
    returns (maps': map<Name, BTreeMap>, answer: Answer)
    requires pool.Valid() && World(maps, lists, multiset{}, pool.Mem()) && Fits(op, maps.Keys)
    requires maps.Keys == lists.Keys
    requires StrictWeak(lt) && AllSorted(lists, lt)
    modifies Objects(maps), pool, pool.nodes, pool.kvBuffers, pool.edgeBuffers
    ensures pool.Valid() && fresh(pool.Repr() - old(pool.Repr())) && fresh(Objects(maps') - old(Objects(maps)))
    ensures var (l, a) := Step(lists, op, lt); World(maps', l, multiset{}, pool.Mem()) && answer == a
  {
    hide StrictWeak, Sorted, World, Objects, Outcome, WithAll, Below, NotBelow, Pool.Mem, Pool.Valid;
    assert forall i :: i in maps <==> i in lists by { WorldNames(maps, lists, multiset{}, pool.Mem()); }
    maps', answer := maps, Nothing;
    match op {
      case New(at) => maps' := NewMap(maps, at, pool, lists);
      case On(at, e) => answer := OnOne(maps, at, e, lt, pool, lists);
      case Append(at, from) => AppendTwo(maps, at, from, lt, pool, lists);
      case SplitOff(at, key, into) => maps' := SplitTwo(maps, at, key, into, lt, pool, lists);
      case Drop(at) => maps' := DropMap(maps, at, pool, lists);
    }
  }

  /** Any run, on any maps in one memory: afterwards the maps hold what the run means for sorted association lists, it
      has answered what that run answers, every tree is valid, every length exact, and no node is lost. */
  method Run<S(!new)>(maps: map<Name, BTreeMap>, ops: seq<Op<S>>, lt: Precedence, pool: Pool,
                      ghost lists: map<Name, seq<KV>>)
    returns (maps': map<Name, BTreeMap>, answers: seq<Answer>)
    requires pool.Valid() && World(maps, lists, multiset{}, pool.Mem()) && Runnable(ops, maps.Keys)
    requires maps.Keys == lists.Keys
    requires StrictWeak(lt) && AllSorted(lists, lt)
    modifies Objects(maps), pool, pool.nodes, pool.kvBuffers, pool.edgeBuffers
    ensures pool.Valid() && fresh(pool.Repr() - old(pool.Repr())) && fresh(Objects(maps') - old(Objects(maps)))
    ensures var (l, a) := Play(lists, ops, lt);
      World(maps', l, multiset{}, pool.Mem()) && AllSorted(l, lt) && answers == a
    decreases |ops|
  {
    hide StrictWeak, AllSorted, World, Objects, Step, Fits, Pool.Mem, Pool.Valid;
    if ops == [] { return maps, []; }
    var first, rest;
    ghost var repr, objects := pool.Repr(), Objects(maps);
    maps', first := Perform(maps, ops[0], lt, pool, lists);
    ghost var repr1, objects1 := pool.Repr(), Objects(maps');
    ghost var next := Step(lists, ops[0], lt).0;
    StepNames(lists, ops[0], lt);
    StepSorted(lists, ops[0], lt);
    assert maps'.Keys == next.Keys by { WorldNames(maps', next, multiset{}, pool.Mem()); }
    maps', rest := Run(maps', ops[1..], lt, pool, next);
    assert fresh(pool.Repr() - repr1) && fresh(Objects(maps') - objects1);
    assert fresh(repr1 - repr) && fresh(objects1 - objects);
    answers := [first] + rest;
  }

  const NO_MAPS: map<Name, BTreeMap> := map[]

  ghost const NO_LISTS: map<Name, seq<KV>> := map[]

  /** A run from nothing, after which all maps are dropped: nothing is left in memory. */
  method RunAll<S(!new)>(ops: seq<Op<S>>, lt: Precedence, pool: Pool) returns (answers: seq<Answer>)
    requires pool.Valid() && pool.Mem() == map[] && StrictWeak(lt) && Runnable(ops, NO_LISTS.Keys)
    modifies pool, pool.nodes, pool.kvBuffers, pool.edgeBuffers
    ensures pool.Valid() && pool.Mem() == map[] && answers == Play(NO_LISTS, ops, lt).1
  {
    hide StrictWeak, Objects, Edited, World, AllSorted, Play, Runnable, Pool.Mem, Pool.Valid;
    var maps := NO_MAPS;
    ghost var lists := NO_LISTS;
    NothingYet(lt, pool.Mem());
    maps, answers := Run(maps, ops, lt, pool, lists);
    lists := Play(lists, ops, lt).0;
    while maps != map[]
      invariant pool.Valid() && World(maps, lists, multiset{}, pool.Mem())
      invariant fresh(Objects(maps)) && fresh(pool.Repr() - old(pool.Repr()))
      decreases |maps|
    {
      var i :| i in maps;
      maps := DropMap(maps, i, pool, lists);
      lists := lists - {i};
    }
    NothingLeft(lists, pool.Mem());
  }

  lemma NothingYet(lt: Precedence, m: Mem)
    requires m == map[]
    ensures Objects(NO_MAPS) == {} && World(NO_MAPS, NO_LISTS, multiset{}, m) && AllSorted(NO_LISTS, lt)
    ensures NO_MAPS.Keys == NO_LISTS.Keys
  {
  }

  lemma NothingLeft(lists: map<Name, seq<KV>>, m: Mem)
    requires World(map[], lists, multiset{}, m)
    ensures m == map[]
  {
  }
}
