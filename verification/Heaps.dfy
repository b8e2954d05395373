/** The binary heap: a vector in which no element exceeds the one at half its index, permuted through a moving hole. */
module Heaps {
  import opened Options

  // ----- Orders and heaps

  ghost predicate TotalPreorder<T(!new)>(le: (T, T) -> bool) {
    && (forall x, y :: le(x, y) || le(y, x)) && (forall x, y, z :: le(x, y) && le(y, z) ==> le(x, z))
  }

  function Parent(i: nat): nat
    requires i > 0
  {
    (i - 1) / 2
  }

  /** Up to `end`, every element whose parent comes at `start` or later does not exceed that parent. */
  ghost predicate HeapFrom<T>(s: seq<T>, le: (T, T) -> bool, start: nat, end: nat) {
    end <= |s| && forall i :: 0 < i < end && Parent(i) >= start ==> le(s[i], s[Parent(i)])
  }

  ghost predicate Heap<T>(s: seq<T>, le: (T, T) -> bool) { HeapFrom(s, le, 0, |s|) }

  /** The first element of a heap is a greatest one. */
  lemma {:induction false} RootIsGreatest<T(!new)>(s: seq<T>, le: (T, T) -> bool, end: nat, i: nat)
    requires TotalPreorder(le) && HeapFrom(s, le, 0, end) && i < end
    ensures le(s[i], s[0])
  {
    if i > 0 { RootIsGreatest(s, le, end, Parent(i)); }
  }

  /** Going up from `i` by parents leads to `start`. */
  ghost predicate Descends(i: nat, start: nat) { i == start || (i > start && Descends(Parent(i), start)) }

  // ----- Holes

  /** The vector with the hole filled. */
  function Filled<T>(s: seq<T>, hole: nat, elt: T): seq<T>
    requires hole < |s|
  {
    s[hole := elt]
  }

  lemma Swapped<T>(s: seq<T>, i: nat, j: nat)
    requires i < |s| && j < |s|
    ensures multiset(s[i := s[j]][j := s[i]]) == multiset(s)
  {
  }

  /** Moving the hole keeps the elements. */
  lemma HoleMoved<T>(s: seq<T>, hole: nat, elt: T, to: nat)
    requires hole < |s| && to < |s| && hole != to
    ensures multiset(Filled(s[hole := s[to]], to, elt)) == multiset(Filled(s, hole, elt))
    ensures Filled(s[hole := s[to]], to, elt) == Filled(s, hole, elt)[hole := s[to]][to := elt]
  {
    Swapped(Filled(s, hole, elt), hole, to);
    assert Filled(s[hole := s[to]], to, elt) == Filled(s, hole, elt)[hole := s[to]][to := elt];
  }

  /** A heap but for the place of the hole: pairs without the hole are in order, and what is below the hole does not
      exceed what is above it. */
  ghost predicate HeapAround<T>(s: seq<T>, le: (T, T) -> bool, start: nat, end: nat, hole: nat) {
    && hole < end <= |s|
    && (forall i :: 0 < i < end && Parent(i) >= start && i != hole && Parent(i) != hole ==> le(s[i], s[Parent(i)]))
    && (forall i :: 0 < i < end && Parent(i) == hole && hole > 0 && Parent(hole) >= start ==> le(s[i], s[Parent(hole)]))
  }

  /** The same elements, with those before `start` and from `end` on in place. */
  ghost predicate Shuffled<T>(s: seq<T>, s': seq<T>, start: nat, end: nat) {
    && |s'| == |s| && multiset(s') == multiset(s)
    && forall i :: 0 <= i < |s| && (i < start || i >= end) ==> s'[i] == s[i]
  }

  /** One step of a hole: from its place to a child's or its parent's. */
  lemma ShuffledMove<T>(s0: seq<T>, s: seq<T>, hole: nat, elt: T, to: nat, start: nat, end: nat)
    requires start <= hole < end <= |s| && start <= to < end && hole != to
    requires Shuffled(s0, Filled(s, hole, elt), start, end)
    ensures Shuffled(s0, Filled(s[hole := s[to]], to, elt), start, end)
  {
    HoleMoved(s, hole, elt, to);
  }

  /** The hole moves down to the greater child. */
  lemma AroundDown<T(!new)>(s: seq<T>, le: (T, T) -> bool, start: nat, end: nat, hole: nat, to: nat)
    requires TotalPreorder(le) && HeapAround(s, le, start, end, hole) && start <= hole && hole < to < end
    requires Parent(to) == hole
    requires forall i :: 0 < i < end && Parent(i) == hole ==> le(s[i], s[to])
    ensures HeapAround(s[hole := s[to]], le, start, end, to)
  {
    var s' := s[hole := s[to]];
    forall i | 0 < i < end && Parent(i) >= start && i != to && Parent(i) != to ensures le(s'[i], s'[Parent(i)]) {
      if i == hole { assert le(s[to], s[Parent(hole)]); }
    }
    forall i | 0 < i < end && Parent(i) == to ensures le(s'[i], s'[Parent(to)]) {
      assert le(s[i], s[to]);
    }
  }

  /** The hole moves up to its parent, below which the element taken out would exceed it. */
  lemma AroundUp<T(!new)>(s: seq<T>, le: (T, T) -> bool, start: nat, end: nat, hole: nat, elt: T)
    requires TotalPreorder(le) && HeapAround(s, le, start, end, hole) && hole > 0 && Parent(hole) >= start
    requires !le(elt, s[Parent(hole)])
    requires forall i :: 0 < i < end && Parent(i) == hole ==> le(s[i], elt)
    ensures var s' := s[hole := s[Parent(hole)]];
      && HeapAround(s', le, start, end, Parent(hole))
      && forall i :: 0 < i < end && Parent(i) == Parent(hole) ==> le(s'[i], elt)
  {
    var (up, s') := (Parent(hole), s[hole := s[Parent(hole)]]);
    forall i | 0 < i < end && Parent(i) >= start && i != up && Parent(i) != up ensures le(s'[i], s'[Parent(i)]) {}
    forall i | 0 < i < end && Parent(i) == up && up > 0 && Parent(up) >= start ensures le(s'[i], s'[Parent(up)]) {
      if i != hole { assert le(s[i], s[up]); }
      assert le(s[up], s[Parent(up)]);
    }
    forall i | 0 < i < end && Parent(i) == up ensures le(s'[i], elt) {
      if i != hole { assert le(s[i], s[up]); }
    }
  }

  /** Filling the hole where the element fits makes a heap. */
  lemma FilledHeap<T(!new)>(s: seq<T>, le: (T, T) -> bool, start: nat, end: nat, hole: nat, elt: T)
    requires HeapAround(s, le, start, end, hole)
    requires hole > 0 && Parent(hole) >= start ==> le(elt, s[Parent(hole)])
    requires forall i :: 0 < i < end && Parent(i) == hole ==> le(s[i], elt)
    ensures HeapFrom(Filled(s, hole, elt), le, start, end)
  {
  }

  function SaturatingSub(x: nat, y: nat): nat { if x < y then 0 else x - y }

  /** The greater of the two children of a hole. */
  lemma GreaterChild<T(!new)>(s: seq<T>, le: (T, T) -> bool, hole: nat, child: nat, end: nat)
    requires TotalPreorder(le) && child == 2 * hole + 1 && child + 1 < end <= |s|
    ensures var to := if le(s[child], s[child + 1]) then child + 1 else child;
      Parent(to) == hole && hole < to < end && forall i :: 0 < i < end && Parent(i) == hole ==> le(s[i], s[to])
  {
    forall i | 0 < i < end && Parent(i) == hole ensures i == child || i == child + 1 {}
  }

  lemma OnlyChild<T(!new)>(s: seq<T>, le: (T, T) -> bool, hole: nat, child: nat, end: nat)
    requires TotalPreorder(le) && child == 2 * hole + 1 && child + 1 >= end && end <= |s|
    ensures child < end ==>
      Parent(child) == hole && hole < child && forall i :: 0 < i < end && Parent(i) == hole ==> i == child
    ensures child >= end ==> forall i :: 0 < i < end ==> Parent(i) != hole
  {
  }

  class BinaryHeap<T(!new)> {
    var data: seq<T>
    var le: (T, T) -> bool

    ghost predicate Valid()
      reads this
    {
      TotalPreorder(le) && Heap(data, le)
    }

    constructor (le: (T, T) -> bool)
      requires TotalPreorder(le)
      ensures Valid() && this.le == le && data == []
    {
      data, this.le := [], le;
    }

    /** Moves the element at `pos` up to where it fits; up to `end`, only it may be out of order. */
    method SiftUp(start: nat, pos: nat, ghost end: nat) returns (p: nat)
      requires TotalPreorder(le) && Descends(pos, start) && HeapAround(data, le, start, end, pos)
      requires forall i :: 0 < i < end && Parent(i) == pos ==> le(data[i], data[pos])
      modifies this`data
      ensures HeapFrom(data, le, start, end) && Shuffled(old(data), data, start, end)
    {
      hide HeapAround, HeapFrom, Shuffled, TotalPreorder;
      AroundWithin(data, le, start, end, pos);
      ShuffledSame(data, start, end, pos);
      var elt, hole := data[pos], pos;
      while hole > start
        invariant start <= hole < end <= |data| && Descends(hole, start) && HeapAround(data, le, start, end, hole)
        invariant forall i :: 0 < i < end && Parent(i) == hole ==> le(data[i], elt)
        invariant Shuffled(old(data), Filled(data, hole, elt), start, end)
      {
        var parent := (hole - 1) / 2;
        if le(elt, data[parent]) { break; }
        AroundUp(data, le, start, end, hole, elt);
        ShuffledMove(old(data), data, hole, elt, parent, start, end);
        data := data[hole := data[parent]];
        hole := parent;
      }
      FilledHeap(data, le, start, end, hole, elt);
      data := data[hole := elt];
      p := hole;
    }

    /** Moves the element at `pos` down to where it fits; up to `end`, only it may be out of order with those below. */
    method SiftDownRange(pos: nat, end: nat)
      requires TotalPreorder(le) && pos < end && HeapFrom(data, le, pos + 1, end)
      modifies this`data
      ensures HeapFrom(data, le, pos, end) && Shuffled(old(data), data, pos, end)
    {
      hide HeapAround, HeapFrom, Shuffled, TotalPreorder;
      AroundTop(data, le, pos, end);
      ShuffledSame(data, pos, end, pos);
      var elt, hole, child := data[pos], pos, 2 * pos + 1;
      while child <= SaturatingSub(end, 2)
        invariant pos <= hole < end <= |data| && child == 2 * hole + 1 && HeapAround(data, le, pos, end, hole)
        invariant hole > 0 && Parent(hole) >= pos ==> le(elt, data[Parent(hole)])
        invariant Shuffled(old(data), Filled(data, hole, elt), pos, end)
        decreases end - hole
      {
        GreaterChild(data, le, hole, child, end);
        if le(data[child], data[child + 1]) { child := child + 1; }
        if le(data[child], elt) {
          Below(data, le, hole, child, end, elt);
          FilledHeap(data, le, pos, end, hole, elt);
          data := data[hole := elt];
          return;
        }
        Total(le, elt, data[child]);
        AroundDown(data, le, pos, end, hole, child);
        ShuffledMove(old(data), data, hole, elt, child, pos, end);
        data := data[hole := data[child]];
        hole := child;
        child := 2 * hole + 1;
      }
      OnlyChild(data, le, hole, child, end);
      if child == end - 1 && !le(data[child], elt) {
        Total(le, elt, data[child]);
        Reflexive(data, le, hole, child, end);
        AroundDown(data, le, pos, end, hole, child);
        ShuffledMove(old(data), data, hole, elt, child, pos, end);
        data := data[hole := data[child]];
        hole := child;
      }
      FilledHeap(data, le, pos, end, hole, elt);
      data := data[hole := elt];
    }

    method SiftDown(pos: nat)
      requires TotalPreorder(le) && pos < |data| && HeapFrom(data, le, pos + 1, |data|)
      modifies this`data
      ensures |data| == |old(data)| && HeapFrom(data, le, pos, |data|) && Shuffled(old(data), data, pos, |data|)
    {
      hide HeapFrom, Shuffled, TotalPreorder;
      ShuffledLength(data, pos, |data|);
      SiftDownRange(pos, |data|);
    }

    /** Moves the element at `pos` down to the bottom, past greater and smaller ones, and from there up to where it
        fits. */
    method SiftDownToBottom(pos: nat)
      requires TotalPreorder(le) && pos < |data| && HeapFrom(data, le, pos + 1, |data|)
      modifies this`data
      ensures |data| == |old(data)| && HeapFrom(data, le, pos, |data|) && Shuffled(old(data), data, pos, |data|)
    {
      hide HeapAround, HeapFrom, Shuffled, TotalPreorder;
      var end := |data|;
      AroundTop(data, le, pos, end);
      ShuffledSame(data, pos, end, pos);
      var elt, hole, child := data[pos], pos, 2 * pos + 1;
      while child <= SaturatingSub(end, 2)
        invariant pos <= hole < end == |data| && child == 2 * hole + 1 && HeapAround(data, le, pos, end, hole)
        invariant Descends(hole, pos) && Shuffled(old(data), Filled(data, hole, elt), pos, end)
        decreases end - hole
      {
        GreaterChild(data, le, hole, child, end);
        if le(data[child], data[child + 1]) { child := child + 1; }
        AroundDown(data, le, pos, end, hole, child);
        ShuffledMove(old(data), data, hole, elt, child, pos, end);
        data := data[hole := data[child]];
        hole := child;
        child := 2 * hole + 1;
      }
      OnlyChild(data, le, hole, child, end);
      if child == end - 1 {
        Reflexive(data, le, hole, child, end);
        AroundDown(data, le, pos, end, hole, child);
        ShuffledMove(old(data), data, hole, elt, child, pos, end);
        data := data[hole := data[child]];
        hole := child;
      }
      AroundFilled(data, le, pos, end, hole, elt);
      data := data[hole := elt];
      ghost var d := data;
      var _ := SiftUp(pos, hole, end);
      ShuffledTrans(old(data), d, data, pos, end);
    }

    /** Takes out a greatest element. Only the first element may be out of order before. */
    method Pop() returns (item: Option<T>)
      requires TotalPreorder(le) && HeapFrom(data, le, 1, |data|)
      modifies this`data
      ensures Valid() && (item.None? <==> old(data) == [])
      ensures if item.None? then data == [] else
        item.value == old(data)[0] && multiset(data) == multiset(old(data)) - multiset{item.value}
      ensures old(Valid()) && item.Some? ==> forall x :: x in old(data) ==> le(x, item.value)
    {
      hide HeapFrom, Shuffled, TotalPreorder;
      if data == [] {
        NoHeap(data, le);
        return None;
      }
      ghost var was := data;
      HeapsGreatest(was, le);
      var last := data[|data| - 1];
      data := data[..|data| - 1];
      if data == [] {
        NoHeap(data, le);
        OneTaken(was);
        return Some(last);
      }
      item := Some(data[0]);
      data := data[0 := last];
      ghost var d := data;
      LastFirst(was, le);
      SiftDownToBottom(0);
      ShuffledKeeps(d, data, 0, |d|);
    }

    method Push(item: T)
      requires Valid()
      modifies this`data
      ensures Valid() && multiset(data) == multiset(old(data)) + multiset{item}
    {
      hide HeapFrom, HeapAround, Shuffled, TotalPreorder, Descends;
      var oldLen := |data|;
      AroundLast(data, le, item);
      data := data + [item];
      ghost var d := data;
      var _ := SiftUp(0, oldLen, |data|);
      ShuffledKeeps(d, data, 0, |d|);
    }

    /** Makes a heap of any vector. */
    method Rebuild()
      requires TotalPreorder(le)
      modifies this`data
      ensures Valid() && multiset(data) == multiset(old(data))
    {
      hide HeapFrom, Shuffled, TotalPreorder;
      var n: nat := |data| / 2;
      NoParents(data, le);
      while n > 0
        invariant n <= |data| / 2 && |data| == |old(data)| && HeapFrom(data, le, n, |data|)
        invariant multiset(data) == multiset(old(data))
      {
        n := n - 1;
        ghost var d := data;
        SiftDown(n);
        ShuffledKeeps(d, data, n, |d|);
      }
    }

    /** Makes a heap of a vector that is one up to `start`, by either strategy. */
    method RebuildTail(start: nat)
      requires TotalPreorder(le) && start <= |data| && HeapFrom(data, le, 0, start)
      modifies this`data
      ensures Valid() && multiset(data) == multiset(old(data))
    {
      hide HeapFrom, HeapAround, Shuffled, TotalPreorder, Descends;
      if start == |data| { return; }
      var tailLen := |data| - start;
      var betterToRebuild;
      if start < tailLen {
        betterToRebuild := true;
      } else if |data| <= 2048 {
        betterToRebuild := 2 * |data| < tailLen * Log2(start);
      } else {
        betterToRebuild := 2 * |data| < tailLen * 11;
      }
      if betterToRebuild {
        Rebuild();
      } else {
        for i := start to |data|
          invariant |data| == |old(data)| && HeapFrom(data, le, 0, i) && multiset(data) == multiset(old(data))
        {
          ghost var d := data;
          AroundNext(data, le, i);
          var _ := SiftUp(0, i, i + 1);
          ShuffledKeeps(d, data, 0, i + 1);
        }
      }
    }

    /** Takes the elements of another heap. The longer of the two is kept, with its order; the other heap gets the
        other order. */
    method Append(other: BinaryHeap<T>)
      requires Valid() && other.Valid() && other != this
      modifies this, other
      ensures Valid() && other.Valid() && other.data == []
      ensures multiset(data) == multiset(old(data)) + multiset(old(other.data))
      ensures (le, other.le) == if old(|data|) < old(|other.data|) then old((other.le, le)) else old((le, other.le))
    {
      hide HeapFrom, TotalPreorder;
      if |data| < |other.data| {
        data, other.data := other.data, data;
        le, other.le := other.le, le;
      }
      var start := |data|;
      HeapPrefix(data, other.data, le);
      data, other.data := data + other.data, [];
      NoHeap(other.data, other.le);
      RebuildTail(start);
    }

    /** Takes the heap apart into a vector in ascending order. */
    method IntoSortedVec() returns (v: seq<T>)
      requires Valid()
      modifies this`data
      ensures multiset(v) == multiset(old(data)) && forall i, j :: 0 <= i < j < |v| ==> le(v[i], v[j])
    {
      hide HeapFrom, Shuffled, TotalPreorder, SortedFrom;
      var end: nat := |data|;
      SortedNone(data, le);
      while end > 1
        invariant end <= |data| == |old(data)| && HeapFrom(data, le, 0, end) && SortedFrom(data, le, end)
        invariant multiset(data) == multiset(old(data))
      {
        end := end - 1;
        ghost var d := data;
        GreatestBack(data, le, end);
        data := data[0 := data[end]][end := data[0]];
        ghost var d' := data;
        SiftDownRange(0, end);
        SortedShuffled(d', data, le, end);
        ShuffledKeeps(d', data, 0, end);
      }
      v := data;
      SortedAll(data, le, end);
    }

    /** Keeps the elements that a predicate accepts, which is asked once for each and may carry a state along. */
    method Retain<S(!new)>(f: (S, T) -> (bool, S), s: S) returns (s': S)
      requires Valid()
      modifies this`data
      ensures Valid() && multiset(data) == multiset(Only(old(data), f, s)) && s' == StateOver(old(data), f, s)
    {
      hide HeapFrom, TotalPreorder;
      var firstRemoved: nat, i: nat, kept := |data|, 0, [];
      s' := s;
      while i < |data|
        invariant i <= |data| && kept == Only(data[..i], f, s) && s' == StateOver(data[..i], f, s) && data == old(data)
        invariant firstRemoved <= |data| && (firstRemoved == |data| || firstRemoved < i)
        invariant if firstRemoved < i then data[..firstRemoved] <= kept else kept == data[..i]
      {
        OnlyNext(data, f, s, i);
        var (keep, next) := f(s', data[i]);
        s' := next;
        if keep {
          kept := kept + [data[i]];
        } else if i < firstRemoved {
          firstRemoved := i;
        }
        i := i + 1;
      }
      assert data[..i] == data;
      PrefixHeap(data, kept, le, firstRemoved);
      data := kept;
      RebuildTail(firstRemoved);
    }
  }

  /** The floor of the binary logarithm. */
  function Log2(x: nat): (l: nat)
    requires x > 0
  {
    if x == 1 then 0 else 1 + Log2(x / 2)
  }

  /** The state of a predicate when it has been asked for each element. */
  function StateOver<S, T>(d: seq<T>, f: (S, T) -> (bool, S), s: S): S {
    if d == [] then s else f(StateOver(d[..|d| - 1], f, s), d[|d| - 1]).1
  }

  /** The elements a predicate accepts. */
  function Only<S, T>(d: seq<T>, f: (S, T) -> (bool, S), s: S): seq<T> {
    if d == [] then []
    else
      var (front, last) := (d[..|d| - 1], d[|d| - 1]);
      Only(front, f, s) + if f(StateOver(front, f, s), last).0 then [last] else []
  }

  lemma OnlyNext<S, T>(s: seq<T>, f: (S, T) -> (bool, S), st: S, i: nat)
    requires i < |s|
    ensures var (keep, next) := f(StateOver(s[..i], f, st), s[i]);
      Only(s[..i + 1], f, st) == Only(s[..i], f, st) + (if keep then [s[i]] else [])
      && StateOver(s[..i + 1], f, st) == next
    ensures s[..i + 1] == s[..i] + [s[i]]
  {
    assert s[..i + 1][..i] == s[..i];
  }

  lemma PrefixHeap<T>(s: seq<T>, s': seq<T>, le: (T, T) -> bool, n: nat)
    requires Heap(s, le) && n <= |s| && s[..n] <= s'
    ensures HeapFrom(s', le, 0, n)
  {
    forall i | 0 < i < n ensures le(s'[i], s'[Parent(i)]) {
      assert s'[..n] == s[..n];
      assert s'[i] == s'[..n][i] && s'[Parent(i)] == s'[..n][Parent(i)];
      assert s[i] == s[..n][i] && s[Parent(i)] == s[..n][Parent(i)];
    }
  }

  lemma NoHeap<T>(s: seq<T>, le: (T, T) -> bool)
    ensures s == [] ==> Heap(s, le)
  {
  }

  lemma HeapsGreatest<T(!new)>(s: seq<T>, le: (T, T) -> bool)
    requires TotalPreorder(le)
    ensures Heap(s, le) ==> forall x :: x in s ==> le(x, s[0])
  {
    if Heap(s, le) {
      forall x | x in s ensures le(x, s[0]) {
        var i :| 0 <= i < |s| && s[i] == x;
        RootIsGreatest(s, le, |s|, i);
      }
    }
  }

  lemma OneTaken<T>(s: seq<T>)
    requires |s| == 1
    ensures multiset(s) - multiset{s[0]} == multiset{}
  {
    assert s == [s[0]];
  }

  /** Taking out the first element by putting the last in its place. */
  lemma LastFirst<T>(s: seq<T>, le: (T, T) -> bool)
    requires |s| > 1 && HeapFrom(s, le, 1, |s|)
    ensures var s' := s[..|s| - 1][0 := s[|s| - 1]];
      HeapFrom(s', le, 1, |s'|) && multiset(s') == multiset(s) - multiset{s[0]}
  {
    var s' := s[..|s| - 1][0 := s[|s| - 1]];
    assert s == [s[0]] + s[1..|s| - 1] + [s[|s| - 1]];
    assert s' == [s[|s| - 1]] + s[1..|s| - 1];
  }

  lemma ShuffledKeeps<T>(s: seq<T>, s': seq<T>, start: nat, end: nat)
    requires Shuffled(s, s', start, end)
    ensures |s'| == |s| && multiset(s') == multiset(s)
  {
  }

  lemma AroundLast<T>(s: seq<T>, le: (T, T) -> bool, x: T)
    requires Heap(s, le)
    ensures HeapAround(s + [x], le, 0, |s| + 1, |s|) && Descends(|s|, 0)
    ensures forall i :: 0 < i <= |s| ==> Parent(i) != |s|
  {
    FromZero(|s|);
  }

  lemma AroundNext<T>(s: seq<T>, le: (T, T) -> bool, i: nat)
    requires i < |s| && HeapFrom(s, le, 0, i)
    ensures HeapAround(s, le, 0, i + 1, i) && Descends(i, 0)
    ensures forall j :: 0 < j <= i ==> Parent(j) != i
  {
    FromZero(i);
  }

  lemma {:induction false} FromZero(i: nat)
    ensures Descends(i, 0)
  {
    if i > 0 { FromZero(Parent(i)); }
  }

  lemma NoParents<T>(s: seq<T>, le: (T, T) -> bool)
    ensures HeapFrom(s, le, |s| / 2, |s|)
  {
  }

  lemma HeapPrefix<T>(s: seq<T>, t: seq<T>, le: (T, T) -> bool)
    requires Heap(s, le)
    ensures HeapFrom(s + t, le, 0, |s|)
  {
  }

  // ----- Sorting

  ghost predicate Ascending<T>(s: seq<T>, le: (T, T) -> bool) { forall i, j :: 0 <= i < j < |s| ==> le(s[i], s[j]) }

  /** From `end` on the elements are ascending and no less than those before. */
  ghost predicate SortedFrom<T>(s: seq<T>, le: (T, T) -> bool, end: nat) {
    end <= |s| && forall i, j :: 0 <= i < j < |s| && j >= end ==> le(s[i], s[j])
  }

  lemma SortedNone<T>(s: seq<T>, le: (T, T) -> bool)
    ensures SortedFrom(s, le, |s|)
  {
  }

  lemma SortedAll<T>(s: seq<T>, le: (T, T) -> bool, end: nat)
    requires SortedFrom(s, le, end) && end <= 1
    ensures Ascending(s, le)
  {
  }

  /** Swapping the first of a heap with its last extends what is sorted. */
  lemma GreatestBack<T(!new)>(s: seq<T>, le: (T, T) -> bool, end: nat)
    requires TotalPreorder(le) && 0 < end < |s| && HeapFrom(s, le, 0, end + 1) && SortedFrom(s, le, end + 1)
    ensures var s' := s[0 := s[end]][end := s[0]];
      HeapFrom(s', le, 1, end) && SortedFrom(s', le, end) && multiset(s') == multiset(s)
  {
    var s' := s[0 := s[end]][end := s[0]];
    Swapped(s, 0, end);
    assert forall i :: 0 <= i < |s| ==> s'[i] == if i == 0 then s[end] else if i == end then s[0] else s[i];
    forall i | 0 <= i <= end ensures le(s[i], s[0]) { RootIsGreatest(s, le, end + 1, i); }
    forall i, j | 0 <= i < j < |s| && j >= end ensures le(s'[i], s'[j]) {
      if j > end { assert le(s[0], s[j]) && le(s[end], s[j]); }
    }
  }

  /** Shuffling what comes before leaves the rest sorted. */
  lemma SortedShuffled<T(!new)>(s: seq<T>, s': seq<T>, le: (T, T) -> bool, end: nat)
    requires SortedFrom(s, le, end) && Shuffled(s, s', 0, end)
    ensures SortedFrom(s', le, end)
  {
    FrontKept(s, s', end);
    forall i, j | 0 <= i < j < |s'| && j >= end ensures le(s'[i], s'[j]) {
      if i < end {
        assert s'[i] in s'[..end];
        assert s'[i] in multiset(s'[..end]);
        var k :| 0 <= k < end && s[k] == s'[i];
      }
    }
  }

  lemma SameFront<T>(a: multiset<T>, b: multiset<T>, c: multiset<T>)
    requires a + c == b + c
    ensures a == b
  {
    assert a == a + c - c && b == b + c - c;
  }

  lemma FrontKept<T>(s: seq<T>, s': seq<T>, end: nat)
    requires Shuffled(s, s', 0, end) && end <= |s|
    ensures multiset(s'[..end]) == multiset(s[..end])
    ensures forall x :: x in multiset(s[..end]) ==> exists k :: 0 <= k < end && s[k] == x
  {
    assert s[..end] + s[end..] == s && s'[..end] + s'[end..] == s' && s'[end..] == s[end..];
    SameFront(multiset(s[..end]), multiset(s'[..end]), multiset(s[end..]));
    forall x | x in multiset(s[..end]) ensures exists k :: 0 <= k < end && s[k] == x {
      assert x in s[..end];
      var k :| 0 <= k < end && s[..end][k] == x;
      assert s[k] == x;
    }
  }

  lemma AroundWithin<T>(s: seq<T>, le: (T, T) -> bool, start: nat, end: nat, hole: nat)
    requires HeapAround(s, le, start, end, hole) && Descends(hole, start)
    ensures start <= hole < end <= |s|
  {
  }

  lemma AroundTop<T>(s: seq<T>, le: (T, T) -> bool, pos: nat, end: nat)
    requires pos < end && HeapFrom(s, le, pos + 1, end)
    ensures end <= |s| && HeapAround(s, le, pos, end, pos) && (pos > 0 ==> Parent(pos) < pos)
  {
  }

  lemma AroundFilled<T>(s: seq<T>, le: (T, T) -> bool, start: nat, end: nat, hole: nat, elt: T)
    requires HeapAround(s, le, start, end, hole)
    ensures HeapAround(Filled(s, hole, elt), le, start, end, hole)
  {
  }

  lemma ShuffledSame<T>(s: seq<T>, start: nat, end: nat, hole: nat)
    requires hole < |s|
    ensures Shuffled(s, Filled(s, hole, s[hole]), start, end)
  {
    assert Filled(s, hole, s[hole]) == s;
  }

  lemma ShuffledLength<T>(s: seq<T>, start: nat, end: nat)
    ensures forall s': seq<T> :: Shuffled(s, s', start, end) ==> |s'| == |s|
  {
  }

  lemma ShuffledTrans<T>(s: seq<T>, s': seq<T>, s'': seq<T>, start: nat, end: nat)
    requires Shuffled(s, s', start, end) && Shuffled(s', s'', start, end)
    ensures Shuffled(s, s'', start, end) && |s''| == |s|
  {
  }

  lemma Total<T(!new)>(le: (T, T) -> bool, x: T, y: T)
    requires TotalPreorder(le) && !le(y, x)
    ensures le(x, y)
  {
  }

  lemma Below<T(!new)>(s: seq<T>, le: (T, T) -> bool, hole: nat, child: nat, end: nat, elt: T)
    requires TotalPreorder(le) && child < end <= |s| && le(s[child], elt)
    requires forall i :: 0 < i < end && Parent(i) == hole ==> le(s[i], s[child])
    ensures forall i :: 0 < i < end && Parent(i) == hole ==> le(s[i], elt)
  {
  }

  lemma Reflexive<T(!new)>(s: seq<T>, le: (T, T) -> bool, hole: nat, child: nat, end: nat)
    requires TotalPreorder(le) && end <= |s| && child < end
    requires forall i :: 0 < i < end && Parent(i) == hole ==> i == child
    ensures forall i :: 0 < i < end && Parent(i) == hole ==> le(s[i], s[child])
  {
  }

  // ----- Looking at the greatest element and changing it

  /** A changeable view of the first element of a heap. While it is out for change, the vector holds only that element;
      the others wait in `tail` for the view to be dropped or popped. */
  class PeekMut<T(!new)> {
    const heap: BinaryHeap<T>
    var tail: Option<seq<T>>
    ghost const was: seq<T>

    ghost predicate Out()
      reads this, heap
    {
      && TotalPreorder(heap.le) && Heap(was, heap.le) && was != []
      && (tail.None? ==> heap.data == was || (|was| == 1 && |heap.data| == 1))
      && (tail.Some? ==> |heap.data| == 1 && tail.value == was[1..])
    }

    constructor (heap: BinaryHeap<T>)
      requires heap.Valid() && heap.data != []
      ensures Out() && this.heap == heap && was == heap.data
    {
      this.heap, tail, was := heap, None, heap.data;
    }

    method Get() returns (x: T)
      requires Out()
      ensures heap.data != [] && x == heap.data[0]
    {
      x := heap.data[0];
    }

    /** Changes the element. */
    method Set(x: T)
      requires Out()
      modifies this`tail, heap`data
      ensures Out() && heap.data != [] && heap.data[0] == x
    {
      if |heap.data| > 1 {
        tail := Some(heap.data[1..]);
        heap.data := heap.data[..1];
      }
      heap.data := heap.data[0 := x];
    }

    /** Dropping the view puts the element where it fits. */
    method Drop()
      requires Out()
      modifies this`tail, heap`data
      ensures heap.Valid() && old(heap.data) != [] && multiset(heap.data) == multiset(was[0 := old(heap.data[0])])
    {
      hide HeapFrom, TotalPreorder, Shuffled;
      if tail.Some? {
        heap.data := heap.data + tail.value;
        assert heap.data == was[0 := heap.data[0]];
        RootChanged(was, heap.le, heap.data[0]);
        ghost var d := heap.data;
        heap.SiftDown(0);
        ShuffledKeeps(d, heap.data, 0, |heap.data|);
        tail := None;
      } else {
        OneHeap(heap.data, heap.le);
        assert |was| == 1 ==> was[0 := heap.data[0]] == heap.data;
        assert was[0 := was[0]] == was;
      }
    }

    /** Popping takes the element out, whatever it has become. */
    method Pop() returns (x: T)
      requires Out()
      modifies this`tail, heap`data
      ensures heap.Valid() && old(heap.data) != [] && x == old(heap.data[0])
      ensures multiset(heap.data) == multiset(was[1..])
    {
      hide HeapFrom, TotalPreorder, Shuffled;
      if tail.Some? {
        heap.data := heap.data + tail.value;
        tail := None;
      }
      ghost var d := heap.data;
      RootChanged(was, heap.le, heap.data[0]);
      assert d == was[0 := d[0]];
      var item := heap.Pop();
      RestOf(d);
      assert d[1..] == was[1..];
      x := item.value;
    }
  }

  lemma RootChanged<T>(s: seq<T>, le: (T, T) -> bool, x: T)
    requires Heap(s, le) && s != []
    ensures HeapFrom(s[0 := x], le, 1, |s|)
  {
  }

  lemma OneHeap<T>(s: seq<T>, le: (T, T) -> bool)
    ensures |s| == 1 ==> Heap(s, le)
  {
  }

  lemma RestOf<T>(s: seq<T>)
    requires s != []
    ensures multiset(s) - multiset{s[0]} == multiset(s[1..])
  {
    assert s == [s[0]] + s[1..];
  }

  // ----- Runs

  datatype Op<T> = Push(item: T) | Pop

  /** What pops answer is what a bag allows: nothing if it is empty, and else a greatest element, which leaves it. */
  ghost predicate Answers<T(!new)>(bag: multiset<T>, ops: seq<Op<T>>, answers: seq<Option<T>>, le: (T, T) -> bool,
                                   end: multiset<T>)
    decreases |ops|
  {
    if ops == [] then
      answers == [] && end == bag
    else match ops[0]
      case Push(x) => Answers(bag + multiset{x}, ops[1..], answers, le, end)
      case Pop =>
        && answers != []
        && if answers[0].None? then bag == multiset{} && Answers(bag, ops[1..], answers[1..], le, end)
        else
          var x := answers[0].value;
          x in bag && (forall y :: y in bag ==> le(y, x)) && Answers(bag - multiset{x}, ops[1..], answers[1..], le, end)
  }

  lemma AnswersNothing<T(!new)>(bag: multiset<T>, answers: seq<Option<T>>, le: (T, T) -> bool, end: multiset<T>)
    ensures Answers(bag, [], answers, le, end) <==> answers == [] && end == bag
  {
  }

  lemma AnswersPush<T(!new)>(bag: multiset<T>, x: T, ops: seq<Op<T>>, answers: seq<Option<T>>, le: (T, T) -> bool,
                             end: multiset<T>)
    ensures Answers(bag, [Push(x)] + ops, answers, le, end) <==> Answers(bag + multiset{x}, ops, answers, le, end)
  {
    assert ([Push(x)] + ops)[1..] == ops;
  }

  /** A pop takes a greatest element, and answers nothing exactly on an empty bag. */
  lemma AnswersPop<T(!new)>(bag: multiset<T>, x: Option<T>, ops: seq<Op<T>>, answers: seq<Option<T>>,
                            le: (T, T) -> bool, end: multiset<T>)
    ensures Answers(bag, [Pop] + ops, [x] + answers, le, end) ==> (x.None? <==> bag == multiset{})
    ensures Answers(bag, [Pop] + ops, [x] + answers, le, end) <==>
      match x
      case None => bag == multiset{} && Answers(bag, ops, answers, le, end)
      case Some(y) =>
        y in bag && (forall z :: z in bag ==> le(z, y)) && Answers(bag - multiset{y}, ops, answers, le, end)
  {
    assert ([Pop] + ops)[1..] == ops && ([x] + answers)[1..] == answers;
  }

  lemma AnswersSome<T(!new)>(bag: multiset<T>, ops: seq<Op<T>>, answers: seq<Option<T>>, le: (T, T) -> bool,
                             end: multiset<T>)
    ensures Answers(bag, [Pop] + ops, answers, le, end) ==> answers != []
  {
  }

  /** The answers of a run are those of its first part and those of the rest on the bag it leaves. */
  lemma {:induction false} AnswersConcat<T(!new)>(bag: multiset<T>, ops: seq<Op<T>>, answers: seq<Option<T>>,
                                                  le: (T, T) -> bool, end: multiset<T>, k: nat)
    returns (mid: multiset<T>, n: nat)
    requires Answers(bag, ops, answers, le, end) && k <= |ops|
    ensures n <= |answers| && Answers(bag, ops[..k], answers[..n], le, mid)
    ensures Answers(mid, ops[k..], answers[n..], le, end)
    decreases k
  {
    hide Answers;
    if k == 0 {
      mid, n := bag, 0;
      AnswersNothing(bag, [], le, bag);
      assert ops[..0] == [] && answers[..0] == [] && answers[0..] == answers && ops[0..] == ops;
    } else {
      var rest := ops[1..];
      assert ops == [ops[0]] + rest && rest[k - 1..] == ops[k..] && ops[..k] == [ops[0]] + rest[..k - 1];
      match ops[0] {
        case Push(x) =>
          AnswersPush(bag, x, rest, answers, le, end);
          mid, n := AnswersConcat(bag + multiset{x}, rest, answers, le, end, k - 1);
          AnswersPush(bag, x, rest[..k - 1], answers[..n], le, mid);
        case Pop =>
          AnswersSome(bag, rest, answers, le, end);
          var a, later := answers[0], answers[1..];
          assert answers == [a] + later;
          AnswersPop(bag, a, rest, later, le, end);
          mid, n := AnswersConcat(if a.None? then bag else bag - multiset{a.value}, rest, later, le, end, k - 1);
          AnswersPop(bag, a, rest[..k - 1], later[..n], le, mid);
          assert answers[..n + 1] == [a] + later[..n] && answers[n + 1..] == later[n..];
          n := n + 1;
      }
    }
  }

  /** Nothing gets lost: what was there and pushed is what was popped and is left. */
  lemma {:induction false} AnswersConserve<T(!new)>(bag: multiset<T>, ops: seq<Op<T>>, answers: seq<Option<T>>,
                                                    le: (T, T) -> bool, end: multiset<T>)
    requires Answers(bag, ops, answers, le, end)
    ensures bag + Pushed(ops) == Given(answers) + end
    decreases |ops|
  {
    if ops != [] {
      var rest := ops[1..];
      match ops[0] {
        case Push(x) =>
          AnswersConserve(bag + multiset{x}, rest, answers, le, end);
          Rearranged(bag, multiset{x}, Pushed(rest), Given(answers), end);
        case Pop =>
          var (a, later) := (answers[0], answers[1..]);
          var taken := if a.Some? then multiset{a.value} else multiset{};
          assert bag == bag - taken + taken;
          AnswersConserve(bag - taken, rest, later, le, end);
          Rearranged(bag - taken, taken, Pushed(rest), Given(later), end);
      }
    }
  }

  lemma Rearranged<T>(a: multiset<T>, x: multiset<T>, p: multiset<T>, g: multiset<T>, end: multiset<T>)
    ensures a + x + p == g + end ==> a + (x + p) == g + end
    ensures a + p == g + end ==> a + x + (multiset{} + p) == x + g + end
  {
    assert multiset{} + p == p && a + x + p == x + (a + p) && x + (g + end) == x + g + end;
  }

  ghost function Pushed<T>(ops: seq<Op<T>>): multiset<T> {
    if ops == [] then multiset{} else (if ops[0].Push? then multiset{ops[0].item} else multiset{}) + Pushed(ops[1..])
  }

  ghost function Given<T>(answers: seq<Option<T>>): multiset<T> {
    if answers == [] then multiset{}
    else (if answers[0].Some? then multiset{answers[0].value} else multiset{}) + Given(answers[1..])
  }

  /** Any run of pushes and pops on a heap is one on a bag from which greatest elements are taken. */
  method Run<T(!new)>(heap: BinaryHeap<T>, ops: seq<Op<T>>) returns (answers: seq<Option<T>>)
    requires heap.Valid()
    modifies heap`data
    ensures heap.Valid() && Answers(multiset(old(heap.data)), ops, answers, heap.le, multiset(heap.data))
    decreases |ops|
  {
    hide HeapFrom, TotalPreorder;
    if ops == [] { return []; }
    ghost var was := heap.data;
    match ops[0] {
      case Push(x) =>
        heap.Push(x);
        answers := Run(heap, ops[1..]);
      case Pop =>
        HeapButRoot(was, heap.le);
        var item := heap.Pop();
        ghost var now := heap.data;
        if item.None? { assert multiset(was) == multiset{}; }
        var rest := Run(heap, ops[1..]);
        answers := [item] + rest;
        assert answers[1..] == rest;
    }
  }

  lemma HeapButRoot<T>(s: seq<T>, le: (T, T) -> bool)
    requires Heap(s, le)
    ensures HeapFrom(s, le, 1, |s|)
  {
  }
}
