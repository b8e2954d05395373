/** The algebra of ordered sets: difference and intersection of ascending sequences by immediate answer, search or
    stitching, union and symmetric difference by merging, and inclusion. */
module Sets {
  import opened Options
  import opened Search
  import Trees

  // ----- Orders and ascending sequences

  /** A comparison that ranks all elements; different elements may be equivalent. */
  ghost predicate Ranks<T(!new)>(cmp: (T, T) -> Ordering) {
    && (forall x :: cmp(x, x) == Equal) && (forall x, y :: cmp(x, y) == Less <==> cmp(y, x) == Greater)
    && (forall x, y, z :: cmp(x, y) != Greater && cmp(y, z) != Greater ==> cmp(x, z) != Greater)
  }

  lemma RanksOn<T(!new)>(cmp: (T, T) -> Ordering, x: T, y: T, z: T)
    requires Ranks(cmp)
    ensures cmp(x, y) == Less && cmp(y, z) != Greater ==> cmp(x, z) == Less
    ensures cmp(x, y) != Greater && cmp(y, z) == Less ==> cmp(x, z) == Less
    ensures cmp(x, y) == Equal && cmp(y, z) == Equal ==> cmp(x, z) == Equal
    ensures cmp(x, y) == Equal <==> cmp(y, x) == Equal
    ensures cmp(x, y) == Less <==> cmp(y, x) == Greater
  {
    assert cmp(x, z) == Less <==> cmp(z, x) == Greater;
    assert cmp(z, x) == Less <==> cmp(x, z) == Greater;
    if cmp(x, z) != Less { assert cmp(z, x) != Greater; }
  }

  ghost predicate Ascending<T>(s: seq<T>, cmp: (T, T) -> Ordering) {
    forall i, j :: 0 <= i < j < |s| ==> cmp(s[i], s[j]) == Less
  }

  /** Whether a sequence has an element equivalent to `x`. */
  predicate Has<T>(s: seq<T>, cmp: (T, T) -> Ordering, x: T) { exists i :: 0 <= i < |s| && cmp(x, s[i]) == Equal }

  lemma HasMeans<T>(s: seq<T>, cmp: (T, T) -> Ordering, x: T)
    ensures Has(s, cmp, x) <==> exists y :: y in s && cmp(x, y) == Equal
  {
    if y :| y in s && cmp(x, y) == Equal { HasIn(s, cmp, x, y); }
  }

  lemma HasIn<T>(s: seq<T>, cmp: (T, T) -> Ordering, x: T, y: T)
    requires y in s && cmp(x, y) == Equal
    ensures Has(s, cmp, x)
  {
    var i :| 0 <= i < |s| && s[i] == y;
  }

  lemma HasSplit<T>(s: seq<T>, cmp: (T, T) -> Ordering, x: T)
    requires s != []
    ensures Has(s, cmp, x) <==> cmp(x, s[0]) == Equal || Has(s[1..], cmp, x)
    ensures Has(s, cmp, x) <==> cmp(x, s[|s| - 1]) == Equal || Has(s[..|s| - 1], cmp, x)
  {
    assert forall i :: 0 <= i < |s| - 1 ==> s[1..][i] == s[i + 1];
    assert forall i :: 1 <= i < |s| ==> s[i] == s[1..][i - 1];
    assert forall i :: 0 <= i < |s| - 1 ==> s[..|s| - 1][i] == s[i];
  }

  // ----- What the operations mean

  /** The elements of `a` without an equivalent in `b`, in order. */
  ghost function Minus<T>(a: seq<T>, b: seq<T>, cmp: (T, T) -> Ordering): seq<T> {
    if a == [] then [] else (if Has(b, cmp, a[0]) then [] else [a[0]]) + Minus(a[1..], b, cmp)
  }

  /** The elements of `a` with an equivalent in `b`, in order. */
  ghost function Meet<T>(a: seq<T>, b: seq<T>, cmp: (T, T) -> Ordering): seq<T> {
    if a == [] then [] else (if Has(b, cmp, a[0]) then [a[0]] else []) + Meet(a[1..], b, cmp)
  }

  lemma {:induction false} MinusMeetIn<T>(a: seq<T>, b: seq<T>, cmp: (T, T) -> Ordering)
    ensures forall x :: x in Minus(a, b, cmp) <==> x in a && !Has(b, cmp, x)
    ensures forall x :: x in Meet(a, b, cmp) <==> x in a && Has(b, cmp, x)
  {
    if a != [] {
      MinusMeetIn(a[1..], b, cmp);
      assert a == [a[0]] + a[1..];
    }
  }

  lemma AscendingWith<T>(x: T, s: seq<T>, cmp: (T, T) -> Ordering)
    requires Ascending(s, cmp) && forall y :: y in s ==> cmp(x, y) == Less
    ensures Ascending([x] + s, cmp)
  {
    var f := [x] + s;
    forall i, j | 0 <= i < j < |f| ensures cmp(f[i], f[j]) == Less {
      assert f[j] == s[j - 1];
    }
  }

  lemma AscendingRest<T>(s: seq<T>, cmp: (T, T) -> Ordering)
    requires Ascending(s, cmp) && s != []
    ensures Ascending(s[1..], cmp) && Ascending(s[..|s| - 1], cmp)
    ensures forall x :: x in s[1..] ==> cmp(s[0], x) == Less
    ensures var last := s[|s| - 1]; forall x :: x in s[..|s| - 1] ==> cmp(x, last) == Less
  {
  }

  lemma {:induction false} MinusMeetAscend<T>(a: seq<T>, b: seq<T>, cmp: (T, T) -> Ordering)
    requires Ascending(a, cmp)
    ensures Ascending(Minus(a, b, cmp), cmp) && Ascending(Meet(a, b, cmp), cmp)
  {
    if a != [] {
      AscendingRest(a, cmp);
      MinusMeetAscend(a[1..], b, cmp);
      MinusMeetIn(a[1..], b, cmp);
      var (m, n) := (Minus(a[1..], b, cmp), Meet(a[1..], b, cmp));
      forall y | y in m ensures cmp(a[0], y) == Less { assert y in a[1..]; }
      forall y | y in n ensures cmp(a[0], y) == Less { assert y in a[1..]; }
      AscendingWith(a[0], m, cmp);
      AscendingWith(a[0], n, cmp);
      assert [] + Minus(a[1..], b, cmp) == Minus(a[1..], b, cmp) && [] + Meet(a[1..], b, cmp) == Meet(a[1..], b, cmp);
    }
  }

  lemma AscendingHead<T(!new)>(s: seq<T>, cmp: (T, T) -> Ordering)
    requires Ranks(cmp) && Ascending(s, cmp)
    ensures s != [] ==> s[0] in s && Ascending(s[1..], cmp) && forall x :: x in s[1..] <==> x in s && x != s[0]
    ensures s != [] ==> forall x :: x in s && x != s[0] ==> cmp(s[0], x) == Less && cmp(x, s[0]) != Less
  {
    if s != [] {
      AscendingRest(s, cmp);
      assert s == [s[0]] + s[1..];
      forall x | x in s[1..] ensures x != s[0] && cmp(x, s[0]) != Less { RanksOn(cmp, s[0], x, s[0]); }
    }
  }

  /** Ascending sequences with the same elements are the same. */
  lemma {:induction false} AscendingUnique<T(!new)>(s: seq<T>, t: seq<T>, cmp: (T, T) -> Ordering)
    requires Ranks(cmp) && Ascending(s, cmp) && Ascending(t, cmp) && forall x :: x in s <==> x in t
    ensures s == t
  {
    AscendingHead(s, cmp);
    AscendingHead(t, cmp);
    if s != [] && t != [] { AscendingUnique(s[1..], t[1..], cmp); }
  }

  /** Only whether the elements of `a` are met in `b` counts. */
  lemma {:induction false} SameMet<T>(a: seq<T>, b: seq<T>, b': seq<T>, cmp: (T, T) -> Ordering)
    requires forall x :: x in a ==> (Has(b, cmp, x) <==> Has(b', cmp, x))
    ensures Minus(a, b, cmp) == Minus(a, b', cmp) && Meet(a, b, cmp) == Meet(a, b', cmp)
  {
    if a != [] {
      assert a[0] in a;
      SameMet(a[1..], b, b', cmp);
    }
  }

  lemma {:induction false} NoneMet<T>(a: seq<T>, b: seq<T>, cmp: (T, T) -> Ordering)
    requires forall x :: x in a ==> !Has(b, cmp, x)
    ensures Minus(a, b, cmp) == a && Meet(a, b, cmp) == []
  {
    if a != [] {
      assert a[0] in a;
      NoneMet(a[1..], b, cmp);
    }
  }

  lemma MinusMeetHead<T>(x: T, a: seq<T>, b: seq<T>, cmp: (T, T) -> Ordering)
    ensures Minus([x] + a, b, cmp) == (if Has(b, cmp, x) then [] else [x]) + Minus(a, b, cmp)
    ensures Meet([x] + a, b, cmp) == (if Has(b, cmp, x) then [x] else []) + Meet(a, b, cmp)
  {
    assert ([x] + a)[1..] == a;
  }

  lemma {:induction false} MetInTwo<T>(a: seq<T>, a': seq<T>, b: seq<T>, cmp: (T, T) -> Ordering)
    ensures Minus(a + a', b, cmp) == Minus(a, b, cmp) + Minus(a', b, cmp)
    ensures Meet(a + a', b, cmp) == Meet(a, b, cmp) + Meet(a', b, cmp)
  {
    hide Has;
    if a == [] {
      assert a + a' == a';
    } else {
      var rest := a[1..];
      assert a + a' == [a[0]] + (rest + a');
      MinusMeetHead(a[0], rest + a', b, cmp);
      MinusMeetHead(a[0], rest, b, cmp);
      assert [a[0]] + rest == a;
      MetInTwo(rest, a', b, cmp);
      var met := Has(b, cmp, a[0]);
      Trees.Associative(if met then [] else [a[0]], Minus(rest, b, cmp), Minus(a', b, cmp));
      Trees.Associative(if met then [a[0]] else [], Meet(rest, b, cmp), Meet(a', b, cmp));
    }
  }

  // ----- Facts about heads of ascending sequences

  /** Something below the head of a sequence is not in it. */
  lemma BelowHead<T(!new)>(s: seq<T>, cmp: (T, T) -> Ordering, x: T)
    requires Ranks(cmp) && Ascending(s, cmp) && s != [] && cmp(x, s[0]) == Less
    ensures !Has(s, cmp, x)
  {
    forall i | 0 <= i < |s| ensures cmp(x, s[i]) != Equal {
      RanksOn(cmp, x, s[0], s[i]);
    }
  }

  /** Nor is something above its last element. */
  lemma AboveLast<T(!new)>(s: seq<T>, cmp: (T, T) -> Ordering, x: T)
    requires Ranks(cmp) && Ascending(s, cmp) && s != [] && cmp(x, s[|s| - 1]) == Greater
    ensures !Has(s, cmp, x)
  {
    forall i | 0 <= i < |s| ensures cmp(x, s[i]) != Equal {
      RanksOn(cmp, s[i], s[|s| - 1], x);
      RanksOn(cmp, x, s[i], x);
    }
  }

  /** A head that no element of `a` can meet may go. */
  lemma HeadUnmet<T(!new)>(a: seq<T>, b: seq<T>, cmp: (T, T) -> Ordering)
    requires Ranks(cmp) && b != [] && forall x :: x in a ==> cmp(b[0], x) == Less
    ensures Minus(a, b, cmp) == Minus(a, b[1..], cmp) && Meet(a, b, cmp) == Meet(a, b[1..], cmp)
  {
    forall x | x in a ensures Has(b, cmp, x) <==> Has(b[1..], cmp, x) {
      HasSplit(b, cmp, x);
      RanksOn(cmp, x, b[0], x);
    }
    SameMet(a, b, b[1..], cmp);
  }

  // ----- Where two sets lie side by side

  /** If `a` starts behind `b`, they do not meet; if it starts where `b` ends, they meet there only. */
  lemma StartsAtEnd<T(!new)>(a: seq<T>, b: seq<T>, cmp: (T, T) -> Ordering)
    requires Ranks(cmp) && Ascending(a, cmp) && Ascending(b, cmp) && a != [] && b != []
    ensures cmp(a[0], b[|b| - 1]) == Greater ==> Minus(a, b, cmp) == a && Meet(a, b, cmp) == []
    ensures cmp(a[0], b[|b| - 1]) == Equal ==> Minus(a, b, cmp) == a[1..] && Meet(a, b, cmp) == [a[0]]
  {
    var last := b[|b| - 1];
    if cmp(a[0], last) != Less {
      forall x | x in a[1..] ensures !Has(b, cmp, x) {
        RanksOn(cmp, last, a[0], x);
        RanksOn(cmp, a[0], last, a[0]);
        RanksOn(cmp, x, last, x);
        AboveLast(b, cmp, x);
      }
      NoneMet(a[1..], b, cmp);
      if cmp(a[0], last) == Greater { AboveLast(b, cmp, a[0]); } else { HasIn(b, cmp, a[0], last); }
      assert a == [a[0]] + a[1..];
    }
  }

  /** If `a` ends before `b`, they do not meet; if it ends where `b` starts, they meet there only. */
  lemma EndsAtStart<T(!new)>(a: seq<T>, b: seq<T>, cmp: (T, T) -> Ordering)
    requires Ranks(cmp) && Ascending(a, cmp) && Ascending(b, cmp) && a != [] && b != []
    ensures cmp(a[|a| - 1], b[0]) == Less ==> Minus(a, b, cmp) == a && Meet(a, b, cmp) == []
    ensures cmp(a[|a| - 1], b[0]) == Equal ==> Minus(a, b, cmp) == a[..|a| - 1] && Meet(a, b, cmp) == [a[|a| - 1]]
  {
    var (front, last) := (a[..|a| - 1], a[|a| - 1]);
    if cmp(last, b[0]) != Greater {
      forall x | x in front ensures !Has(b, cmp, x) {
        RanksOn(cmp, x, last, b[0]);
        BelowHead(b, cmp, x);
      }
      NoneMet(front, b, cmp);
      assert a == front + [last];
      MetInTwo(front, [last], b, cmp);
      if cmp(last, b[0]) == Less { BelowHead(b, cmp, last); } else { HasIn(b, cmp, last, b[0]); }
    }
  }

  // ----- Difference

  const TIPPING_SIZE_DIFF := 16

  /** How a difference goes about: hand out what is left, or look each element up in the other set, or walk both. */
  datatype DifferenceWay<T> =
    | Iterate(rest: seq<T>)
    | SearchIn(rest: seq<T>, other: seq<T>)
    | Stitch(rest: seq<T>, otherRest: seq<T>)

  /** The way chosen for two sets. */
  function DifferenceOf<T>(a: seq<T>, b: seq<T>, cmp: (T, T) -> Ordering): DifferenceWay<T> {
    if a == [] || b == [] then
      Iterate(a)
    else
      var (start, end) := (cmp(a[0], b[|b| - 1]), cmp(a[|a| - 1], b[0]));
      if start == Greater || end == Less then Iterate(a)
      else if start == Equal then Iterate(a[1..])
      else if end == Equal then Iterate(a[..|a| - 1])
      else if |a| <= |b| / TIPPING_SIZE_DIFF then SearchIn(a, b)
      else Stitch(a, b)
  }

  ghost function DifferenceLeft<T>(way: DifferenceWay<T>, cmp: (T, T) -> Ordering): seq<T> {
    match way
    case Iterate(rest) => rest
    case SearchIn(rest, other) => Minus(rest, other, cmp)
    case Stitch(rest, otherRest) => Minus(rest, otherRest, cmp)
  }

  ghost predicate DifferenceIn<T>(way: DifferenceWay<T>, cmp: (T, T) -> Ordering) {
    way.Stitch? ==> Ascending(way.rest, cmp) && Ascending(way.otherRest, cmp)
  }

  /** Every way gives the same: what is in the one set and not in the other, ascending. */
  lemma DifferenceIsMinus<T(!new)>(a: seq<T>, b: seq<T>, cmp: (T, T) -> Ordering)
    requires Ranks(cmp) && Ascending(a, cmp) && Ascending(b, cmp)
    ensures DifferenceLeft(DifferenceOf(a, b, cmp), cmp) == Minus(a, b, cmp) && Ascending(Minus(a, b, cmp), cmp)
    ensures forall x :: x in Minus(a, b, cmp) <==> x in a && !Has(b, cmp, x)
    ensures DifferenceIn(DifferenceOf(a, b, cmp), cmp)
  {
    MinusMeetAscend(a, b, cmp);
    MinusMeetIn(a, b, cmp);
    if b == [] {
      NoneMet(a, b, cmp);
    } else if a != [] {
      StartsAtEnd(a, b, cmp);
      EndsAtStart(a, b, cmp);
    }
  }

  /** One step of walking both: what the heads of `self` and `other` say. */
  lemma StitchMinus<T(!new)>(x: T, a: seq<T>, b: seq<T>, cmp: (T, T) -> Ordering)
    requires Ranks(cmp) && Ascending([x] + a, cmp) && Ascending(b, cmp)
    ensures Ascending(a, cmp) && (b == [] || cmp(x, b[0]) == Less ==> Minus([x] + a, b, cmp) == [x] + Minus(a, b, cmp))
    ensures b != [] ==> Ascending(b[1..], cmp)
    ensures b != [] && cmp(x, b[0]) == Equal ==> Minus([x] + a, b, cmp) == Minus(a, b[1..], cmp)
    ensures b != [] && cmp(x, b[0]) == Greater ==> Minus([x] + a, b, cmp) == Minus([x] + a, b[1..], cmp)
  {
    var s := [x] + a;
    AscendingRest(s, cmp);
    assert s[1..] == a;
    if b != [] {
      AscendingRest(b, cmp);
      HasSplit(b, cmp, x);
      if cmp(x, b[0]) == Less { BelowHead(b, cmp, x); }
      if cmp(x, b[0]) == Equal {
        forall y | y in a ensures cmp(b[0], y) == Less { RanksOn(cmp, x, b[0], x); RanksOn(cmp, b[0], x, y); }
        HeadUnmet(a, b, cmp);
      }
      if cmp(x, b[0]) == Greater {
        forall y | y in s ensures cmp(b[0], y) == Less {
          RanksOn(cmp, b[0], x, x);
          if y in a { RanksOn(cmp, b[0], x, y); }
        }
        HeadUnmet(s, b, cmp);
      }
    }
  }

  class Difference<T(!new)> {
    var way: DifferenceWay<T>
    const cmp: (T, T) -> Ordering

    ghost predicate Valid()
      reads this
    {
      Ranks(cmp) && DifferenceIn(way, cmp)
    }

    ghost function Rest(): seq<T>
      reads this
    {
      DifferenceLeft(way, cmp)
    }

    constructor (a: seq<T>, b: seq<T>, cmp: (T, T) -> Ordering)
      requires Ranks(cmp) && Ascending(a, cmp) && Ascending(b, cmp)
      ensures Valid() && this.cmp == cmp && Rest() == Minus(a, b, cmp) && Ascending(Rest(), cmp)
      ensures forall x :: x in Rest() <==> x in a && !Has(b, cmp, x)
    {
      this.cmp, way := cmp, DifferenceOf(a, b, cmp);
      DifferenceIsMinus(a, b, cmp);
    }

    method Next() returns (x: Option<T>)
      requires Valid()
      modifies this`way
      ensures Valid()
      ensures var f := old(Rest()); if f == [] then x == None && Rest() == f else x == Some(f[0]) && Rest() == f[1..]
    {
      match way {
        case Iterate(rest) =>
          if rest == [] { return None; }
          x, way := Some(rest[0]), Iterate(rest[1..]);
        case SearchIn(rest, other) =>
          while true
            invariant way.SearchIn? && way.other == other && Rest() == old(Rest())
            decreases |way.rest|
          {
            if way.rest == [] { return None; }
            var next := way.rest[0];
            way := SearchIn(way.rest[1..], other);
            if !Has(other, cmp, next) { return Some(next); }
          }
        case Stitch(rest, otherRest) =>
          x := StitchNext(rest, otherRest);
      }
    }

    method StitchNext(rest: seq<T>, otherRest: seq<T>) returns (x: Option<T>)
      requires Valid() && way == Stitch(rest, otherRest)
      modifies this`way
      ensures Valid()
      ensures var f := old(Rest()); if f == [] then x == None && Rest() == f else x == Some(f[0]) && Rest() == f[1..]
    {
      hide Ranks, Ascending;
      if rest == [] { return None; }
      var next, a, b := rest[0], rest[1..], otherRest;
      assert [next] + a == rest;
      while true
        invariant Ascending([next] + a, cmp) && Ascending(b, cmp) && Minus([next] + a, b, cmp) == old(Rest())
        decreases |a| + |b|
      {
        StitchMinus(next, a, b, cmp);
        match if b == [] then Less else cmp(next, b[0]) {
          case Less =>
            way := Stitch(a, b);
            return Some(next);
          case Equal =>
            if a == [] {
              way := Stitch(a, b);
              return None;
            }
            assert [a[0]] + a[1..] == a;
            next, a, b := a[0], a[1..], b[1..];
          case Greater =>
            b := b[1..];
        }
      }
    }
  }

  // ----- Intersection

  /** How an intersection goes about: the answer is known, or look each element of one set up in the other, or walk
      both. */
  datatype IntersectionWay<T> =
    | Answer(x: Option<T>)
    | SearchFor(small: seq<T>, large: seq<T>)
    | StitchBoth(a: seq<T>, b: seq<T>)

  function IntersectionOf<T>(a: seq<T>, b: seq<T>, cmp: (T, T) -> Ordering): IntersectionWay<T> {
    if a == [] || b == [] then
      Answer(None)
    else
      var (start, end) := (cmp(a[0], b[|b| - 1]), cmp(a[|a| - 1], b[0]));
      if start == Greater || end == Less then Answer(None)
      else if start == Equal then Answer(Some(a[0]))
      else if end == Equal then Answer(Some(a[|a| - 1]))
      else if |a| <= |b| / TIPPING_SIZE_DIFF then SearchFor(a, b)
      else if |b| <= |a| / TIPPING_SIZE_DIFF then SearchFor(b, a)
      else StitchBoth(a, b)
  }

  ghost function IntersectionLeft<T>(way: IntersectionWay<T>, cmp: (T, T) -> Ordering): seq<T> {
    match way
    case Answer(x) => if x.Some? then [x.value] else []
    case SearchFor(small, large) => Meet(small, large, cmp)
    case StitchBoth(a, b) => Meet(a, b, cmp)
  }

  ghost predicate IntersectionIn<T>(way: IntersectionWay<T>, cmp: (T, T) -> Ordering) {
    way.StitchBoth? ==> Ascending(way.a, cmp) && Ascending(way.b, cmp)
  }

  /** Element by element equivalent. */
  ghost predicate Alike<T>(s: seq<T>, t: seq<T>, cmp: (T, T) -> Ordering) {
    |s| == |t| && forall i :: 0 <= i < |s| ==> cmp(s[i], t[i]) == Equal
  }

  /** One step of walking both sets. */
  lemma StitchMeet<T(!new)>(a: seq<T>, b: seq<T>, cmp: (T, T) -> Ordering)
    requires Ranks(cmp) && Ascending(a, cmp) && Ascending(b, cmp) && a != [] && b != []
    ensures Ascending(a[1..], cmp) && Ascending(b[1..], cmp)
    ensures cmp(a[0], b[0]) == Less ==> Meet(a, b, cmp) == Meet(a[1..], b, cmp)
    ensures cmp(a[0], b[0]) == Greater ==> Meet(a, b, cmp) == Meet(a, b[1..], cmp)
    ensures cmp(a[0], b[0]) == Equal ==> Meet(a, b, cmp) == [a[0]] + Meet(a[1..], b[1..], cmp)
  {
    AscendingRest(a, cmp);
    AscendingRest(b, cmp);
    HasSplit(b, cmp, a[0]);
    if cmp(a[0], b[0]) == Less { BelowHead(b, cmp, a[0]); }
    if cmp(a[0], b[0]) == Greater {
      forall y | y in a ensures cmp(b[0], y) == Less {
        RanksOn(cmp, b[0], a[0], a[0]);
        if y != a[0] {
          assert a == [a[0]] + a[1..];
          RanksOn(cmp, b[0], a[0], y);
        }
      }
      HeadUnmet(a, b, cmp);
    }
    if cmp(a[0], b[0]) == Equal {
      forall y | y in a[1..] ensures cmp(b[0], y) == Less {
        RanksOn(cmp, a[0], b[0], a[0]);
        RanksOn(cmp, b[0], a[0], y);
      }
      HeadUnmet(a[1..], b, cmp);
    }
  }

  /** The common elements are the same whichever set they are taken from, up to equivalence. */
  lemma {:induction false} MeetEitherWay<T(!new)>(a: seq<T>, b: seq<T>, cmp: (T, T) -> Ordering)
    requires Ranks(cmp) && Ascending(a, cmp) && Ascending(b, cmp)
    ensures Alike(Meet(a, b, cmp), Meet(b, a, cmp), cmp)
    decreases |a| + |b|
  {
    if a == [] {
      NoneMet(b, a, cmp);
    } else if b == [] {
      NoneMet(a, b, cmp);
    } else {
      StitchMeet(a, b, cmp);
      StitchMeet(b, a, cmp);
      RanksOn(cmp, a[0], b[0], a[0]);
      RanksOn(cmp, b[0], a[0], b[0]);
      match cmp(a[0], b[0])
      case Less => MeetEitherWay(a[1..], b, cmp);
      case Greater => MeetEitherWay(a, b[1..], cmp);
      case Equal => MeetEitherWay(a[1..], b[1..], cmp);
    }
  }

  lemma AlikeSelf<T(!new)>(s: seq<T>, cmp: (T, T) -> Ordering)
    requires Ranks(cmp)
    ensures Alike(s, s, cmp)
  {
  }

  /** Every way gives the same: what is in both sets, ascending, taken from the first; but from the second if that is
      much smaller and the ends do not decide. */
  lemma IntersectionIsMeet<T(!new)>(a: seq<T>, b: seq<T>, cmp: (T, T) -> Ordering)
    requires Ranks(cmp) && Ascending(a, cmp) && Ascending(b, cmp)
    ensures var way := IntersectionOf(a, b, cmp);
      && IntersectionIn(way, cmp) && Alike(IntersectionLeft(way, cmp), Meet(a, b, cmp), cmp)
      && Ascending(IntersectionLeft(way, cmp), cmp)
      && IntersectionLeft(way, cmp) ==
         if a != [] && |b| <= |a| / TIPPING_SIZE_DIFF && b != [] && cmp(a[0], b[|b| - 1]) == Less
            && cmp(a[|a| - 1], b[0]) == Greater
         then Meet(b, a, cmp) else Meet(a, b, cmp)
    ensures forall x :: x in Meet(a, b, cmp) <==> x in a && Has(b, cmp, x)
  {
    hide Ranks, Ascending, Meet, Minus;
    MinusMeetIn(a, b, cmp);
    MinusMeetAscend(a, b, cmp);
    MinusMeetAscend(b, a, cmp);
    MeetEitherWay(b, a, cmp);
    AlikeSelf(Meet(a, b, cmp), cmp);
    NothingMeets(a, b, cmp);
    if a != [] && b != [] {
      StartsAtEnd(a, b, cmp);
      EndsAtStart(a, b, cmp);
    }
  }

  class Intersection<T(!new)> {
    var way: IntersectionWay<T>
    const cmp: (T, T) -> Ordering

    ghost predicate Valid()
      reads this
    {
      Ranks(cmp) && IntersectionIn(way, cmp)
    }

    ghost function Rest(): seq<T>
      reads this
    {
      IntersectionLeft(way, cmp)
    }

    constructor (a: seq<T>, b: seq<T>, cmp: (T, T) -> Ordering)
      requires Ranks(cmp) && Ascending(a, cmp) && Ascending(b, cmp)
      ensures Valid() && this.cmp == cmp && Alike(Rest(), Meet(a, b, cmp), cmp) && Ascending(Rest(), cmp)
      ensures Rest() ==
        if a != [] && |b| <= |a| / TIPPING_SIZE_DIFF && b != [] && cmp(a[0], b[|b| - 1]) == Less
           && cmp(a[|a| - 1], b[0]) == Greater
        then Meet(b, a, cmp) else Meet(a, b, cmp)
    {
      this.cmp, way := cmp, IntersectionOf(a, b, cmp);
      IntersectionIsMeet(a, b, cmp);
    }

    method Next() returns (x: Option<T>)
      requires Valid()
      modifies this`way
      ensures Valid()
      ensures var f := old(Rest()); if f == [] then x == None && Rest() == f else x == Some(f[0]) && Rest() == f[1..]
    {
      match way {
        case Answer(answer) =>
          x, way := answer, Answer(None);
        case SearchFor(small, large) =>
          while true
            invariant way.SearchFor? && way.large == large && Rest() == old(Rest())
            decreases |way.small|
          {
            if way.small == [] { return None; }
            var next := way.small[0];
            way := SearchFor(way.small[1..], large);
            if Has(large, cmp, next) { return Some(next); }
          }
        case StitchBoth(a, b) =>
          x := StitchNext(a, b);
      }
    }

    /** The heads of both are taken first, and are lost once the other set has no more. */
    method StitchNext(a0: seq<T>, b0: seq<T>) returns (x: Option<T>)
      requires Valid() && way == StitchBoth(a0, b0)
      modifies this`way
      ensures Valid()
      ensures var f := old(Rest()); if f == [] then x == None && Rest() == f else x == Some(f[0]) && Rest() == f[1..]
    {
      hide Ranks, Ascending;
      NothingMeets(a0, b0, cmp);
      if a0 == [] { return None; }
      if b0 == [] {
        AscendingTail(a0, cmp);
        way := StitchBoth(a0[1..], b0);
        NothingMeets(a0[1..], b0, cmp);
        return None;
      }
      var a, b := a0, b0;
      while true
        invariant a != [] && b != [] && Ascending(a, cmp) && Ascending(b, cmp) && Meet(a, b, cmp) == old(Rest())
        decreases |a| + |b|
      {
        StitchMeet(a, b, cmp);
        var (aRest, bRest) := (a[1..], b[1..]);
        NothingMeets(aRest, b, cmp);
        NothingMeets(a, bRest, cmp);
        NothingMeets(aRest, bRest, cmp);
        match cmp(a[0], b[0]) {
          case Less =>
            if aRest == [] {
              way := StitchBoth(aRest, bRest);
              return None;
            }
            a := aRest;
          case Greater =>
            if bRest == [] {
              way := StitchBoth(aRest, bRest);
              return None;
            }
            b := bRest;
          case Equal =>
            way := StitchBoth(aRest, bRest);
            return Some(a[0]);
        }
      }
    }
  }

  lemma AscendingTail<T>(s: seq<T>, cmp: (T, T) -> Ordering)
    requires Ascending(s, cmp) && s != []
    ensures Ascending(s[1..], cmp)
  {
  }

  lemma NothingMeets<T>(a: seq<T>, b: seq<T>, cmp: (T, T) -> Ordering)
    ensures a == [] || b == [] ==> Meet(a, b, cmp) == []
  {
    if b == [] { NoneMet(a, b, cmp); }
  }

  /** Two sets are disjoint if their intersection has no first element. */
  method IsDisjoint<T(!new)>(a: seq<T>, b: seq<T>, cmp: (T, T) -> Ordering) returns (disjoint: bool)
    requires Ranks(cmp) && Ascending(a, cmp) && Ascending(b, cmp)
    ensures disjoint <==> forall x :: x in a ==> !Has(b, cmp, x)
  {
    hide Ranks, Ascending;
    var both := new Intersection<T>(a, b, cmp);
    MeetEmpty(a, b, cmp);
    var x := both.Next();
    disjoint := x.None?;
  }

  lemma MeetEmpty<T>(a: seq<T>, b: seq<T>, cmp: (T, T) -> Ordering)
    ensures Meet(a, b, cmp) == [] <==> forall x :: x in a ==> !Has(b, cmp, x)
  {
    MinusMeetIn(a, b, cmp);
    if exists x :: x in a && Has(b, cmp, x) {
      var x :| x in a && Has(b, cmp, x);
      assert x in Meet(a, b, cmp);
    } else {
      NoneMet(a, b, cmp);
    }
  }

  // ----- Union and symmetric difference

  /** The elements of either set, those of `a` in place of equivalent ones of `b`. */
  ghost function Joined<T>(a: seq<T>, b: seq<T>, cmp: (T, T) -> Ordering): seq<T>
    decreases |a| + |b|
  {
    if a == [] then b
    else if b == [] then a
    else match cmp(a[0], b[0])
      case Less => [a[0]] + Joined(a[1..], b, cmp)
      case Greater => [b[0]] + Joined(a, b[1..], cmp)
      case Equal => [a[0]] + Joined(a[1..], b[1..], cmp)
  }

  /** The elements of one set without an equivalent in the other. */
  ghost function Exclusive<T>(a: seq<T>, b: seq<T>, cmp: (T, T) -> Ordering): seq<T>
    decreases |a| + |b|
  {
    if a == [] then b
    else if b == [] then a
    else match cmp(a[0], b[0])
      case Less => [a[0]] + Exclusive(a[1..], b, cmp)
      case Greater => [b[0]] + Exclusive(a, b[1..], cmp)
      case Equal => Exclusive(a[1..], b[1..], cmp)
  }

  /** A head below the other head is in the first set only, and below all the rest. */
  lemma HeadBefore<T(!new)>(a: seq<T>, b: seq<T>, cmp: (T, T) -> Ordering)
    requires Ranks(cmp) && Ascending(a, cmp) && Ascending(b, cmp) && a != [] && b != [] && cmp(a[0], b[0]) == Less
    ensures Ascending(a[1..], cmp) && !Has(b, cmp, a[0]) && forall x :: x in a[1..] ==> cmp(a[0], x) == Less
    ensures forall x :: x in b ==> cmp(a[0], x) == Less && (Has(a, cmp, x) <==> Has(a[1..], cmp, x))
  {
    AscendingRest(a, cmp);
    AscendingRest(b, cmp);
    BelowHead(b, cmp, a[0]);
    forall x | x in b ensures cmp(a[0], x) == Less && (Has(a, cmp, x) <==> Has(a[1..], cmp, x)) {
      assert b == [b[0]] + b[1..];
      RanksOn(cmp, a[0], b[0], x);
      RanksOn(cmp, x, a[0], x);
      HasSplit(a, cmp, x);
    }
  }

  /** Equivalent heads are in both sets, and nothing else is equivalent to them. */
  lemma HeadsEqual<T(!new)>(a: seq<T>, b: seq<T>, cmp: (T, T) -> Ordering)
    requires Ranks(cmp) && Ascending(a, cmp) && Ascending(b, cmp) && a != [] && b != [] && cmp(a[0], b[0]) == Equal
    ensures Ascending(a[1..], cmp) && Ascending(b[1..], cmp) && Has(b, cmp, a[0]) && Has(a, cmp, b[0])
    ensures forall x :: x in a[1..] ==> cmp(a[0], x) == Less && (Has(b, cmp, x) <==> Has(b[1..], cmp, x))
    ensures forall x :: x in b[1..] ==> cmp(a[0], x) == Less && (Has(a, cmp, x) <==> Has(a[1..], cmp, x))
  {
    AscendingRest(a, cmp);
    AscendingRest(b, cmp);
    RanksOn(cmp, a[0], b[0], a[0]);
    HasIn(b, cmp, a[0], b[0]);
    HasIn(a, cmp, b[0], a[0]);
    forall x | x in a[1..] ensures cmp(a[0], x) == Less && (Has(b, cmp, x) <==> Has(b[1..], cmp, x)) {
      RanksOn(cmp, b[0], a[0], x);
      RanksOn(cmp, x, b[0], x);
      HasSplit(b, cmp, x);
    }
    forall x | x in b[1..] ensures cmp(a[0], x) == Less && (Has(a, cmp, x) <==> Has(a[1..], cmp, x)) {
      RanksOn(cmp, a[0], b[0], x);
      RanksOn(cmp, x, a[0], x);
      HasSplit(a, cmp, x);
    }
  }

  /** The merge has the elements of the first set, and those of the second without an equivalent in it, ascending. */
  lemma {:induction false} JoinedIsUnion<T(!new)>(a: seq<T>, b: seq<T>, cmp: (T, T) -> Ordering)
    requires Ranks(cmp) && Ascending(a, cmp) && Ascending(b, cmp)
    ensures Ascending(Joined(a, b, cmp), cmp)
    ensures forall x :: x in Joined(a, b, cmp) <==> x in a || (x in b && !Has(a, cmp, x))
    decreases |a| + |b|
  {
    hide Ranks, Ascending;
    if a != [] && b != [] {
      assert a == [a[0]] + a[1..] && b == [b[0]] + b[1..];
      RanksOn(cmp, b[0], a[0], b[0]);
      match cmp(a[0], b[0])
      case Less =>
        HeadBefore(a, b, cmp);
        JoinedIsUnion(a[1..], b, cmp);
        AscendingWith(a[0], Joined(a[1..], b, cmp), cmp);
      case Greater =>
        HeadBefore(b, a, cmp);
        JoinedIsUnion(a, b[1..], cmp);
        AscendingWith(b[0], Joined(a, b[1..], cmp), cmp);
      case Equal =>
        HeadsEqual(a, b, cmp);
        JoinedIsUnion(a[1..], b[1..], cmp);
        AscendingWith(a[0], Joined(a[1..], b[1..], cmp), cmp);
    } else {
      assert forall x :: !Has([], cmp, x);
    }
  }

  lemma {:induction false} ExclusiveIsDifference<T(!new)>(a: seq<T>, b: seq<T>, cmp: (T, T) -> Ordering)
    requires Ranks(cmp) && Ascending(a, cmp) && Ascending(b, cmp)
    ensures Ascending(Exclusive(a, b, cmp), cmp)
    ensures forall x :: x in Exclusive(a, b, cmp) <==> (x in a && !Has(b, cmp, x)) || (x in b && !Has(a, cmp, x))
    decreases |a| + |b|
  {
    hide Ranks, Ascending;
    if a != [] && b != [] {
      assert a == [a[0]] + a[1..] && b == [b[0]] + b[1..];
      RanksOn(cmp, b[0], a[0], b[0]);
      match cmp(a[0], b[0])
      case Less =>
        HeadBefore(a, b, cmp);
        ExclusiveIsDifference(a[1..], b, cmp);
        AscendingWith(a[0], Exclusive(a[1..], b, cmp), cmp);
      case Greater =>
        HeadBefore(b, a, cmp);
        ExclusiveIsDifference(a, b[1..], cmp);
        AscendingWith(b[0], Exclusive(a, b[1..], cmp), cmp);
      case Equal =>
        HeadsEqual(a, b, cmp);
        ExclusiveIsDifference(a[1..], b[1..], cmp);
    } else {
      assert forall x :: !Has([], cmp, x);
    }
  }

  /** An item taken from a source but not handed out yet. */
  datatype Peeked<T> = PeekedA(x: T) | PeekedB(x: T)

  /** Two ascending sources merged, as union and symmetric difference share it. */
  class Merger<T(!new)> {
    var a: seq<T>
    var b: seq<T>
    var peeked: Option<Peeked<T>>
    const cmp: (T, T) -> Ordering

    ghost function RestOfA(): seq<T>
      reads this
    {
      (if peeked.Some? && peeked.value.PeekedA? then [peeked.value.x] else []) + a
    }

    ghost function RestOfB(): seq<T>
      reads this
    {
      (if peeked.Some? && peeked.value.PeekedB? then [peeked.value.x] else []) + b
    }

    constructor (a: seq<T>, b: seq<T>, cmp: (T, T) -> Ordering)
      ensures this.cmp == cmp && RestOfA() == a && RestOfB() == b
    {
      this.a, this.b, this.cmp, peeked := a, b, cmp, None;
    }

    /** The next items: of either source if it is the smaller one or the other has none, of both if equivalent. */
    method Nexts() returns (x: Option<T>, y: Option<T>)
      modifies this`a, this`b, this`peeked
      ensures var (f, g) := (old(RestOfA()), old(RestOfB()));
        var fromA := f != [] && (g == [] || cmp(f[0], g[0]) != Greater);
        var fromB := g != [] && (f == [] || cmp(f[0], g[0]) != Less);
        && x == (if fromA then Some(f[0]) else None) && RestOfA() == (if fromA then f[1..] else f)
        && y == (if fromB then Some(g[0]) else None) && RestOfB() == if fromB then g[1..] else g
    {
      var took := peeked;
      peeked := None;
      if took.Some? && took.value.PeekedA? {
        x := Some(took.value.x);
        y := TakeB();
      } else if took.Some? {
        y := Some(took.value.x);
        x := TakeA();
      } else {
        x := TakeA();
        y := TakeB();
      }
      if x.Some? && y.Some? {
        match cmp(x.value, y.value) {
          case Less => peeked, y := Some(PeekedB(y.value)), None;
          case Greater => peeked, x := Some(PeekedA(x.value)), None;
          case Equal =>
        }
      }
    }

    method TakeA() returns (x: Option<T>)
      modifies this`a
      ensures if old(a) == [] then x == None && a == old(a) else x == Some(old(a)[0]) && a == old(a)[1..]
    {
      if a == [] { return None; }
      x, a := Some(a[0]), a[1..];
    }

    method TakeB() returns (y: Option<T>)
      modifies this`b
      ensures if old(b) == [] then y == None && b == old(b) else y == Some(old(b)[0]) && b == old(b)[1..]
    {
      if b == [] { return None; }
      y, b := Some(b[0]), b[1..];
    }

    /** The next element of the union. */
    method NextOfUnion() returns (x: Option<T>)
      modifies this`a, this`b, this`peeked
      ensures var f := old(Joined(RestOfA(), RestOfB(), cmp));
        if f == [] then x == None && Joined(RestOfA(), RestOfB(), cmp) == f
        else x == Some(f[0]) && Joined(RestOfA(), RestOfB(), cmp) == f[1..]
    {
      var y;
      x, y := Nexts();
      if x.None? { x := y; }
    }

    /** The next element of the symmetric difference. */
    method NextOfSymmetricDifference() returns (x: Option<T>)
      modifies this`a, this`b, this`peeked
      ensures var f := old(Exclusive(RestOfA(), RestOfB(), cmp));
        if f == [] then x == None && Exclusive(RestOfA(), RestOfB(), cmp) == f
        else x == Some(f[0]) && Exclusive(RestOfA(), RestOfB(), cmp) == f[1..]
    {
      while true
        invariant Exclusive(RestOfA(), RestOfB(), cmp) == old(Exclusive(RestOfA(), RestOfB(), cmp))
        decreases |RestOfA()| + |RestOfB()|
      {
        var y;
        x, y := Nexts();
        if x.None? || y.None? {
          if x.None? { x := y; }
          return;
        }
      }
    }
  }

  // ----- Inclusion

  lemma MinusEmpty<T>(a: seq<T>, b: seq<T>, cmp: (T, T) -> Ordering)
    ensures Minus(a, b, cmp) == [] <==> forall x :: x in a ==> Has(b, cmp, x)
  {
    MinusMeetIn(a, b, cmp);
    if Minus(a, b, cmp) != [] {
      var x := Minus(a, b, cmp)[0];
      assert x in Minus(a, b, cmp);
    }
  }

  /** A subset is no longer than the set. */
  lemma {:induction false} SubsetShorter<T(!new)>(a: seq<T>, b: seq<T>, cmp: (T, T) -> Ordering)
    requires Ranks(cmp) && Ascending(a, cmp) && Ascending(b, cmp) && Minus(a, b, cmp) == []
    ensures |a| <= |b|
    decreases |a| + |b|
  {
    if a != [] {
      MinusEmpty(a, b, cmp);
      assert a[0] in a;
      assert [a[0]] + a[1..] == a;
      StitchMinus(a[0], a[1..], b, cmp);
      if b != [] {
        match cmp(a[0], b[0])
        case Less =>
        case Equal => SubsetShorter(a[1..], b[1..], cmp);
        case Greater => SubsetShorter(a, b[1..], cmp);
      }
    }
  }

  function Inner<T>(s: seq<T>): seq<T> { if |s| <= 1 then [] else s[1..|s| - 1] }

  /** `rest` is what of `a` is left to be found strictly between the ends of `b`. */
  ghost predicate Trimmed<T>(a: seq<T>, rest: seq<T>, b: seq<T>, cmp: (T, T) -> Ordering) {
    && b != [] && Ascending(rest, cmp) && (Minus(a, b, cmp) == [] <==> Minus(rest, b, cmp) == [])
    && forall x :: x in rest ==> cmp(b[0], x) == Less && cmp(x, b[|b| - 1]) == Less
  }

  lemma TrimFront<T(!new)>(a: seq<T>, b: seq<T>, cmp: (T, T) -> Ordering)
    requires Ranks(cmp) && Ascending(a, cmp) && Ascending(b, cmp) && a != [] && b != []
    ensures cmp(a[0], b[0]) == Less ==> Minus(a, b, cmp) != []
    ensures var rest := if cmp(a[0], b[0]) == Equal then a[1..] else a;
      cmp(a[0], b[0]) != Less ==>
        Minus(a, b, cmp) == Minus(rest, b, cmp) && forall x :: x in rest ==> cmp(b[0], x) == Less
  {
    assert [a[0]] + a[1..] == a;
    StitchMinus(a[0], a[1..], b, cmp);
    AscendingRest(a, cmp);
    HasSplit(b, cmp, a[0]);
    RanksOn(cmp, b[0], a[0], b[0]);
    forall x | x in a[1..] ensures cmp(a[0], b[0]) != Less ==> cmp(b[0], x) == Less { RanksOn(cmp, b[0], a[0], x); }
  }

  lemma TrimBack<T(!new)>(a: seq<T>, rest: seq<T>, b: seq<T>, cmp: (T, T) -> Ordering)
    requires Ranks(cmp) && Ascending(a, cmp) && Ascending(b, cmp) && a != [] && b != []
    requires (rest == a || rest == a[1..]) && Minus(a, b, cmp) == Minus(rest, b, cmp)
    requires forall x :: x in rest ==> cmp(b[0], x) == Less
    ensures var c := cmp(a[|a| - 1], b[|b| - 1]);
      && (c == Greater ==> Minus(a, b, cmp) != [])
      && (c == Equal ==> Trimmed(a, if rest == [] then [] else rest[..|rest| - 1], b, cmp))
      && (c == Less ==> Trimmed(a, rest, b, cmp))
  {
    hide Ranks, Ascending, Minus, Trimmed, Has;
    var (m, n) := (a[|a| - 1], b[|b| - 1]);
    if cmp(m, n) == Greater {
      AboveLast(b, cmp, m);
      MinusEmpty(a, b, cmp);
      assert m in a;
    } else if rest == [] {
      TrimmedNothing(a, b, cmp);
    } else {
      AscendingRest(a, cmp);
      AscendingRest(rest, cmp);
      assert rest[|rest| - 1] == m;
      TrimLast(rest, b, cmp);
      TrimmedOf(a, if cmp(m, n) == Equal then rest[..|rest| - 1] else rest, b, cmp);
    }
  }

  lemma TrimmedNothing<T>(a: seq<T>, b: seq<T>, cmp: (T, T) -> Ordering)
    requires b != [] && Minus(a, b, cmp) == Minus([], b, cmp)
    ensures Trimmed(a, [], b, cmp)
  {
  }

  lemma TrimmedOf<T>(a: seq<T>, rest: seq<T>, b: seq<T>, cmp: (T, T) -> Ordering)
    requires b != [] && Ascending(rest, cmp) && Minus(a, b, cmp) == Minus(rest, b, cmp)
    requires forall x :: x in rest ==> cmp(b[0], x) == Less && cmp(x, b[|b| - 1]) == Less
    ensures Trimmed(a, rest, b, cmp)
  {
  }

  /** A last element in place of the other set's last is found there. */
  lemma TrimLast<T(!new)>(rest: seq<T>, b: seq<T>, cmp: (T, T) -> Ordering)
    requires Ranks(cmp) && Ascending(rest, cmp) && rest != [] && b != []
    requires forall x :: x in rest ==> cmp(b[0], x) == Less
    ensures var (front, c) := (rest[..|rest| - 1], cmp(rest[|rest| - 1], b[|b| - 1]));
      && (c == Equal ==> Minus(rest, b, cmp) == Minus(front, b, cmp))
      && (c != Greater ==> forall x :: x in front ==> cmp(b[0], x) == Less && cmp(x, b[|b| - 1]) == Less)
      && (c == Less ==> forall x :: x in rest ==> cmp(b[0], x) == Less && cmp(x, b[|b| - 1]) == Less)
  {
    hide Ranks, Ascending, Has;
    var (front, m, n) := (rest[..|rest| - 1], rest[|rest| - 1], b[|b| - 1]);
    AscendingRest(rest, cmp);
    assert rest == front + [m];
    forall x | x in front ensures cmp(m, n) != Greater ==> cmp(x, n) == Less { RanksOn(cmp, x, m, n); }
    if cmp(m, n) == Equal {
      HasIn(b, cmp, m, n);
      MetInTwo(front, [m], b, cmp);
    }
  }

  /** Between the ends of a set, only its inner elements count. */
  lemma InnerMeets<T(!new)>(rest: seq<T>, b: seq<T>, cmp: (T, T) -> Ordering)
    requires Ranks(cmp) && b != [] && Ascending(b, cmp)
    requires forall x :: x in rest ==> cmp(b[0], x) == Less && cmp(x, b[|b| - 1]) == Less
    ensures Minus(rest, b, cmp) == Minus(rest, Inner(b), cmp) && Ascending(Inner(b), cmp)
  {
    forall x | x in rest ensures Has(b, cmp, x) <==> Has(Inner(b), cmp, x) {
      HasSplit(b, cmp, x);
      RanksOn(cmp, b[0], x, b[0]);
      if |b| > 1 {
        HasSplit(b[1..], cmp, x);
        assert b[1..][..|b| - 2] == Inner(b);
      }
    }
    SameMet(rest, b, Inner(b), cmp);
  }

  /** Whether all elements of one set have equivalents in another, with the ends compared first. */
  method IsSubset<T(!new)>(a: seq<T>, b: seq<T>, cmp: (T, T) -> Ordering) returns (subset: bool)
    requires Ranks(cmp) && Ascending(a, cmp) && Ascending(b, cmp)
    ensures subset <==> forall x :: x in a ==> Has(b, cmp, x)
  {
    hide Ranks, Ascending, Trimmed, Minus;
    MinusEmpty(a, b, cmp);
    if |a| > |b| {
      if Minus(a, b, cmp) == [] { SubsetShorter(a, b, cmp); }
      return false;
    }
    if a == [] { return true; }
    var rest := a;
    TrimFront(a, b, cmp);
    match cmp(a[0], b[0]) {
      case Less => return false;
      case Equal => rest := rest[1..];
      case Greater =>
    }
    TrimBack(a, rest, b, cmp);
    match cmp(a[|a| - 1], b[|b| - 1]) {
      case Greater => return false;
      case Equal => rest := if rest == [] then [] else rest[..|rest| - 1];
      case Less =>
    }
    TrimmedEnds(a, rest, b, cmp);
    if |rest| <= |b| / TIPPING_SIZE_DIFF {
      subset := AllIn(rest, b, cmp);
    } else {
      InnerMeets(rest, b, cmp);
      subset := WalkIn(rest, Inner(b), cmp);
    }
  }

  lemma TrimmedEnds<T>(a: seq<T>, rest: seq<T>, b: seq<T>, cmp: (T, T) -> Ordering)
    requires Trimmed(a, rest, b, cmp)
    ensures b != [] && Ascending(rest, cmp) && (Minus(a, b, cmp) == [] <==> Minus(rest, b, cmp) == [])
    ensures forall x :: x in rest ==> cmp(b[0], x) == Less && cmp(x, b[|b| - 1]) == Less
  {
  }

  /** Looks every element up. */
  method AllIn<T(!new)>(rest: seq<T>, b: seq<T>, cmp: (T, T) -> Ordering) returns (subset: bool)
    ensures subset <==> Minus(rest, b, cmp) == []
  {
    var next := rest;
    while next != []
      invariant Minus(next, b, cmp) == Minus(rest, b, cmp)
      decreases |next|
    {
      if !Has(b, cmp, next[0]) { return false; }
      next := next[1..];
    }
    subset := true;
  }

  /** Walks both sets. */
  method WalkIn<T(!new)>(rest: seq<T>, other: seq<T>, cmp: (T, T) -> Ordering) returns (subset: bool)
    requires Ranks(cmp) && Ascending(rest, cmp) && Ascending(other, cmp)
    ensures subset <==> Minus(rest, other, cmp) == []
  {
    hide Ranks, Ascending;
    var next, b := rest, other;
    while next != []
      invariant Ascending(next, cmp) && Ascending(b, cmp) && Minus(next, b, cmp) == Minus(rest, other, cmp)
      decreases |next| + |b|
    {
      assert [next[0]] + next[1..] == next;
      StitchMinus(next[0], next[1..], b, cmp);
      match if b == [] then Less else cmp(next[0], b[0]) {
        case Less => return false;
        case Equal => next, b := next[1..], b[1..];
        case Greater => b := b[1..];
      }
    }
    subset := true;
  }
}
