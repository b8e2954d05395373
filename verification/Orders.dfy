/** Maps as sorted association lists under one order of the keys, and what the operations of the map mean on them. */
module Orders {
  import opened Nodes
  import opened Options
  import opened Search
  import opened MergeIters
  import opened Maps
  import opened Ranges

  /** Whether a key comes before another. */
  type Precedence = (Key, Key) -> bool

  /** A strict weak order: some keys may be equivalent, as neither comes before the other. */
  ghost predicate StrictWeak(lt: Precedence) {
    && (forall x :: !lt(x, x)) && (forall x, y, z :: lt(x, y) && lt(y, z) ==> lt(x, z))
    && (forall x, y, z :: lt(x, z) ==> lt(x, y) || lt(y, z))
  }

  predicate Equivalent(lt: Precedence, x: Key, y: Key) { !lt(x, y) && !lt(y, x) }

  /** The comparator that looks for a key. */
  function For(lt: Precedence, key: Key): Comparator {
    k => if lt(k, key) then Greater else if lt(key, k) then Less else Equal
  }

  /** The comparator of a stored key with a new one. */
  function Double(lt: Precedence): (Key, Key) -> Ordering {
    (stored, key) => if lt(stored, key) then Greater else if lt(key, stored) then Less else Equal
  }

  /** The comparator of two pairs for merging, where the signs are the other way round. */
  function Merging(lt: Precedence): Order {
    (a: KV, b: KV) => if lt(a.key, b.key) then Less else if lt(b.key, a.key) then Greater else Equal
  }

  /** Ascending, without equivalent keys. */
  ghost predicate Sorted(f: seq<KV>, lt: Precedence) {
    forall i, j :: 0 <= i < j < |f| ==> lt(f[i].key, f[j].key)
  }

  lemma SortedMonotone(f: seq<KV>, lt: Precedence, key: Key)
    requires StrictWeak(lt) && Sorted(f, lt)
    ensures Monotone(f, For(lt, key))
  {
    var comp := For(lt, key);
    forall i, j | 0 <= i < j < |f| ensures comp(f[i].key) == Greater || comp(f[j].key) == Less {
      assert lt(f[i].key, f[j].key);
      assert lt(f[i].key, key) || lt(key, f[j].key);
    }
  }

  // ----- Association lists

  /** The pairs whose keys have a property, in order. */
  function Those(f: seq<KV>, p: Key -> bool): (r: seq<KV>)
    ensures forall x :: x in r <==> x in f && p(x.key)
  {
    if f == [] then [] else (if p(f[0].key) then [f[0]] else []) + Those(f[1..], p)
  }

  function Below(f: seq<KV>, lt: Precedence, key: Key): seq<KV> { Those(f, k => lt(k, key)) }

  function Same(f: seq<KV>, lt: Precedence, key: Key): seq<KV> { Those(f, k => Equivalent(lt, k, key)) }

  function Above(f: seq<KV>, lt: Precedence, key: Key): seq<KV> { Those(f, k => lt(key, k)) }

  function NotBelow(f: seq<KV>, lt: Precedence, key: Key): seq<KV> { Those(f, k => !lt(k, key)) }

  function Find(f: seq<KV>, lt: Precedence, key: Key): Option<KV> {
    var s := Same(f, lt, key);
    if s == [] then None else Some(s[0])
  }

  /** A new value for an equivalent key that is there, and else a new pair. */
  function Assign(f: seq<KV>, lt: Precedence, key: Key, val: Val): seq<KV> {
    var old_ := Find(f, lt, key);
    Below(f, lt, key) + [KV(if old_.Some? then old_.value.key else key, val)] + Above(f, lt, key)
  }

  function Without(f: seq<KV>, lt: Precedence, key: Key): seq<KV> { Below(f, lt, key) + Above(f, lt, key) }

  /** A pair in place of any with an equivalent key. */
  function With(f: seq<KV>, lt: Precedence, x: KV): seq<KV> { Below(f, lt, x.key) + [x] + Above(f, lt, x.key) }

  /** All pairs of `g` put into `f`, one after another. */
  function WithAll(f: seq<KV>, lt: Precedence, g: seq<KV>): seq<KV>
    decreases |g|
  {
    if g == [] then f else WithAll(With(f, lt, g[0]), lt, g[1..])
  }

  // ----- Cutting a sorted list at a key

  lemma {:induction false} ThoseFirst(f: seq<KV>, p: Key -> bool, c: nat)
    requires c <= |f| && (forall i :: 0 <= i < c ==> p(f[i].key)) && (forall i :: c <= i < |f| ==> !p(f[i].key))
    ensures Those(f, p) == f[..c]
  {
    if f != [] {
      var d := if c > 0 then c - 1 else 0;
      forall i | 0 <= i < |f| - 1 ensures f[1..][i] == f[i + 1] {}
      ThoseFirst(f[1..], p, d);
      if c > 0 { assert f[..c] == [f[0]] + f[1..][..d]; }
    }
  }

  lemma {:induction false} ThoseLast(f: seq<KV>, p: Key -> bool, c: nat)
    requires c <= |f| && (forall i :: 0 <= i < c ==> !p(f[i].key)) && (forall i :: c <= i < |f| ==> p(f[i].key))
    ensures Those(f, p) == f[c..]
  {
    if f != [] {
      var d := if c > 0 then c - 1 else 0;
      forall i | 0 <= i < |f| - 1 ensures f[1..][i] == f[i + 1] {}
      ThoseLast(f[1..], p, d);
      if c > 0 { assert f[c..] == f[1..][d..]; } else { assert f == [f[0]] + f[1..]; }
    }
  }

  lemma {:induction false} ThoseOne(f: seq<KV>, p: Key -> bool, c: nat)
    requires c < |f| && forall i :: 0 <= i < |f| ==> (p(f[i].key) <==> i == c)
    ensures Those(f, p) == [f[c]]
  {
    if c == 0 {
      ThoseFirst(f, p, 1);
    } else {
      forall i | 0 <= i < |f| - 1 ensures f[1..][i] == f[i + 1] {}
      ThoseOne(f[1..], p, c - 1);
    }
  }

  /** Where the pairs of a sorted list lie against the place of a key. */
  ghost predicate CutsAt(f: seq<KV>, lt: Precedence, key: Key, c: nat, hit: bool) {
    && c <= |f| && (hit ==> c < |f|) && forall i :: 0 <= i < |f| ==>
      (lt(f[i].key, key) <==> i < c) && (Equivalent(lt, f[i].key, key) <==> hit && i == c)
      && (lt(key, f[i].key) <==> i > c || (i == c && !hit))
  }

  lemma SortedCutsAt(f: seq<KV>, lt: Precedence, key: Key)
    requires StrictWeak(lt) && Sorted(f, lt)
    ensures CutsAt(f, lt, key, Cut(f, For(lt, key)), Hit(f, For(lt, key)))
  {
    var comp := For(lt, key);
    var c := Cut(f, comp);
    SortedMonotone(f, lt, key);
    forall i | 0 <= i < |f|
      ensures (lt(f[i].key, key) <==> i < c) && (Equivalent(lt, f[i].key, key) <==> Hit(f, comp) && i == c)
      ensures lt(key, f[i].key) <==> i > c || (i == c && !Hit(f, comp))
    {
      if i < c { assert comp(f[i].key) == Greater; }
      if i > c { assert comp(f[c].key) != Greater; assert comp(f[i].key) == Less; }
    }
  }

  lemma CutsParts(f: seq<KV>, lt: Precedence, key: Key, c: nat, hit: bool)
    requires CutsAt(f, lt, key, c, hit)
    ensures Below(f, lt, key) == f[..c]
    ensures Same(f, lt, key) == if hit then [f[c]] else []
    ensures Above(f, lt, key) == if hit then f[c + 1..] else f[c..]
  {
    ThoseFirst(f, k => lt(k, key), c);
    ThoseLast(f, k => lt(key, k), if hit then c + 1 else c);
    if hit {
      ThoseOne(f, k => Equivalent(lt, k, key), c);
    } else {
      ThoseFirst(f, k => Equivalent(lt, k, key), 0);
    }
  }

  /** In a sorted list, the pairs before the place of a key are those below it; then comes the one with an equivalent
      key if there is one; then those above. */
  lemma SortedCut(f: seq<KV>, lt: Precedence, key: Key)
    requires StrictWeak(lt) && Sorted(f, lt)
    ensures var (c, hit) := (Cut(f, For(lt, key)), Hit(f, For(lt, key)));
      && (hit ==> c < |f|) && Below(f, lt, key) == f[..c] && Same(f, lt, key) == (if hit then [f[c]] else [])
      && Above(f, lt, key) == if hit then f[c + 1..] else f[c..]
  {
    hide StrictWeak, Sorted, For, Below, Above, Same, CutsAt;
    SortedCutsAt(f, lt, key);
    CutsParts(f, lt, key, Cut(f, For(lt, key)), Hit(f, For(lt, key)));
  }

  // ----- The operations of the map on sorted lists

  lemma {:induction false} SameCuts(f: seq<KV>, c: Comparator, d: Comparator)
    requires forall k :: c(k) == d(k)
    ensures Cut(f, c) == Cut(f, d) && (Hit(f, c) <==> Hit(f, d)) && (Monotone(f, c) ==> Monotone(f, d))
  {
    CutIs(f, d, Cut(f, c));
  }

  /** Inserting assigns the value: an equivalent key that is stored stays. */
  lemma InsertedAssigns(f: seq<KV>, lt: Precedence, key: Key, val: Val)
    requires StrictWeak(lt) && Sorted(f, lt)
    ensures Monotone(f, k => Double(lt)(k, key))
    ensures Inserted(f, k => Double(lt)(k, key), key, val) == Assign(f, lt, key, val)
    ensures Sought(f, k => Double(lt)(k, key)) == Find(f, lt, key)
  {
    hide StrictWeak, Sorted, Monotone, Cut, For, Double, Below, Above, Same;
    var comp: Comparator := k => Double(lt)(k, key);
    forall k ensures For(lt, key)(k) == comp(k) { DoubleIsFor(lt, key, k); }
    SameCuts(f, For(lt, key), comp);
    SortedMonotone(f, lt, key);
    SortedCut(f, lt, key);
    AssignedAt(f, lt, key, val, Cut(f, comp), Hit(f, comp));
  }

  lemma DoubleIsFor(lt: Precedence, key: Key, k: Key)
    ensures Double(lt)(k, key) == For(lt, key)(k)
  {
  }

  lemma AssignedAt(f: seq<KV>, lt: Precedence, key: Key, val: Val, c: nat, hit: bool)
    requires c <= |f| && (hit ==> c < |f|) && Below(f, lt, key) == f[..c]
    requires if hit then Same(f, lt, key) == [f[c]] && Above(f, lt, key) == f[c + 1..]
             else Same(f, lt, key) == [] && Above(f, lt, key) == f[c..]
    ensures Assign(f, lt, key, val) == if hit then f[c := KV(f[c].key, val)] else f[..c] + [KV(key, val)] + f[c..]
    ensures Find(f, lt, key) == if hit then Some(f[c]) else None
  {
  }

  lemma RemovedIsWithout(f: seq<KV>, lt: Precedence, key: Key)
    requires StrictWeak(lt) && Sorted(f, lt)
    ensures Monotone(f, For(lt, key)) && Sought(f, For(lt, key)) == Find(f, lt, key)
    ensures Removed(f, For(lt, key)) == Without(f, lt, key)
  {
    hide StrictWeak, Sorted, Monotone, Cut, For, Below, Above, Same;
    SortedMonotone(f, lt, key);
    SortedCut(f, lt, key);
  }

  /** Cutting a sorted list at a key leaves what is below it, and what is not. */
  lemma CutDivides(f: seq<KV>, lt: Precedence, key: Key)
    requires StrictWeak(lt) && Sorted(f, lt)
    ensures Monotone(f, For(lt, key))
    ensures var c := Cut(f, For(lt, key)); f[..c] == Below(f, lt, key) && f[c..] == NotBelow(f, lt, key)
  {
    SortedMonotone(f, lt, key);
    SortedCut(f, lt, key);
    var c := Cut(f, For(lt, key));
    forall i | c <= i < |f| ensures !lt(f[i].key, key) {
      assert For(lt, key)(f[c].key) != Greater;
      if i > c { assert lt(f[c].key, f[i].key); }
    }
    ThoseLast(f, k => !lt(k, key), c);
  }

  /** Bounds cross if the lower key is above the upper one, or the same with both excluded. */
  predicate Crossed(lt: Precedence, lo: Key, lower: SearchBound, hi: Key, upper: SearchBound) {
    lt(hi, lo) || (Equivalent(lt, lo, hi) && lower == Excluded && upper == Excluded)
  }

  /** Nothing lies between crossed bounds, whatever the pairs. */
  lemma CrossedRangeIsEmpty(f: seq<KV>, lt: Precedence, lo: Key, lower: SearchBound, hi: Key, upper: SearchBound)
    requires StrictWeak(lt) && Sorted(f, lt) && lower in {Included, Excluded} && upper in {Included, Excluded}
    requires Crossed(lt, lo, lower, hi, upper)
    ensures LowerCut(f, For(lt, lo), lower) >= UpperCut(f, For(lt, hi), upper)
  {
    SortedMonotone(f, lt, lo);
    SortedMonotone(f, lt, hi);
    var l, u := LowerCut(f, For(lt, lo), lower), UpperCut(f, For(lt, hi), upper);
    if l < u {
      BoundsLand(f, For(lt, lo), lower, l);
      BoundsLand(f, For(lt, hi), upper, l);
      assert false;
    }
  }

  // ----- Ranges

  /** A range yields the pairs whose keys satisfy both bounds, in order and once each. */
  lemma BetweenIsThose(f: seq<KV>, lower: Comparator, l0: SearchBound, upper: Comparator, u0: SearchBound)
    requires Monotone(f, lower) && Monotone(f, upper)
    ensures Between(f, lower, l0, upper, u0) == Those(f, k =>
      && (l0.AllIncluded? || (l0.Included? && lower(k) != Greater) || (l0.Excluded? && lower(k) == Less))
      && (u0.AllIncluded? || (u0.Included? && upper(k) != Less) || (u0.Excluded? && upper(k) == Greater)))
  {
    var p := k =>
      && (l0.AllIncluded? || (l0.Included? && lower(k) != Greater) || (l0.Excluded? && lower(k) == Less))
      && (u0.AllIncluded? || (u0.Included? && upper(k) != Less) || (u0.Excluded? && upper(k) == Greater));
    var lo, hi := LowerCut(f, lower, l0), UpperCut(f, upper, u0);
    forall i | 0 <= i < |f| ensures p(f[i].key) <==> lo <= i < hi {
      BoundsLand(f, lower, l0, i);
      BoundsLand(f, upper, u0, i);
    }
    ThoseBetween(f, p, lo, hi);
  }

  lemma ThoseBetween(f: seq<KV>, p: Key -> bool, lo: nat, hi: nat)
    requires lo <= |f| && hi <= |f| && forall i :: 0 <= i < |f| ==> (p(f[i].key) <==> lo <= i < hi)
    ensures Those(f, p) == if lo < hi then f[lo..hi] else []
  {
    hide Those;
    if lo < hi {
      var g := f[..hi];
      assert f == g + f[hi..];
      ThoseConcat(g, f[hi..], p);
      ThoseLast(g, p, lo);
      ThoseFirst(f[hi..], p, 0);
    } else {
      ThoseFirst(f, p, 0);
    }
  }

  lemma {:induction false} ThoseConcat(f: seq<KV>, g: seq<KV>, p: Key -> bool)
    ensures Those(f + g, p) == Those(f, p) + Those(g, p)
  {
    if f == [] {
      assert f + g == g;
    } else {
      assert (f + g)[1..] == f[1..] + g;
      ThoseConcat(f[1..], g, p);
    }
  }

  /** Between two keys: what the kinds of bounds mean for the order. */
  lemma RangeBetweenKeys(f: seq<KV>, lt: Precedence, lo: Key, l0: SearchBound, hi: Key, u0: SearchBound, x: KV)
    requires StrictWeak(lt) && Sorted(f, lt)
    ensures Monotone(f, For(lt, lo)) && Monotone(f, For(lt, hi))
    ensures Sorted(Between(f, For(lt, lo), l0, For(lt, hi), u0), lt)
    ensures x in Between(f, For(lt, lo), l0, For(lt, hi), u0) <==>
      && x in f
      && (l0.AllIncluded? || (l0.Included? && !lt(x.key, lo)) || (l0.Excluded? && lt(lo, x.key)))
      && (u0.AllIncluded? || (u0.Included? && !lt(hi, x.key)) || (u0.Excluded? && lt(x.key, hi)))
  {
    var lower, upper := For(lt, lo), For(lt, hi);
    SortedMonotone(f, lt, lo);
    SortedMonotone(f, lt, hi);
    BetweenIsThose(f, lower, l0, upper, u0);
    var p := k =>
      && (l0.AllIncluded? || (l0.Included? && lower(k) != Greater) || (l0.Excluded? && lower(k) == Less))
      && (u0.AllIncluded? || (u0.Included? && upper(k) != Less) || (u0.Excluded? && upper(k) == Greater));
    SortedThose(f, lt, p);
    assert x in Those(f, p) <==> x in f && p(x.key);
    assert lt(x.key, lo) ==> !lt(lo, x.key);
    assert lt(x.key, hi) ==> !lt(hi, x.key);
  }

  // ----- Merging

  /** A pair goes behind one below it. */
  lemma WithBehind(x: KV, f: seq<KV>, lt: Precedence, y: KV)
    requires StrictWeak(lt) && lt(x.key, y.key)
    ensures With([x] + f, lt, y) == [x] + With(f, lt, y)
  {
    assert ([x] + f)[1..] == f;
    assert Below([x] + f, lt, y.key) == [x] + Below(f, lt, y.key);
    assert Above([x] + f, lt, y.key) == Above(f, lt, y.key);
  }

  lemma {:induction false} WithAllBehind(x: KV, f: seq<KV>, lt: Precedence, g: seq<KV>)
    requires StrictWeak(lt) && forall i :: 0 <= i < |g| ==> lt(x.key, g[i].key)
    ensures WithAll([x] + f, lt, g) == [x] + WithAll(f, lt, g)
    decreases |g|
  {
    if g != [] {
      WithBehind(x, f, lt, g[0]);
      WithAllBehind(x, With(f, lt, g[0]), lt, g[1..]);
    }
  }

  lemma CutsAhead(f: seq<KV>, lt: Precedence, key: Key)
    requires StrictWeak(lt) && Sorted(f, lt) && f != [] && !lt(f[0].key, key)
    ensures CutsAt(f, lt, key, 0, !lt(key, f[0].key))
  {
    forall i | 0 < i < |f| ensures lt(key, f[i].key) && !lt(f[i].key, key) { assert lt(f[0].key, f[i].key); }
  }

  /** A pair goes before a sorted list, or in place of its first pair. */
  lemma WithAhead(f: seq<KV>, lt: Precedence, y: KV)
    requires StrictWeak(lt) && Sorted(f, lt) && f != [] && !lt(f[0].key, y.key)
    ensures With(f, lt, y) == [y] + if lt(y.key, f[0].key) then f else f[1..]
  {
    hide StrictWeak, Sorted, CutsAt, Below, Above, Same;
    CutsAhead(f, lt, y.key);
    CutsParts(f, lt, y.key, 0, !lt(y.key, f[0].key));
    assert f[..0] == [] && [] + [y] == [y];
  }

  lemma {:induction false} WithAllFromNothing(lt: Precedence, g: seq<KV>)
    requires StrictWeak(lt) && Sorted(g, lt)
    ensures WithAll([], lt, g) == g
    decreases |g|
  {
    if g != [] {
      assert With([], lt, g[0]) == [g[0]] + [];
      WithAllBehind(g[0], [], lt, g[1..]);
      WithAllFromNothing(lt, g[1..]);
    }
  }

  /** Merging sorted lists is putting all pairs of the second into the first. */
  lemma {:induction false} UnionIsWithAll(f: seq<KV>, g: seq<KV>, lt: Precedence)
    requires StrictWeak(lt) && Sorted(f, lt) && Sorted(g, lt)
    ensures Union(f, g, Merging(lt)) == WithAll(f, lt, g)
    decreases |f| + |g|
  {
    hide StrictWeak, Sorted, With;
    if f == [] {
      WithAllFromNothing(lt, g);
    } else if g != [] {
      SortedTail(f, lt);
      SortedTail(g, lt);
      if lt(f[0].key, g[0].key) {
        assert [f[0]] + f[1..] == f;
        UnionIsWithAll(f[1..], g, lt);
        AllAbove(lt, f[0].key, g);
        WithAllBehind(f[0], f[1..], lt, g);
      } else {
        var rest := if lt(g[0].key, f[0].key) then f else f[1..];
        WithAhead(f, lt, g[0]);
        WithAllBehind(g[0], rest, lt, g[1..]);
        UnionIsWithAll(rest, g[1..], lt);
      }
    }
  }

  lemma SortedTail(f: seq<KV>, lt: Precedence)
    requires Sorted(f, lt) && f != []
    ensures Sorted(f[1..], lt) && forall i :: 0 <= i < |f[1..]| ==> lt(f[0].key, f[1..][i].key)
  {
  }

  lemma AllAbove(lt: Precedence, key: Key, g: seq<KV>)
    requires StrictWeak(lt) && Sorted(g, lt) && g != [] && lt(key, g[0].key)
    ensures forall i :: 0 <= i < |g| ==> lt(key, g[i].key)
  {
    forall i | 0 <= i < |g| ensures lt(key, g[i].key) {
      if i > 0 { assert lt(g[0].key, g[i].key); }
    }
  }

  // ----- Lists stay sorted

  /** Sorted lists on both sides of a key join. */
  lemma SortedJoin(a: seq<KV>, b: seq<KV>, lt: Precedence, key: Key)
    requires StrictWeak(lt) && Sorted(a, lt) && Sorted(b, lt)
    requires (forall i :: 0 <= i < |a| ==> lt(a[i].key, key)) && (forall i :: 0 <= i < |b| ==> lt(key, b[i].key))
    ensures Sorted(a + b, lt)
  {
    var f := a + b;
    forall i, j | 0 <= i < j < |f| ensures lt(f[i].key, f[j].key) {
      if i < |a| <= j { assert lt(a[i].key, key) && lt(key, b[j - |a|].key); }
    }
  }

  lemma SortedInsert(a: seq<KV>, b: seq<KV>, lt: Precedence, x: KV)
    requires StrictWeak(lt) && Sorted(a, lt) && Sorted(b, lt)
    requires (forall i :: 0 <= i < |a| ==> lt(a[i].key, x.key)) && (forall i :: 0 <= i < |b| ==> lt(x.key, b[i].key))
    ensures Sorted(a + [x] + b, lt)
  {
    var f := a + [x] + b;
    forall i, j | 0 <= i < j < |f| ensures lt(f[i].key, f[j].key) {
      if i < |a| < j { assert lt(a[i].key, x.key) && lt(x.key, b[j - |a| - 1].key); }
    }
  }

  lemma SortedSides(f: seq<KV>, lt: Precedence, key: Key)
    requires StrictWeak(lt) && Sorted(f, lt)
    ensures Sorted(Below(f, lt, key), lt) && Sorted(Above(f, lt, key), lt)
    ensures forall i :: 0 <= i < |Below(f, lt, key)| ==> lt(Below(f, lt, key)[i].key, key)
    ensures forall i :: 0 <= i < |Above(f, lt, key)| ==> lt(key, Above(f, lt, key)[i].key)
  {
    SortedThose(f, lt, k => lt(k, key));
    SortedThose(f, lt, k => lt(key, k));
    forall i | 0 <= i < |Below(f, lt, key)| ensures lt(Below(f, lt, key)[i].key, key) {
      assert Below(f, lt, key)[i] in Those(f, k => lt(k, key));
    }
    forall i | 0 <= i < |Above(f, lt, key)| ensures lt(key, Above(f, lt, key)[i].key) {
      assert Above(f, lt, key)[i] in Those(f, k => lt(key, k));
    }
  }

  lemma SortedNotBelow(f: seq<KV>, lt: Precedence, key: Key)
    requires Sorted(f, lt)
    ensures Sorted(NotBelow(f, lt, key), lt)
  {
    SortedThose(f, lt, k => !lt(k, key));
  }

  lemma SortedWithout(f: seq<KV>, lt: Precedence, key: Key)
    requires StrictWeak(lt) && Sorted(f, lt)
    ensures Sorted(Without(f, lt, key), lt)
  {
    SortedSides(f, lt, key);
    SortedJoin(Below(f, lt, key), Above(f, lt, key), lt, key);
  }

  lemma SortedAround(f: seq<KV>, lt: Precedence, x: KV)
    requires StrictWeak(lt) && Sorted(f, lt)
    ensures Sorted(With(f, lt, x), lt)
  {
    hide Below, Above, StrictWeak, Sorted;
    SortedSides(f, lt, x.key);
    SortedJoin(Below(f, lt, x.key), Above(f, lt, x.key), lt, x.key);
    SortedInsert(Below(f, lt, x.key), Above(f, lt, x.key), lt, x);
  }

  /** Keys equivalent to each other have the same keys below and above. */
  lemma SortedAssign(f: seq<KV>, lt: Precedence, key: Key, val: Val)
    requires StrictWeak(lt) && Sorted(f, lt)
    ensures Sorted(Assign(f, lt, key, val), lt)
  {
    var old_ := Find(f, lt, key);
    var x := KV(if old_.Some? then old_.value.key else key, val);
    SortedSides(f, lt, key);
    assert Equivalent(lt, x.key, key) by { if old_.Some? { assert old_.value in Same(f, lt, key); } }
    SameSides(lt, x.key, key);
    SortedInsert(Below(f, lt, key), Above(f, lt, key), lt, x);
  }

  lemma SameSides(lt: Precedence, x: Key, y: Key)
    requires StrictWeak(lt) && Equivalent(lt, x, y)
    ensures forall k :: (lt(k, x) <==> lt(k, y)) && (lt(x, k) <==> lt(y, k))
  {
  }

  lemma {:induction false} SortedWithAll(f: seq<KV>, lt: Precedence, g: seq<KV>)
    requires StrictWeak(lt) && Sorted(f, lt)
    ensures Sorted(WithAll(f, lt, g), lt)
    decreases |g|
  {
    if g != [] {
      SortedAround(f, lt, g[0]);
      SortedWithAll(With(f, lt, g[0]), lt, g[1..]);
    }
  }

  lemma {:induction false} SortedThose(f: seq<KV>, lt: Precedence, p: Key -> bool)
    requires Sorted(f, lt)
    ensures Sorted(Those(f, p), lt)
  {
    if f != [] {
      SortedThose(f[1..], lt, p);
      forall x | x in Those(f[1..], p) ensures lt(f[0].key, x.key) {}
    }
  }

  // ----- What is in the lists

  /** At most one pair of a sorted list has a key equivalent to a given one, and that is what is found. */
  lemma FindHas(f: seq<KV>, lt: Precedence, key: Key, x: KV)
    requires StrictWeak(lt) && Sorted(f, lt)
    ensures Find(f, lt, key) == Some(x) <==> x in f && Equivalent(lt, x.key, key)
  {
    SortedCut(f, lt, key);
    assert x in Same(f, lt, key) <==> x in f && Equivalent(lt, x.key, key);
  }

  lemma SortedHead(f: seq<KV>, lt: Precedence)
    requires StrictWeak(lt) && Sorted(f, lt) && f != []
    ensures Sorted(f[1..], lt) && forall x :: x in f[1..] <==> x in f && x != f[0]
    ensures forall x :: x in f && x != f[0] ==> lt(f[0].key, x.key) && !lt(x.key, f[0].key)
  {
    assert f == [f[0]] + f[1..];
    forall x | x in f[1..] ensures x != f[0] && lt(f[0].key, x.key) { assert lt(f[0].key, x.key); }
  }

  lemma HeadIn(f: seq<KV>)
    ensures f != [] ==> f[0] in f
  {
  }

  /** Ascending lists with the same pairs are the same. */
  lemma {:induction false} SortedUnique(f: seq<KV>, g: seq<KV>, lt: Precedence)
    requires StrictWeak(lt) && Sorted(f, lt) && Sorted(g, lt) && forall x :: x in f <==> x in g
    ensures f == g
  {
    HeadIn(f);
    HeadIn(g);
    if f != [] && g != [] {
      SortedHead(f, lt);
      SortedHead(g, lt);
      SortedUnique(f[1..], g[1..], lt);
    }
  }

  /** What is found only depends on the pairs with an equivalent key. */
  lemma SameFind(f: seq<KV>, g: seq<KV>, lt: Precedence, key: Key)
    requires StrictWeak(lt) && Sorted(f, lt) && Sorted(g, lt)
    requires forall x :: x in f || x in g ==> Equivalent(lt, x.key, key) ==> x in f && x in g
    ensures Find(f, lt, key) == Find(g, lt, key)
  {
    var a, b := Find(f, lt, key), Find(g, lt, key);
    if a.Some? { FindHas(f, lt, key, a.value); FindHas(g, lt, key, a.value); }
    if b.Some? { FindHas(f, lt, key, b.value); FindHas(g, lt, key, b.value); }
  }

  lemma WithoutHas(f: seq<KV>, lt: Precedence, key: Key, x: KV)
    ensures x in Without(f, lt, key) <==> x in f && !Equivalent(lt, x.key, key)
  {
    assert x in Below(f, lt, key) <==> x in f && lt(x.key, key);
    assert x in Above(f, lt, key) <==> x in f && lt(key, x.key);
  }

  /** After removing a key, it is not found; all other keys are found as before. */
  lemma WithoutFinds(f: seq<KV>, lt: Precedence, key: Key, k: Key)
    requires StrictWeak(lt) && Sorted(f, lt)
    ensures Sorted(Without(f, lt, key), lt)
    ensures Find(Without(f, lt, key), lt, k) == if Equivalent(lt, k, key) then None else Find(f, lt, k)
  {
    hide Sorted, Find, Without;
    var g := Without(f, lt, key);
    SortedWithout(f, lt, key);
    forall x ensures x in g <==> x in f && !Equivalent(lt, x.key, key) { WithoutHas(f, lt, key, x); }
    if Equivalent(lt, k, key) {
      if Find(g, lt, k).Some? { FindHas(g, lt, k, Find(g, lt, k).value); }
    } else {
      SameFind(f, g, lt, k);
    }
  }

  lemma AssignHas(f: seq<KV>, lt: Precedence, key: Key, val: Val, x: KV)
    ensures var old_ := Find(f, lt, key);
      x in Assign(f, lt, key, val) <==>
        x == KV(if old_.Some? then old_.value.key else key, val) || (x in f && !Equivalent(lt, x.key, key))
  {
    assert x in Below(f, lt, key) <==> x in f && lt(x.key, key);
    assert x in Above(f, lt, key) <==> x in f && lt(key, x.key);
  }

  /** After assigning a value to a key, that is found, with the key stored before if there was one; all other keys are
      found as before. */
  lemma AssignFinds(f: seq<KV>, lt: Precedence, key: Key, val: Val, k: Key)
    requires StrictWeak(lt) && Sorted(f, lt)
    ensures Sorted(Assign(f, lt, key, val), lt)
    ensures Find(Assign(f, lt, key, val), lt, k) ==
      if !Equivalent(lt, k, key) then Find(f, lt, k)
      else Some(KV(if Find(f, lt, key).Some? then Find(f, lt, key).value.key else key, val))
  {
    hide Sorted, Find, Assign;
    var g, old_ := Assign(f, lt, key, val), Find(f, lt, key);
    var y := KV(if old_.Some? then old_.value.key else key, val);
    SortedAssign(f, lt, key, val);
    forall x ensures x in g <==> x == y || (x in f && !Equivalent(lt, x.key, key)) { AssignHas(f, lt, key, val, x); }
    if old_.Some? { FindHas(f, lt, key, old_.value); }
    assert Equivalent(lt, y.key, key);
    if Equivalent(lt, k, key) {
      FindHas(g, lt, k, y);
    } else {
      SameFind(f, g, lt, k);
    }
  }

  lemma WithHas(f: seq<KV>, lt: Precedence, y: KV, x: KV)
    ensures x in With(f, lt, y) <==> x == y || (x in f && !Equivalent(lt, x.key, y.key))
  {
    assert x in Below(f, lt, y.key) <==> x in f && lt(x.key, y.key);
    assert x in Above(f, lt, y.key) <==> x in f && lt(y.key, x.key);
  }

  /** Appending keeps the pairs of the second list, and those of the first without an equivalent key in the second. */
  lemma {:induction false} WithAllHas(f: seq<KV>, lt: Precedence, g: seq<KV>, x: KV)
    requires StrictWeak(lt) && Sorted(g, lt)
    ensures x in WithAll(f, lt, g) <==> x in g || (x in f && forall y :: y in g ==> !Equivalent(lt, x.key, y.key))
    decreases |g|
  {
    if g != [] {
      WithHas(f, lt, g[0], x);
      WithAllHas(With(f, lt, g[0]), lt, g[1..], x);
      assert g == [g[0]] + g[1..];
      if x == g[0] {
        forall y | y in g[1..] ensures !Equivalent(lt, x.key, y.key) {}
      }
    }
  }
}
