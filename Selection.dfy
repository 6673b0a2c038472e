/**
 * The `filter`, `sort` and `[0]` / `find` steps of the last/next choice,
 * for any card type. `Array.prototype.sort` is stable (ECMAScript 2019 and
 * later), so the order it produces is fixed by the comparator alone; a
 * stable insertion sort yields that same order.
 */
module Selection {
  import opened Wrappers
  import opened Calendar

  /** `arr.filter(p)`. */
  function Filter<T>(s: seq<T>, p: T -> bool): (r: seq<T>)
    ensures |r| <= |s|
    ensures forall i :: 0 <= i < |r| ==> r[i] in s && p(r[i])
    ensures forall i :: 0 <= i < |s| && p(s[i]) ==> s[i] in r
  {
    if s == [] then [] else (if p(s[0]) then [s[0]] else []) + Filter(s[1..], p)
  }

  /** `s[k]` is the first element of `s` that satisfies `p`. */
  predicate FirstAt<T>(s: seq<T>, p: T -> bool, k: int)
  {
    0 <= k < |s| && p(s[k]) && forall j :: 0 <= j < k ==> !p(s[j])
  }

  /** No element after position `k` satisfies `p`. */
  predicate NoneAfter<T>(s: seq<T>, p: T -> bool, k: int)
  {
    forall j :: k < j < |s| && 0 <= j ==> !p(s[j])
  }

  /** `s[j]` is the first element after position `k` that satisfies `p`. */
  predicate NextAfter<T>(s: seq<T>, p: T -> bool, k: int, j: int)
  {
    0 <= k < j < |s| && p(s[j]) && forall q :: k < q < j ==> !p(s[q])
  }

  /** `s[l]` is the last element of `s` that satisfies `p`. */
  predicate LastAt<T>(s: seq<T>, p: T -> bool, l: int)
  {
    0 <= l < |s| && p(s[l]) && NoneAfter(s, p, l)
  }

  /** One step of the filter. */
  lemma FilterCons<T>(x: T, s: seq<T>, p: T -> bool)
    ensures Filter([x] + s, p) == (if p(x) then [x] else []) + Filter(s, p)
  {
    assert ([x] + s)[1..] == s;
  }

  /** Nothing passes the filter when no element satisfies `p`. */
  lemma FilterNone<T>(s: seq<T>, p: T -> bool)
    requires forall j :: 0 <= j < |s| ==> !p(s[j])
    ensures Filter(s, p) == []
  {
    if Filter(s, p) != [] {
      var i :| 0 <= i < |s| && s[i] == Filter(s, p)[0];
    }
  }

  /** When `s[k]` is the first element satisfying `p`, the filter starts with it and goes on with what follows it. */
  lemma {:induction false} FilterFrom<T>(s: seq<T>, p: T -> bool, k: nat)
    requires k < |s| && p(s[k]) && forall j :: 0 <= j < k ==> !p(s[j])
    ensures Filter(s, p) == [s[k]] + Filter(s[k + 1..], p)
  {
    if k > 0 {
      var t := s[1..];
      assert !p(s[0]) && t[k - 1] == s[k];
      assert forall j :: 0 <= j < k - 1 ==> t[j] == s[j + 1];
      FilterFrom(t, p, k - 1);
      assert t[k..] == s[k + 1..];
    }
  }

  /** The first element the filter keeps is the first `p`-element; the second, if any, is the next one after it. */
  lemma FilterFirstTwo<T>(s: seq<T>, p: T -> bool, i: int)
    requires FirstAt(s, p, i)
    ensures Filter(s, p) != [] && Filter(s, p)[0] == s[i]
    ensures NoneAfter(s, p, i) ==> |Filter(s, p)| == 1
    ensures forall j :: NextAfter(s, p, i, j) ==> |Filter(s, p)| > 1 && Filter(s, p)[1] == s[j]
  {
    FilterFrom(s, p, i);
    var rest := s[i + 1..];
    if NoneAfter(s, p, i) {
      assert forall q :: 0 <= q < |rest| ==> rest[q] == s[i + 1 + q];
      FilterNone(rest, p);
    }
    forall j | NextAfter(s, p, i, j) ensures |Filter(s, p)| > 1 && Filter(s, p)[1] == s[j] {
      FilterSecond(s, p, i, j);
    }
  }

  /** The element after the first one kept is the next `p`-element. */
  lemma FilterSecond<T>(s: seq<T>, p: T -> bool, i: int, j: int)
    requires FirstAt(s, p, i) && NextAfter(s, p, i, j)
    ensures |Filter(s, p)| > 1 && Filter(s, p)[1] == s[j]
  {
    FilterFrom(s, p, i);
    var rest, k := s[i + 1..], j - i - 1;
    assert rest[k] == s[j];
    assert forall q :: 0 <= q < k ==> rest[q] == s[i + 1 + q] && !p(rest[q]);
    FilterFrom(rest, p, k);
    assert Filter(s, p) == [s[i]] + ([s[j]] + Filter(rest[k + 1..], p));
  }

  /** The last element the filter keeps is the last element of `s` that satisfies `p`. */
  lemma {:induction false} FilterLast<T>(s: seq<T>, p: T -> bool)
    requires Filter(s, p) != []
    ensures exists l :: LastAt(s, p, l) && Filter(s, p)[|Filter(s, p)| - 1] == s[l]
  {
    var t := s[1..];
    assert forall j :: 1 <= j < |s| ==> s[j] == t[j - 1];
    if Filter(t, p) != [] {
      FilterLast(t, p);
      var l :| LastAt(t, p, l) && Filter(t, p)[|Filter(t, p)| - 1] == t[l];
      assert Filter(s, p)[|Filter(s, p)| - 1] == s[l + 1];
      assert LastAt(s, p, l + 1);
    } else {
      assert forall j :: 0 <= j < |t| ==> !p(t[j]);
      assert Filter(s, p)[|Filter(s, p)| - 1] == s[0];
      assert LastAt(s, p, 0);
    }
  }

  /** `arr[0] ?? null`. */
  function Head<T>(s: seq<T>): (r: Option<T>)
    ensures r.None? <==> s == []
    ensures r.Some? ==> r.value == s[0]
  {
    if s == [] then None else Some(s[0])
  }

  /**
   * The comparator `(a, b) => key(a) - key(b)` (ascending) or
   * `(a, b) => key(b) - key(a)` (descending) is negative: `a` sorts strictly
   * ahead of `b`.
   */
  predicate Ahead<T>(key: T -> Date, descending: bool, a: T, b: T)
  {
    if descending then Less(key(b), key(a)) else Less(key(a), key(b))
  }

  /** `Ahead` is irreflexive, asymmetric and its complement is transitive. */
  lemma AheadIsStrictWeak<T>(key: T -> Date, descending: bool, a: T, b: T, c: T)
    ensures !Ahead(key, descending, a, a)
    ensures Ahead(key, descending, a, b) ==> !Ahead(key, descending, b, a)
    ensures !Ahead(key, descending, a, b) && !Ahead(key, descending, b, c) ==> !Ahead(key, descending, a, c)
  {
    LessIsStrictTotal(key(a), key(b), key(c));
    LessIsStrictTotal(key(b), key(c), key(a));
    LessIsStrictTotal(key(c), key(a), key(b));
  }

  predicate Sorted<T>(key: T -> Date, descending: bool, s: seq<T>)
  {
    forall i, j :: 0 <= i < j < |s| ==> !Ahead(key, descending, s[j], s[i])
  }

  /** Places `x`, which came before every element of `s`, after those that sort strictly ahead of it. */
  function Insert<T>(key: T -> Date, descending: bool, x: T, s: seq<T>): (r: seq<T>)
    ensures multiset(r) == multiset(s) + multiset{x}
    ensures Sorted(key, descending, s) ==> Sorted(key, descending, r)
  {
    if s == [] || !Ahead(key, descending, s[0], x) then
      var r := [x] + s;
      assert Sorted(key, descending, s) ==> Sorted(key, descending, r) by {
        if Sorted(key, descending, s) { InsertAtFront(key, descending, x, s); }
      }
      r
    else
      var t := Insert(key, descending, x, s[1..]);
      assert s == [s[0]] + s[1..];
      assert Sorted(key, descending, s) ==> Sorted(key, descending, [s[0]] + t) by {
        if Sorted(key, descending, s) { InsertBehind(key, descending, x, s, t); }
      }
      [s[0]] + t
  }

  lemma InsertAtFront<T>(key: T -> Date, descending: bool, x: T, s: seq<T>)
    requires s == [] || !Ahead(key, descending, s[0], x)
    requires Sorted(key, descending, s)
    ensures Sorted(key, descending, [x] + s)
  {
    var r := [x] + s;
    forall j | 0 < j < |r| ensures !Ahead(key, descending, r[j], x) {
      AheadIsStrictWeak(key, descending, r[j], s[0], x);
    }
  }

  lemma InsertBehind<T>(key: T -> Date, descending: bool, x: T, s: seq<T>, t: seq<T>)
    requires s != [] && Ahead(key, descending, s[0], x)
    requires Sorted(key, descending, s) && Sorted(key, descending, t)
    requires multiset(t) == multiset(s[1..]) + multiset{x}
    ensures Sorted(key, descending, [s[0]] + t)
  {
    var r := [s[0]] + t;
    forall j | 0 < j < |r| ensures !Ahead(key, descending, r[j], s[0]) {
      assert r[j] == t[j - 1];
      assert r[j] in multiset(t);
      if r[j] == x {
        AheadIsStrictWeak(key, descending, s[0], x, x);
      } else {
        assert r[j] in multiset(s[1..]);
        var i :| 0 <= i < |s[1..]| && s[1..][i] == r[j];
        assert s[i + 1] == r[j];
      }
    }
  }

  /** `arr.sort(comparator)`: a stable sort by `key`. */
  function StableSort<T>(key: T -> Date, descending: bool, s: seq<T>): (r: seq<T>)
    ensures multiset(r) == multiset(s)
    ensures Sorted(key, descending, r)
  {
    if s == [] then []
    else
      assert s == [s[0]] + s[1..];
      Insert(key, descending, s[0], StableSort(key, descending, s[1..]))
  }

  /**
   * `s[k]` is what a stable sort of the `p`-elements of `s` puts first: no
   * `p`-element sorts strictly ahead of it, and it sorts strictly ahead of
   * every earlier `p`-element (ties go to the earliest).
   */
  ghost predicate FirstBest<T>(s: seq<T>, p: T -> bool, key: T -> Date, descending: bool, k: int)
  {
    0 <= k < |s| && p(s[k])
    && (forall j :: 0 <= j < |s| && p(s[j]) ==> !Ahead(key, descending, s[j], s[k]))
    && (forall j :: 0 <= j < k && p(s[j]) ==> Ahead(key, descending, s[k], s[j]))
  }

  /** The head of `Insert(x, r)`. */
  lemma HeadOfInsert<T>(key: T -> Date, descending: bool, x: T, r: seq<T>)
    ensures Insert(key, descending, x, r) != []
    ensures Insert(key, descending, x, r)[0] == if r != [] && Ahead(key, descending, r[0], x) then r[0] else x
  {
  }

  lemma FirstBestSkip<T>(s: seq<T>, p: T -> bool, key: T -> Date, descending: bool, k: int)
    requires s != [] && !p(s[0]) && FirstBest(s[1..], p, key, descending, k)
    ensures FirstBest(s, p, key, descending, k + 1)
  {
    assert forall j :: 1 <= j < |s| ==> s[j] == s[1..][j - 1];
  }

  lemma FirstBestLater<T>(s: seq<T>, p: T -> bool, key: T -> Date, descending: bool, k: int)
    requires s != [] && p(s[0]) && FirstBest(s[1..], p, key, descending, k)
    requires Ahead(key, descending, s[1..][k], s[0])
    ensures FirstBest(s, p, key, descending, k + 1)
  {
    assert forall j :: 1 <= j < |s| ==> s[j] == s[1..][j - 1];
    AheadIsStrictWeak(key, descending, s[k + 1], s[0], s[0]);
  }

  lemma FirstBestFront<T>(s: seq<T>, p: T -> bool, key: T -> Date, descending: bool, k: int)
    requires s != [] && p(s[0]) && FirstBest(s[1..], p, key, descending, k)
    requires !Ahead(key, descending, s[1..][k], s[0])
    ensures FirstBest(s, p, key, descending, 0)
  {
    var xs := s[1..];
    forall j | 0 <= j < |s| && p(s[j]) ensures !Ahead(key, descending, s[j], s[0]) {
      if j == 0 {
        AheadIsStrictWeak(key, descending, s[0], s[0], s[0]);
      } else {
        assert s[j] == xs[j - 1];
        AheadIsStrictWeak(key, descending, s[j], xs[k], s[0]);
      }
    }
  }

  lemma FirstBestAlone<T>(s: seq<T>, p: T -> bool, key: T -> Date, descending: bool)
    requires s != [] && p(s[0]) && forall j :: 0 <= j < |s[1..]| ==> !p(s[1..][j])
    ensures FirstBest(s, p, key, descending, 0)
  {
    assert forall j :: 1 <= j < |s| ==> s[j] == s[1..][j - 1];
    AheadIsStrictWeak(key, descending, s[0], s[0], s[0]);
  }

  /** The head of the sorted filter is the first best element, and it is absent exactly when no element passes. */
  lemma {:induction false} HeadOfSortedFilter<T>(s: seq<T>, p: T -> bool, key: T -> Date, descending: bool)
    ensures Head(StableSort(key, descending, Filter(s, p))).None? <==> forall j :: 0 <= j < |s| ==> !p(s[j])
    ensures Head(StableSort(key, descending, Filter(s, p))).Some? ==>
              exists k :: FirstBest(s, p, key, descending, k) && Head(StableSort(key, descending, Filter(s, p))).value == s[k]
  {
    if s == [] {
      return;
    }
    var x, xs := s[0], s[1..];
    assert forall j :: 1 <= j < |s| ==> s[j] == xs[j - 1];
    HeadOfSortedFilter(xs, p, key, descending);
    var g := Filter(xs, p);
    var rest := StableSort(key, descending, g);
    assert rest == [] <==> g == [] by {
      assert |multiset(rest)| == |multiset(g)|;
    }
    if !p(x) {
      assert Filter(s, p) == g;
      if g != [] {
        var k :| FirstBest(xs, p, key, descending, k) && rest[0] == xs[k];
        FirstBestSkip(s, p, key, descending, k);
      }
      return;
    }
    assert Filter(s, p) == [x] + g;
    assert StableSort(key, descending, Filter(s, p)) == Insert(key, descending, x, rest);
    HeadOfInsert(key, descending, x, rest);
    if g == [] {
      FirstBestAlone(s, p, key, descending);
      return;
    }
    var k :| FirstBest(xs, p, key, descending, k) && rest[0] == xs[k];
    if Ahead(key, descending, xs[k], x) {
      FirstBestLater(s, p, key, descending, k);
    } else {
      FirstBestFront(s, p, key, descending, k);
    }
  }

  /** `s[k]` is a `p`-element with the latest key, and no earlier `p`-element has a key as late. */
  ghost predicate LatestAt<T>(s: seq<T>, p: T -> bool, key: T -> Date, k: int)
  {
    0 <= k < |s| && p(s[k])
    && (forall j :: 0 <= j < |s| && p(s[j]) ==> LessEq(key(s[j]), key(s[k])))
    && (forall j :: 0 <= j < k && p(s[j]) ==> Less(key(s[j]), key(s[k])))
  }

  /** `s[k]` is a `p`-element with the earliest key, and no earlier `p`-element has a key as early. */
  ghost predicate EarliestAt<T>(s: seq<T>, p: T -> bool, key: T -> Date, k: int)
  {
    0 <= k < |s| && p(s[k])
    && (forall j :: 0 <= j < |s| && p(s[j]) ==> LessEq(key(s[k]), key(s[j])))
    && (forall j :: 0 <= j < k && p(s[j]) ==> Less(key(s[k]), key(s[j])))
  }

  lemma FirstBestIsLatest<T>(s: seq<T>, p: T -> bool, key: T -> Date, k: int)
    requires FirstBest(s, p, key, true, k)
    ensures LatestAt(s, p, key, k)
  {
    forall j | 0 <= j < |s| && p(s[j]) ensures LessEq(key(s[j]), key(s[k])) {
      LessIsStrictTotal(key(s[j]), key(s[k]), key(s[k]));
    }
  }

  lemma FirstBestIsEarliest<T>(s: seq<T>, p: T -> bool, key: T -> Date, k: int)
    requires FirstBest(s, p, key, false, k)
    ensures EarliestAt(s, p, key, k)
  {
    forall j | 0 <= j < |s| && p(s[j]) ensures LessEq(key(s[k]), key(s[j])) {
      LessIsStrictTotal(key(s[k]), key(s[j]), key(s[j]));
    }
  }

  /**
   * Sorting the `p`-elements by `key`, latest first, puts first the
   * `p`-element with the latest key, the earliest in `s` among equals.
   */
  lemma LatestFirst<T>(s: seq<T>, p: T -> bool, key: T -> Date)
    ensures Head(StableSort(key, true, Filter(s, p))).None? <==> forall j :: 0 <= j < |s| ==> !p(s[j])
    ensures Head(StableSort(key, true, Filter(s, p))).Some? ==>
              exists k :: LatestAt(s, p, key, k) && Head(StableSort(key, true, Filter(s, p))) == Some(s[k])
  {
    HeadOfSortedFilter(s, p, key, true);
    var h := Head(StableSort(key, true, Filter(s, p)));
    if h.Some? {
      var k :| FirstBest(s, p, key, true, k) && h.value == s[k];
      FirstBestIsLatest(s, p, key, k);
      assert h == Some(s[k]);
    }
  }

  /**
   * Sorting the `p`-elements by `key`, earliest first, puts first the
   * `p`-element with the earliest key, the earliest in `s` among equals.
   */
  lemma EarliestFirst<T>(s: seq<T>, p: T -> bool, key: T -> Date)
    ensures Head(StableSort(key, false, Filter(s, p))).None? <==> forall j :: 0 <= j < |s| ==> !p(s[j])
    ensures Head(StableSort(key, false, Filter(s, p))).Some? ==>
              exists k :: EarliestAt(s, p, key, k) && Head(StableSort(key, false, Filter(s, p))) == Some(s[k])
  {
    HeadOfSortedFilter(s, p, key, false);
    var h := Head(StableSort(key, false, Filter(s, p)));
    if h.Some? {
      var k :| FirstBest(s, p, key, false, k) && h.value == s[k];
      FirstBestIsEarliest(s, p, key, k);
      assert h == Some(s[k]);
    }
  }

  /** `arr.findIndex(p)`, with absence for -1. */
  function FirstIndex<T>(s: seq<T>, p: T -> bool): (r: Option<nat>)
    ensures r.None? <==> forall j :: 0 <= j < |s| ==> !p(s[j])
    ensures r.Some? ==> r.value < |s| && p(s[r.value]) && forall j :: 0 <= j < r.value ==> !p(s[j])
  {
    if s == [] then None
    else if p(s[0]) then Some(0)
    else
      match FirstIndex(s[1..], p)
      case None => None
      case Some(i) => Some(i + 1)
  }

  /**
   * A loop that stops at the first element passing `p` and gives its index,
   * or -1 when it runs off the end.
   */
  method IndexOfFirst<T>(s: seq<T>, p: T -> bool) returns (found: int)
    ensures -1 <= found < |s|
    ensures found == -1 <==> forall j :: 0 <= j < |s| ==> !p(s[j])
    ensures found >= 0 ==> p(s[found]) && forall j :: 0 <= j < found ==> !p(s[j])
  {
    for k := 0 to |s|
      invariant forall j :: 0 <= j < k ==> !p(s[j])
    {
      if p(s[k]) {
        return k;
      }
    }
    return -1;
  }

  /** `arr.find(p) ?? null`. */
  function Find<T>(s: seq<T>, p: T -> bool): (r: Option<T>)
    ensures r.None? <==> forall j :: 0 <= j < |s| ==> !p(s[j])
    ensures r.Some? ==> exists k :: 0 <= k < |s| && r.value == s[k] && p(s[k]) && forall j :: 0 <= j < k ==> !p(s[j])
  {
    match FirstIndex(s, p)
    case None => None
    case Some(k) => Some(s[k])
  }
}
