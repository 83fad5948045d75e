/** Queries over the rows of a table, as the views use the database: a filter keeps
    the rows that satisfy a condition, in table order; a count is the size of a
    filter; an update rewrites the rows with a given id. */
module Tables {
  import opened Text

  /** The rows of `s` that satisfy `p`, in their order (`.filter(...)`). */
  function Filter<T>(s: seq<T>, p: T -> bool): (r: seq<T>)
    ensures |r| <= |s|
  {
    if s == [] then [] else (if p(s[0]) then [s[0]] else []) + Filter(s[1..], p)
  }

  /** A row is in the filter exactly when it is in the table and satisfies the
      condition, and it occurs there as often as in the table. */
  lemma {:induction false} FilterCount<T>(s: seq<T>, p: T -> bool, x: T)
    ensures multiset(Filter(s, p))[x] == if p(x) then multiset(s)[x] else 0
  {
    if s != [] {
      FilterCount(s[1..], p, x);
      assert s == [s[0]] + s[1..];
    }
  }

  lemma FilterIn<T>(s: seq<T>, p: T -> bool, x: T)
    ensures x in Filter(s, p) <==> x in s && p(x)
  {
    FilterCount(s, p, x);
    assert x in Filter(s, p) <==> x in multiset(Filter(s, p));
  }

  /** Every row of the filter satisfies the condition. */
  lemma FilterSatisfies<T>(s: seq<T>, p: T -> bool)
    ensures forall k :: 0 <= k < |Filter(s, p)| ==> p(Filter(s, p)[k])
  {
    var r := Filter(s, p);
    forall k | 0 <= k < |r| ensures p(r[k]) {
      FilterIn(s, p, r[k]);
    }
  }

  /** Filtering commutes with concatenation: the table order is kept. */
  lemma {:induction false} FilterConcat<T>(a: seq<T>, b: seq<T>, p: T -> bool)
    ensures Filter(a + b, p) == Filter(a, p) + Filter(b, p)
  {
    if a != [] {
      assert (a + b)[1..] == a[1..] + b;
      FilterConcat(a[1..], b, p);
    } else {
      assert a + b == b;
    }
  }

  /** A row kept by one condition or the other, never both, is in exactly one of
      the two filters: they split the table. */
  lemma {:induction false} FilterSplit<T>(s: seq<T>, p: T -> bool, q: T -> bool)
    requires forall x :: q(x) <==> !p(x)
    ensures multiset(Filter(s, p)) + multiset(Filter(s, q)) == multiset(s)
  {
    if s != [] {
      var x, t := s[0], s[1..];
      FilterSplit(t, p, q);
      assert s == [x] + t;
      var hp := if p(x) then [x] else [];
      var hq := if q(x) then [x] else [];
      assert Filter(s, p) == hp + Filter(t, p);
      assert Filter(s, q) == hq + Filter(t, q);
      assert multiset(hp) + multiset(hq) == multiset{x} by { assert q(x) <==> !p(x); }
    }
  }

  /** Filtering twice is filtering by both conditions. */
  lemma {:induction false} FilterFilter<T>(s: seq<T>, p: T -> bool, q: T -> bool, pq: T -> bool)
    requires forall x :: pq(x) <==> p(x) && q(x)
    ensures Filter(Filter(s, p), q) == Filter(s, pq)
  {
    if s != [] {
      FilterFilter(s[1..], p, q, pq);
      assert pq(s[0]) <==> p(s[0]) && q(s[0]);
      var f := Filter(s, p);
      if p(s[0]) {
        assert f == [s[0]] + Filter(s[1..], p);
        assert f[0] == s[0] && f[1..] == Filter(s[1..], p);
      } else {
        assert f == Filter(s[1..], p);
      }
    }
  }

  /** Conditions that agree on every row keep the same rows. */
  lemma {:induction false} FilterSame<T>(s: seq<T>, p: T -> bool, q: T -> bool)
    requires forall x :: p(x) == q(x)
    ensures Filter(s, p) == Filter(s, q)
  {
    if s != [] {
      FilterSame(s[1..], p, q);
      assert p(s[0]) == q(s[0]);
    }
  }

  /** Replacing one row takes that row out of the multiset and puts the new one in. */
  lemma MultisetUpdate<T>(s: seq<T>, i: nat, v: T)
    requires i < |s|
    ensures multiset(s[i := v]) == multiset(s) - multiset{s[i]} + multiset{v}
  {
    assert s == s[..i] + [s[i]] + s[i + 1..];
    assert s[i := v] == s[..i] + [v] + s[i + 1..];
  }

  /** A condition that every row satisfies keeps the whole table. */
  lemma {:induction false} FilterAll<T>(s: seq<T>, p: T -> bool)
    requires forall k :: 0 <= k < |s| ==> p(s[k])
    ensures Filter(s, p) == s
  {
    if s != [] {
      FilterAll(s[1..], p);
      assert [s[0]] + s[1..] == s;
    }
  }

  /** A condition that no row satisfies keeps nothing. */
  lemma {:induction false} FilterNone<T>(s: seq<T>, p: T -> bool)
    requires forall k :: 0 <= k < |s| ==> !p(s[k])
    ensures Filter(s, p) == []
  {
    if s != [] {
      FilterNone(s[1..], p);
      assert !p(s[0]);
    }
  }

  /** The number of rows satisfying `p` (`.count()` of a filter). */
  function Count<T>(s: seq<T>, p: T -> bool): nat { |Filter(s, p)| }

  /** Replacing one row changes a count by what the old and new rows contribute. */
  lemma {:induction false} CountUpdate<T>(s: seq<T>, i: nat, y: T, p: T -> bool)
    requires i < |s|
    ensures Count(s[i := y], p) + (if p(s[i]) then 1 else 0) == Count(s, p) + (if p(y) then 1 else 0)
  {
    if i > 0 {
      CountUpdate(s[1..], i - 1, y, p);
      assert s[i := y][1..] == s[1..][i - 1 := y];
    } else {
      assert s[i := y][1..] == s[1..];
    }
  }

  /** Two counts whose conditions split the rows add up to the table size. */
  lemma CountSplit<T>(s: seq<T>, p: T -> bool, q: T -> bool)
    requires forall x :: q(x) <==> !p(x)
    ensures Count(s, p) + Count(s, q) == |s|
  {
    FilterSplit(s, p, q);
    assert |multiset(Filter(s, p)) + multiset(Filter(s, q))| == |multiset(s)|;
  }

  /** A count bounded by a weaker condition's count. */
  lemma {:induction false} CountMono<T>(s: seq<T>, p: T -> bool, q: T -> bool)
    requires forall x :: p(x) ==> q(x)
    ensures Count(s, p) <= Count(s, q)
  {
    if s != [] { CountMono(s[1..], p, q); }
  }

  /** Counting over two equally long tables where each row of the first
      satisfies the condition only if the matching row of the second does. */
  lemma {:induction false} CountPointwise<T>(r: seq<T>, s: seq<T>, p: T -> bool)
    requires |r| == |s| && forall k :: 0 <= k < |r| ==> p(r[k]) ==> p(s[k])
    ensures Count(r, p) <= Count(s, p)
  {
    if r != [] {
      assert p(r[0]) ==> p(s[0]);
      forall k | 0 <= k < |r[1..]| ensures p(r[1..][k]) ==> p(s[1..][k]) {
        assert r[1..][k] == r[k + 1] && s[1..][k] == s[k + 1];
      }
      CountPointwise(r[1..], s[1..], p);
    }
  }

  /** Appending a row raises a count by what that row contributes. */
  lemma CountAppend<T>(s: seq<T>, x: T, p: T -> bool)
    ensures Count(s + [x], p) == Count(s, p) + (if p(x) then 1 else 0)
  {
    FilterConcat(s, [x], p);
    assert Filter([x], p) == (if p(x) then [x] else []) + Filter([], p);
  }

  /** A relation that holds between every earlier and later row still holds
      after filtering. */
  lemma {:induction false} FilterPairwise<T>(s: seq<T>, p: T -> bool, rel: (T, T) -> bool)
    requires forall i, j :: 0 <= i < j < |s| ==> rel(s[i], s[j])
    ensures forall i, j :: 0 <= i < j < |Filter(s, p)| ==> rel(Filter(s, p)[i], Filter(s, p)[j])
  {
    if s != [] {
      var t := s[1..];
      forall i, j | 0 <= i < j < |t| ensures rel(t[i], t[j]) { assert t[i] == s[i + 1] && t[j] == s[j + 1]; }
      FilterPairwise(t, p, rel);
      var f := Filter(s, p);
      if p(s[0]) {
        var ft := Filter(t, p);
        assert f == [s[0]] + ft;
        forall i, j | 0 <= i < j < |f| ensures rel(f[i], f[j]) {
          if i == 0 {
            assert f[j] == ft[j - 1];
            FilterIn(t, p, ft[j - 1]);
            var m :| 0 <= m < |t| && t[m] == ft[j - 1];
            assert s[m + 1] == t[m];
          } else {
            assert f[i] == ft[i - 1] && f[j] == ft[j - 1];
          }
        }
      }
    }
  }

  /** The first row satisfying `p`, by index. */
  function IndexWhere<T>(s: seq<T>, p: T -> bool): (r: Option<nat>)
    ensures r.Some? ==> r.value < |s| && p(s[r.value]) && forall k :: 0 <= k < r.value ==> !p(s[k])
    ensures r.None? ==> forall k :: 0 <= k < |s| ==> !p(s[k])
  {
    if s == [] then None
    else if p(s[0]) then Some(0)
    else
      match IndexWhere(s[1..], p)
      case None => assert forall k :: 0 < k < |s| ==> s[k] == s[1..][k - 1]; None
      case Some(i) => assert forall k :: 0 < k <= i + 1 ==> s[k] == s[1..][k - 1]; Some(i + 1)
  }

  /** The first row satisfying `p` is the one `IndexWhere` finds. */
  lemma IndexWhereFirst<T>(s: seq<T>, p: T -> bool, i: nat)
    requires i < |s| && p(s[i]) && forall k :: 0 <= k < i ==> !p(s[k])
    ensures IndexWhere(s, p) == Some(i)
  {
  }

  // ---------------------------------------------------------------- building results row by row

  /** The defined results of `f` over `s`, in order: a row for which `f` gives
      nothing is passed over. */
  function FilterMap<T, U>(s: seq<T>, f: T -> Option<U>): (r: seq<U>)
    ensures |r| <= |s|
  {
    if s == [] then [] else (if f(s[0]).Some? then [f(s[0]).value] else []) + FilterMap(s[1..], f)
  }

  lemma {:induction false} FilterMapConcat<T, U>(a: seq<T>, b: seq<T>, f: T -> Option<U>)
    ensures FilterMap(a + b, f) == FilterMap(a, f) + FilterMap(b, f)
  {
    if a == [] {
      assert a + b == b;
    } else {
      var ab := a + b;
      assert ab[0] == a[0] && ab[1..] == a[1..] + b;
      FilterMapConcat(a[1..], b, f);
      var h := if f(a[0]).Some? then [f(a[0]).value] else [];
      var ra, rb := FilterMap(a[1..], f), FilterMap(b, f);
      assert FilterMap(ab, f) == h + FilterMap(ab[1..], f);
      assert FilterMap(a, f) == h + ra;
      assert h + (ra + rb) == (h + ra) + rb;
    }
  }

  /** Exactly the rows for which `f` is defined contribute, one result each, in
      table order. */
  lemma {:induction false} FilterMapAt<T, U>(s: seq<T>, f: T -> Option<U>, p: T -> bool)
    requires forall x :: p(x) <==> f(x).Some?
    ensures |FilterMap(s, f)| == |Filter(s, p)|
    ensures forall k :: 0 <= k < |FilterMap(s, f)| ==>
      f(Filter(s, p)[k]).Some? && FilterMap(s, f)[k] == f(Filter(s, p)[k]).value
  {
    if s != [] {
      FilterMapAt(s[1..], f, p);
      var r, rest, fl, frest := FilterMap(s, f), FilterMap(s[1..], f), Filter(s, p), Filter(s[1..], p);
      if p(s[0]) {
        assert fl == [s[0]] + frest;
        assert r == [f(s[0]).value] + rest;
        forall k | 0 < k < |r| ensures r[k] == rest[k - 1] && fl[k] == frest[k - 1] { }
      }
    }
  }

  /** The results of `f` over all of `s`, or nothing as soon as one row has none. */
  function MapAll<T, U>(s: seq<T>, f: T -> Option<U>): (r: Option<seq<U>>)
    ensures r.Some? ==> |r.value| == |s|
  {
    if s == [] then Some([])
    else
      var rest := MapAll(s[1..], f);
      if f(s[0]).None? || rest.None? then None else Some([f(s[0]).value] + rest.value)
  }

  /** There is no result exactly when some row has none. */
  lemma {:induction false} MapAllNone<T, U>(s: seq<T>, f: T -> Option<U>)
    ensures MapAll(s, f).None? <==> exists k :: 0 <= k < |s| && f(s[k]).None?
  {
    if s != [] {
      MapAllNone(s[1..], f);
      if exists k :: 0 <= k < |s[1..]| && f(s[1..][k]).None? {
        var k :| 0 <= k < |s[1..]| && f(s[1..][k]).None?;
        assert s[k + 1] == s[1..][k];
      }
      if exists k :: 0 <= k < |s| && f(s[k]).None? {
        var k :| 0 <= k < |s| && f(s[k]).None?;
        if k > 0 { assert s[1..][k - 1] == s[k]; }
      }
    }
  }

  lemma {:induction false} MapAllConcat<T, U>(a: seq<T>, b: seq<T>, f: T -> Option<U>)
    ensures MapAll(a + b, f) ==
      if MapAll(a, f).Some? && MapAll(b, f).Some? then Some(MapAll(a, f).value + MapAll(b, f).value) else None
  {
    if a == [] {
      assert a + b == b;
      if MapAll(b, f).Some? { assert [] + MapAll(b, f).value == MapAll(b, f).value; }
    } else {
      assert (a + b)[0] == a[0] && (a + b)[1..] == a[1..] + b;
      MapAllConcat(a[1..], b, f);
      if f(a[0]).Some? && MapAll(a[1..], f).Some? && MapAll(b, f).Some? {
        var x, ra, rb := f(a[0]).value, MapAll(a[1..], f).value, MapAll(b, f).value;
        assert [x] + (ra + rb) == ([x] + ra) + rb;
      }
    }
  }

  /** Where `f` agrees with `g` on every row and gives a result for all of them,
      the two ways of collecting results agree. */
  lemma {:induction false} MapAllIsFilterMap<T, U>(s: seq<T>, f: T -> Option<U>, g: T -> Option<U>)
    requires forall k :: 0 <= k < |s| ==> f(s[k]) == g(s[k])
    requires MapAll(s, f).Some?
    ensures MapAll(s, f).value == FilterMap(s, g)
  {
    if s != [] {
      forall k | 0 <= k < |s[1..]| ensures f(s[1..][k]) == g(s[1..][k]) { assert s[1..][k] == s[k + 1]; }
      MapAllIsFilterMap(s[1..], f, g);
    }
  }

  /** One more row at the end: its result, if any, comes last. */
  lemma FilterMapSnoc<T, U>(s: seq<T>, x: T, f: T -> Option<U>)
    ensures FilterMap(s + [x], f) == FilterMap(s, f) + (if f(x).Some? then [f(x).value] else [])
  {
    FilterMapConcat(s, [x], f);
    assert [x][0] == x && [x][1..] == [];
  }

  /** One more row at the end: collecting goes on only while every row has a
      result. */
  lemma MapAllSnoc<T, U>(s: seq<T>, x: T, f: T -> Option<U>)
    ensures MapAll(s + [x], f) ==
      if MapAll(s, f).Some? && f(x).Some? then Some(MapAll(s, f).value + [f(x).value]) else None
  {
    MapAllConcat(s, [x], f);
    assert [x][0] == x && [x][1..] == [] && MapAll([x][1..], f) == Some([]);
    if f(x).Some? { assert [f(x).value] + [] == [f(x).value]; }
  }
}
