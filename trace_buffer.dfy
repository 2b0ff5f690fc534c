/** The bounded trace buffers of both function tracers: push with
    oldest-first eviction, the filters, and the copy sorted by descending
    duration that getSlowest slices. Array.prototype.sort is stable, so the
    sort is a stable insertion sort by a key. */
module TraceBuffer {
  import opened Util

  /** `trace.push(e); if (trace.length > max) trace.shift();` */
  function Pushed<T>(trace: seq<T>, e: T, max: nat): (r: seq<T>)
    ensures |trace| < max ==> r == trace + [e]
    ensures |trace| >= max ==> r == (trace + [e])[1..]
    ensures |trace| <= max && max > 0 ==> |r| <= max && r[|r| - 1] == e
  {
    var t := trace + [e];
    if |t| > max then t[1..] else t
  }

  /** When the buffer is full, the push evicts exactly the oldest entry. */
  lemma PushedFull<T>(trace: seq<T>, e: T, max: nat)
    requires |trace| == max > 0
    ensures Pushed(trace, e, max) == trace[1..] + [e]
    ensures |Pushed(trace, e, max)| == max
  {
  }

  /** `trace.filter(p)` */
  function Filter<T>(s: seq<T>, p: T -> bool): (r: seq<T>)
    ensures |r| <= |s|
  {
    if s == [] then []
    else
      var init := s[..|s| - 1];
      var last := s[|s| - 1];
      assert s == init + [last];
      Filter(init, p) + (if p(last) then [last] else [])
  }

  /** The filter keeps every matching entry as often as it occurs, and no
      other. */
  lemma {:induction false} FilterCounts<T>(s: seq<T>, p: T -> bool, x: T)
    ensures multiset(Filter(s, p))[x] == if p(x) then multiset(s)[x] else 0
    ensures x in Filter(s, p) <==> x in s && p(x)
  {
    if s != [] {
      var init := s[..|s| - 1];
      FilterCounts(init, p, x);
      assert s == init + [s[|s| - 1]];
    }
  }

  /** Filtering keeps order: it distributes over concatenation. */
  lemma {:induction false} FilterAppend<T>(a: seq<T>, b: seq<T>, p: T -> bool)
    ensures Filter(a + b, p) == Filter(a, p) + Filter(b, p)
    decreases |b|
  {
    if b == [] {
      assert a + b == a;
    } else {
      var init := b[..|b| - 1];
      assert (a + b)[..|a + b| - 1] == a + init;
      assert (a + b)[|a + b| - 1] == b[|b| - 1];
      FilterAppend(a, init, p);
    }
  }

  /** Filtering keeps the relative order of the elements it keeps: a kept
      element at y comes right after the kept elements before y, among them
      any kept element at x < y. */
  lemma FilterKeepsOrder<T>(s: seq<T>, p: T -> bool, x: nat, y: nat)
    requires x < y < |s| && p(s[x]) && p(s[y])
    ensures var f, n := Filter(s, p), |Filter(s[..y], p)|;
            n < |f| && f[n] == s[y] && s[x] in f[..n]
  {
    var before, from := s[..y], s[y..];
    assert s == before + from;
    FilterAppend(before, from, p);
    var f, fa := Filter(s, p), Filter(before, p);
    FilterHead(from, p);
    assert before[x] == s[x];
    FilterCounts(before, p, s[x]);
    var i :| 0 <= i < |fa| && fa[i] == s[x];
    assert f[..|fa|][i] == s[x];
  }

  /** A kept first element is the first element kept. */
  lemma FilterHead<T>(s: seq<T>, p: T -> bool)
    requires s != [] && p(s[0])
    ensures Filter(s, p) != [] && Filter(s, p)[0] == s[0]
  {
    assert s == [s[0]] + s[1..];
    FilterAppend([s[0]], s[1..], p);
    assert [s[0]][..0] == [];
  }

  predicate SortedDesc<T>(s: seq<T>, key: T -> real) {
    forall i, j :: 0 <= i < j < |s| ==> key(s[i]) >= key(s[j])
  }

  /** Inserts `x` into a list sorted by descending key, after every element
      whose key is at least x's, so equal keys keep their arrival order. */
  function Insert<T>(x: T, s: seq<T>, key: T -> real): (r: seq<T>)
    requires SortedDesc(s, key)
    ensures |r| == |s| + 1
    ensures r[0] == x || (s != [] && r[0] == s[0])
    ensures SortedDesc(r, key)
    ensures multiset(r) == multiset(s) + multiset{x}
  {
    if s == [] then [x]
    else if key(s[0]) >= key(x) then
      SortedTail(s, key);
      var rest := Insert(x, s[1..], key);
      InsertBelowHead(x, s, rest, key);
      [s[0]] + rest
    else
      InsertUnder(x, s, key);
      [x] + s
  }

  /** Keeping the head of a sorted list in front of the tail's insertion keeps the result sorted. */
  lemma InsertBelowHead<T>(x: T, s: seq<T>, rest: seq<T>, key: T -> real)
    requires SortedDesc(s, key) && s != [] && key(s[0]) >= key(x)
    requires SortedDesc(rest, key) && |rest| == |s|
    requires rest[0] == x || (|s| > 1 && rest[0] == s[1])
    requires multiset(rest) == multiset(s[1..]) + multiset{x}
    ensures SortedDesc([s[0]] + rest, key)
    ensures multiset([s[0]] + rest) == multiset(s) + multiset{x}
  {
    InsertUnder(s[0], rest, key);
    assert s == [s[0]] + s[1..];
  }

  lemma SortedTail<T>(s: seq<T>, key: T -> real)
    requires SortedDesc(s, key) && s != []
    ensures SortedDesc(s[1..], key)
  {
    forall i, j | 0 <= i < j < |s| - 1
      ensures key(s[1..][i]) >= key(s[1..][j])
    {
      assert s[1..][i] == s[i + 1] && s[1..][j] == s[j + 1];
    }
  }

  /** A head whose key is at least the first key of a sorted list keeps it sorted. */
  lemma InsertUnder<T>(y: T, rest: seq<T>, key: T -> real)
    requires SortedDesc(rest, key) && rest != [] && key(y) >= key(rest[0])
    ensures SortedDesc([y] + rest, key)
  {
    var r := [y] + rest;
    forall i, j | 0 <= i < j < |r|
      ensures key(r[i]) >= key(r[j])
    {
      if i == 0 && j > 1 {
        assert key(rest[0]) >= key(rest[j - 1]);
      }
    }
  }

  /** `[...trace].sort((a, b) => key(b) - key(a))`: sorted by descending key
      and a permutation of the input. */
  function SortDesc<T>(s: seq<T>, key: T -> real): (r: seq<T>)
    ensures |r| == |s|
    ensures SortedDesc(r, key)
    ensures multiset(r) == multiset(s)
  {
    if s == [] then []
    else
      var init := s[..|s| - 1];
      var sorted := SortDesc(init, key);
      assert s == init + [s[|s| - 1]];
      Insert(s[|s| - 1], sorted, key)
  }

  function KeyIs<T>(key: T -> real, k: real): T -> bool {
    x => key(x) == k
  }

  lemma FilterCons<T>(y: T, t: seq<T>, p: T -> bool)
    ensures Filter([y] + t, p) == (if p(y) then [y] else []) + Filter(t, p)
  {
    FilterAppend([y], t, p);
    assert [y][..0] == [];
    assert Filter([y], p) == (if p(y) then [y] else []);
  }

  /** The elements of one key value stay in place around an insertion of a
      later element. */
  lemma {:induction false} InsertStable<T>(x: T, s: seq<T>, key: T -> real, k: real)
    requires SortedDesc(s, key)
    ensures Filter(Insert(x, s, key), KeyIs(key, k)) ==
            Filter(s, KeyIs(key, k)) + (if key(x) == k then [x] else [])
  {
    if s == [] {
      FilterCons(x, [], KeyIs(key, k));
      assert [x] + [] == [x];
    } else if key(s[0]) >= key(x) {
      SortedTail(s, key);
      InsertStable(x, s[1..], key, k);
      InsertStableBehind(x, s, key, k);
    } else {
      InsertStableInFront(x, s, key, k);
    }
  }

  /** The step of InsertStable where `x` goes behind the head. */
  lemma InsertStableBehind<T>(x: T, s: seq<T>, key: T -> real, k: real)
    requires SortedDesc(s, key) && s != [] && key(s[0]) >= key(x) && SortedDesc(s[1..], key)
    requires Filter(Insert(x, s[1..], key), KeyIs(key, k)) ==
             Filter(s[1..], KeyIs(key, k)) + (if key(x) == k then [x] else [])
    ensures Filter(Insert(x, s, key), KeyIs(key, k)) ==
            Filter(s, KeyIs(key, k)) + (if key(x) == k then [x] else [])
  {
    InsertBehind(x, s, key);
    StableCons(s[0], Insert(x, s[1..], key), s[1..], KeyIs(key, k), if key(x) == k then [x] else []);
    assert [s[0]] + s[1..] == s;
  }

  lemma InsertBehind<T>(x: T, s: seq<T>, key: T -> real)
    requires SortedDesc(s, key) && s != [] && key(s[0]) >= key(x) && SortedDesc(s[1..], key)
    ensures Insert(x, s, key) == [s[0]] + Insert(x, s[1..], key)
  {
  }

  /** The step of InsertStable where `x` goes in front of the whole list. */
  lemma InsertStableInFront<T>(x: T, s: seq<T>, key: T -> real, k: real)
    requires SortedDesc(s, key) && s != [] && key(s[0]) < key(x)
    ensures Filter(Insert(x, s, key), KeyIs(key, k)) ==
            Filter(s, KeyIs(key, k)) + (if key(x) == k then [x] else [])
  {
    assert Insert(x, s, key) == [x] + s;
    FilterCons(x, s, KeyIs(key, k));
    if key(x) == k {
      // every element of s is below key(x), so none has key k
      NoneOfKey(s, key, k);
    }
  }

  /** Putting the same element in front of two lists keeps a relation
      between their filtered forms. */
  lemma StableCons<T>(y: T, rest: seq<T>, t: seq<T>, p: T -> bool, tail: seq<T>)
    requires Filter(rest, p) == Filter(t, p) + tail
    ensures Filter([y] + rest, p) == Filter([y] + t, p) + tail
  {
    FilterCons(y, rest, p);
    FilterCons(y, t, p);
    ConcatAssoc(if p(y) then [y] else [], Filter(t, p), tail);
  }

  lemma ConcatAssoc<T>(a: seq<T>, b: seq<T>, c: seq<T>)
    ensures a + (b + c) == (a + b) + c
  {
  }

  lemma {:induction false} NoneOfKey<T>(s: seq<T>, key: T -> real, k: real)
    requires forall i :: 0 <= i < |s| ==> key(s[i]) < k
    ensures Filter(s, KeyIs(key, k)) == []
  {
    if s != [] {
      NoneOfKey(s[..|s| - 1], key, k);
    }
  }

  /** The sort is stable: the elements of any one key appear in the sorted
      copy in their original order. */
  lemma {:induction false} SortStable<T>(s: seq<T>, key: T -> real, k: real)
    ensures Filter(SortDesc(s, key), KeyIs(key, k)) == Filter(s, KeyIs(key, k))
  {
    if s != [] {
      var init := s[..|s| - 1];
      SortStable(init, key, k);
      InsertStable(s[|s| - 1], SortDesc(init, key), key, k);
    }
  }

  /** `[...trace].sort(byKeyDesc).slice(0, limit)` */
  function Slowest<T>(s: seq<T>, key: T -> real, limit: int): (r: seq<T>)
    ensures SortedDesc(r, key)
    ensures multiset(r) <= multiset(s)
    ensures limit >= 0 ==> |r| == if limit < |s| then limit else |s|
    ensures limit < 0 ==> |r| == if |s| + limit > 0 then |s| + limit else 0
  {
    var sorted := SortDesc(s, key);
    var r := Slice(sorted, 0, limit);
    assert r == sorted[..|r|];
    SplitAt(sorted, |r|);
    r
  }

  lemma SplitAt<T>(s: seq<T>, n: nat)
    requires n <= |s|
    ensures s == s[..n] + s[n..]
    ensures multiset(s) == multiset(s[..n]) + multiset(s[n..])
  {
    assert s == s[..n] + s[n..];
  }

  /** Nothing left out of getSlowest's result is slower than anything in it. */
  lemma SlowestAreSlowest<T>(s: seq<T>, key: T -> real, limit: int)
    ensures var r := Slowest(s, key, limit);
            forall x, y :: x in r && y in multiset(s) - multiset(r) ==> key(x) >= key(y)
  {
    var sorted := SortDesc(s, key);
    var r := Slowest(s, key, limit);
    assert r == sorted[..|r|];
    SplitAt(sorted, |r|);
    forall x, y | x in r && y in multiset(s) - multiset(r)
      ensures key(x) >= key(y)
    {
      assert y in multiset(sorted[|r|..]);
      LaterNotBefore(sorted, |r|, key, x, y);
    }
  }

  /** In a list sorted by descending key, an element of a prefix is at least
      as slow as any element of the rest. */
  lemma LaterNotBefore<T>(sorted: seq<T>, n: nat, key: T -> real, x: T, y: T)
    requires SortedDesc(sorted, key) && n <= |sorted|
    requires x in sorted[..n] && y in sorted[n..]
    ensures key(x) >= key(y)
  {
    var i :| 0 <= i < n && sorted[..n][i] == x;
    var j :| 0 <= j < |sorted| - n && sorted[n..][j] == y;
    assert sorted[i] == x && sorted[n + j] == y;
  }

  /** `trace.reduce((sum, e) => sum + key(e), 0)` */
  function Sum<T>(s: seq<T>, key: T -> real): real {
    if s == [] then 0.0 else Sum(s[..|s| - 1], key) + key(s[|s| - 1])
  }

  lemma {:induction false} SumBounds<T>(s: seq<T>, key: T -> real, lo: real, hi: real)
    requires forall i :: 0 <= i < |s| ==> lo <= key(s[i]) <= hi
    ensures |s| as real * lo <= Sum(s, key) <= |s| as real * hi
  {
    if s != [] {
      SumBounds(s[..|s| - 1], key, lo, hi);
    }
  }

  /** The average key, 0 for an empty list. */
  function Average<T>(s: seq<T>, key: T -> real): (r: real)
    ensures s == [] ==> r == 0.0
    ensures s != [] ==> r * |s| as real == Sum(s, key)
  {
    if s == [] then 0.0 else Sum(s, key) / |s| as real
  }

  /** The average lies between any lower and upper bound of the keys. */
  lemma AverageBounds<T>(s: seq<T>, key: T -> real, lo: real, hi: real)
    requires s != []
    requires forall i :: 0 <= i < |s| ==> lo <= key(s[i]) <= hi
    ensures lo <= Average(s, key) <= hi
  {
    SumBounds(s, key, lo, hi);
    var n := |s| as real;
    var a := Average(s, key);
    assert a * n == Sum(s, key);
    if a < lo {
      MulLess(a, lo, n);
    }
    if hi < a {
      MulLess(hi, a, n);
    }
  }

  lemma MulLess(a: real, b: real, n: real)
    requires a < b && n > 0.0
    ensures a * n < b * n
  {
    assert b * n - a * n == (b - a) * n;
  }
}
