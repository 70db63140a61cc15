/** Orderings used by the memory subsystem: Python's comparison of `str`
    values (code-point lexicographic, a proper prefix first), `sorted()` on
    a list of strings, and the stable descending sort of (id, score) pairs
    that `list.sort(key=..., reverse=True)` performs. */
module Order {

  /** Python's `a < b` on `str`. */
  predicate StrLt(a: string, b: string)
    decreases |a|
  {
    if |a| == 0 then |b| > 0
    else if |b| == 0 then false
    else if a[0] != b[0] then a[0] < b[0]
    else StrLt(a[1..], b[1..])
  }

  /** Python's `a <= b` on `str`. */
  predicate StrLe(a: string, b: string) {
    a == b || StrLt(a, b)
  }

  lemma {:induction false} StrLtIrreflexive(a: string)
    ensures !StrLt(a, a)
    decreases |a|
  {
    if |a| > 0 {
      StrLtIrreflexive(a[1..]);
    }
  }

  lemma {:induction false} StrLtTransitive(a: string, b: string, c: string)
    requires StrLt(a, b) && StrLt(b, c)
    ensures StrLt(a, c)
    decreases |a|
  {
    if |a| > 0 && a[0] == b[0] && b[0] == c[0] {
      StrLtTransitive(a[1..], b[1..], c[1..]);
    }
  }

  /** Any two distinct strings are ordered one way or the other. */
  lemma {:induction false} StrLtTotal(a: string, b: string)
    ensures a == b || StrLt(a, b) || StrLt(b, a)
    decreases |a|
  {
    if |a| > 0 && |b| > 0 && a[0] == b[0] {
      StrLtTotal(a[1..], b[1..]);
      if a[1..] == b[1..] {
        assert a == [a[0]] + a[1..] && b == [b[0]] + b[1..];
      }
    }
  }

  lemma StrLtAsymmetric(a: string, b: string)
    requires StrLt(a, b)
    ensures !StrLt(b, a) && a != b
  {
    if StrLt(b, a) {
      StrLtTransitive(a, b, a);
      StrLtIrreflexive(a);
    }
    if a == b {
      StrLtIrreflexive(a);
    }
  }

  /** `not (a <= b)` is `b < a` for strings. */
  lemma StrNotLe(a: string, b: string)
    requires !StrLe(a, b)
    ensures StrLt(b, a)
  {
    StrLtTotal(a, b);
  }

  ghost predicate SortedStrings(s: seq<string>) {
    forall i, j :: 0 <= i < j < |s| ==> StrLe(s[i], s[j])
  }

  /** Inserts `x` into a sorted list after every element not greater than it. */
  function InsertString(r: seq<string>, x: string): (t: seq<string>)
    requires SortedStrings(r)
    ensures SortedStrings(t)
    ensures multiset(t) == multiset(r) + multiset{x}
    decreases |r|
  {
    if |r| == 0 then [x]
    else if StrLe(r[0], x) then
      var rest := InsertString(r[1..], x);
      assert r == [r[0]] + r[1..];
      StringsAbove(r, x, rest);
      LeTrans();
      [r[0]] + rest
    else
      StrNotLe(r[0], x);
      LeTrans();
      [x] + r
  }

  /** Whatever is inserted behind the head of a sorted list stays at or
      above it. */
  lemma StringsAbove(r: seq<string>, x: string, rest: seq<string>)
    requires SortedStrings(r) && |r| > 0 && StrLe(r[0], x)
    requires multiset(rest) == multiset(r[1..]) + multiset{x}
    ensures forall k :: 0 <= k < |rest| ==> StrLe(r[0], rest[k])
  {
    forall k | 0 <= k < |rest|
      ensures StrLe(r[0], rest[k])
    {
      assert rest[k] in multiset(rest);
      if rest[k] != x {
        assert rest[k] in multiset(r[1..]);
        var j :| 0 <= j < |r[1..]| && r[1..][j] == rest[k];
        assert r[1..][j] == r[j + 1];
      }
    }
  }

  lemma LeTrans()
    ensures forall a, b, c :: StrLe(a, b) && StrLe(b, c) ==> StrLe(a, c)
    ensures forall a, b :: StrLt(a, b) ==> StrLe(a, b)
  {
    forall a, b, c | StrLe(a, b) && StrLe(b, c)
      ensures StrLe(a, c)
    {
      if a != b && b != c {
        StrLtTransitive(a, b, c);
      }
    }
  }

  /** `sorted(names)`: the same strings, in ascending order. */
  function SortStrings(s: seq<string>): (r: seq<string>)
    ensures SortedStrings(r)
    ensures multiset(r) == multiset(s)
    decreases |s|
  {
    if |s| == 0 then []
    else
      assert s == s[..|s| - 1] + [s[|s| - 1]];
      InsertString(SortStrings(s[..|s| - 1]), s[|s| - 1])
  }

  /** `sorted(names)` keeps exactly the names it is given. */
  lemma SortStringsHas(s: seq<string>)
    ensures forall x :: x in SortStrings(s) <==> x in s
  {
    var r := SortStrings(s);
    forall x
      ensures x in r <==> x in s
    {
      assert x in r <==> x in multiset(r);
      assert x in s <==> x in multiset(s);
    }
  }

  /** No value occurs twice. */
  predicate NoDup<T(==)>(s: seq<T>) {
    forall i, j :: 0 <= i < j < |s| ==> s[i] != s[j]
  }

  /** A list without repeats counts each value at most once. */
  lemma {:induction false} NoDupCount<T>(s: seq<T>)
    requires NoDup(s)
    ensures forall x :: multiset(s)[x] <= 1
    decreases |s|
  {
    if |s| > 0 {
      var front := s[..|s| - 1];
      var last := s[|s| - 1];
      NoDupCount(front);
      assert s == front + [last];
      forall j | 0 <= j < |front|
        ensures front[j] != last
      {
        assert front[j] == s[j];
      }
      assert last !in front;
    }
  }

  /** Two equal elements at distinct positions count twice. */
  lemma CountAt<T>(s: seq<T>, i: int, j: int)
    requires 0 <= i < j < |s|
    ensures s[i] == s[j] ==> multiset(s)[s[i]] >= 2
  {
    assert s == s[..j] + s[j..];
    assert s[..j][i] == s[i];
    assert s[j..][0] == s[j];
  }

  /** A sorted permutation of a list without repeats is strictly ascending. */
  lemma SortedStrict(s: seq<string>, t: seq<string>)
    requires SortedStrings(s) && multiset(s) == multiset(t) && NoDup(t)
    ensures NoDup(s)
    ensures forall i, j :: 0 <= i < j < |s| ==> StrLt(s[i], s[j])
  {
    NoDupCount(t);
    forall i, j | 0 <= i < j < |s|
      ensures s[i] != s[j]
    {
      CountAt(s, i, j);
    }
  }

  // ---------------------------------------------------------------------------
  // Descending sort of scored ids
  // ---------------------------------------------------------------------------

  ghost predicate SortedDesc<K>(s: seq<(K, real)>) {
    forall i, j :: 0 <= i < j < |s| ==> s[i].1 >= s[j].1
  }

  /** Inserts `x` after every element whose score is at least its own, so
      that equal scores keep their arrival order. */
  function InsertDesc<K>(r: seq<(K, real)>, x: (K, real)): (t: seq<(K, real)>)
    requires SortedDesc(r)
    ensures SortedDesc(t)
    ensures multiset(t) == multiset(r) + multiset{x}
    decreases |r|
  {
    if |r| == 0 then [x]
    else if r[0].1 >= x.1 then
      var rest := InsertDesc(r[1..], x);
      assert r == [r[0]] + r[1..];
      ScoresBelow(r, x, rest);
      [r[0]] + rest
    else
      [x] + r
  }

  /** Whatever is inserted behind the head of a descending list scores at
      most the head's score. */
  lemma ScoresBelow<K>(r: seq<(K, real)>, x: (K, real), rest: seq<(K, real)>)
    requires SortedDesc(r) && |r| > 0 && r[0].1 >= x.1
    requires multiset(rest) == multiset(r[1..]) + multiset{x}
    ensures forall k :: 0 <= k < |rest| ==> r[0].1 >= rest[k].1
  {
    forall k | 0 <= k < |rest|
      ensures r[0].1 >= rest[k].1
    {
      assert rest[k] in multiset(rest);
      if rest[k] != x {
        assert rest[k] in multiset(r[1..]);
        var j :| 0 <= j < |r[1..]| && r[1..][j] == rest[k];
        assert r[1..][j] == r[j + 1];
      }
    }
  }

  /** `sorted(pairs, key=score, reverse=True)`: a stable descending sort. */
  function SortDesc<K>(s: seq<(K, real)>): (r: seq<(K, real)>)
    ensures SortedDesc(r)
    ensures multiset(r) == multiset(s)
    decreases |s|
  {
    if |s| == 0 then []
    else
      assert s == s[..|s| - 1] + [s[|s| - 1]];
      InsertDesc(SortDesc(s[..|s| - 1]), s[|s| - 1])
  }
  /** The pairs of `s` that score exactly `v`, in their order in `s`. A sort
      is stable when it keeps this sequence for every `v`. */
  function WithScore<K>(s: seq<(K, real)>, v: real): (r: seq<(K, real)>)
    decreases |s|
  {
    if |s| == 0 then []
    else (if s[0].1 == v then [s[0]] else []) + WithScore(s[1..], v)
  }

  lemma {:induction false} WithScoreAppend<K>(s: seq<(K, real)>, x: (K, real), v: real)
    ensures WithScore(s + [x], v) == WithScore(s, v) + (if x.1 == v then [x] else [])
    decreases |s|
  {
    if |s| > 0 {
      assert (s + [x])[1..] == s[1..] + [x];
      WithScoreAppend(s[1..], x, v);
    }
  }

  lemma {:induction false} WithScoreNone<K>(s: seq<(K, real)>, v: real)
    requires forall k :: 0 <= k < |s| ==> s[k].1 != v
    ensures WithScore(s, v) == []
    decreases |s|
  {
    if |s| > 0 {
      WithScoreNone(s[1..], v);
    }
  }

  lemma WithScoreCons<K>(x: (K, real), s: seq<(K, real)>, v: real)
    ensures WithScore([x] + s, v) == (if x.1 == v then [x] else []) + WithScore(s, v)
  {
    assert ([x] + s)[1..] == s;
  }

  /** Insertion goes behind every pair of the same score. */
  lemma {:induction false} InsertDescStable<K>(r: seq<(K, real)>, x: (K, real), v: real)
    requires SortedDesc(r)
    ensures WithScore(InsertDesc(r, x), v) == WithScore(r, v) + (if x.1 == v then [x] else [])
    decreases |r|
  {
    if |r| == 0 {
      WithScoreCons(x, [], v);
    } else if r[0].1 >= x.1 {
      InsertBehind(r, x, v);
    } else {
      InsertFront(r, x, v);
    }
  }

  lemma {:induction false} InsertBehind<K>(r: seq<(K, real)>, x: (K, real), v: real)
    requires SortedDesc(r) && |r| > 0 && r[0].1 >= x.1
    ensures WithScore(InsertDesc(r, x), v) == WithScore(r, v) + (if x.1 == v then [x] else [])
    decreases |r|, 0
  {
    var rest := InsertDesc(r[1..], x);
    assert InsertDesc(r, x) == [r[0]] + rest;
    InsertDescStable(r[1..], x, v);
    WithScoreCons(r[0], rest, v);
    assert r == [r[0]] + r[1..];
    WithScoreCons(r[0], r[1..], v);
  }

  lemma InsertFront<K>(r: seq<(K, real)>, x: (K, real), v: real)
    requires SortedDesc(r) && |r| > 0 && r[0].1 < x.1
    ensures WithScore(InsertDesc(r, x), v) == WithScore(r, v) + (if x.1 == v then [x] else [])
  {
    assert InsertDesc(r, x) == [x] + r;
    WithScoreCons(x, r, v);
    WithScoreNone(r, x.1);
  }

  /** The descending sort is stable: pairs of equal score keep their input
      order, as in Python's `list.sort`. */
  lemma {:induction false} SortDescStable<K>(s: seq<(K, real)>, v: real)
    ensures WithScore(SortDesc(s), v) == WithScore(s, v)
    decreases |s|
  {
    if |s| > 0 {
      var init, last := s[..|s| - 1], s[|s| - 1];
      var tail := if last.1 == v then [last] else [];
      calc {
        WithScore(SortDesc(s), v);
        WithScore(InsertDesc(SortDesc(init), last), v);
        { InsertDescStable(SortDesc(init), last, v); }
        WithScore(SortDesc(init), v) + tail;
        { SortDescStable(init, v); }
        WithScore(init, v) + tail;
        { WithScoreAppend(init, last, v); }
        WithScore(init + [last], v);
        { assert init + [last] == s; }
        WithScore(s, v);
      }
    }
  }
}
