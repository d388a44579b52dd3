/** Sums, sorting and distinctness over sequences, all independent of order. */
module Sequences {
  import opened Prelude

  // ---- Slices ----

  lemma TakeSnoc<T>(s: seq<T>, k: nat)
    requires k < |s|
    ensures s[..k + 1] == s[..k] + [s[k]]
  {
  }

  lemma SplitSlices<T>(s: seq<T>, k: nat)
    requires k <= |s|
    ensures s == s[..k] + s[k..]
  {
  }

  lemma HeadAndTail<T>(s: seq<T>)
    requires s != []
    ensures s == [s[0]] + s[1..]
  {
  }

  // ---- Sums ----

  function SumBy<T>(f: T -> int, s: seq<T>): int {
    if s == [] then 0 else f(s[0]) + SumBy(f, s[1..])
  }

  lemma {:induction false} SumConcat<T>(f: T -> int, a: seq<T>, b: seq<T>)
    ensures SumBy(f, a + b) == SumBy(f, a) + SumBy(f, b)
  {
    if a == [] {
      assert a + b == b;
    } else {
      SumConcat(f, a[1..], b);
      assert (a + b)[1..] == a[1..] + b;
    }
  }

  lemma SumSnoc<T>(f: T -> int, s: seq<T>, x: T)
    ensures SumBy(f, s + [x]) == SumBy(f, s) + f(x)
  {
    SumConcat(f, s, [x]);
    assert SumBy(f, [x]) == f(x) + SumBy(f, []);
  }

  /** A multiset fixes the sum, whatever the order. */
  lemma {:induction false} SumPermutation<T>(f: T -> int, a: seq<T>, b: seq<T>)
    requires multiset(a) == multiset(b)
    ensures SumBy(f, a) == SumBy(f, b)
    decreases |a|
  {
    assert |multiset(a)| == |multiset(b)|;
    if a != [] {
      var i := SplitAt(a, b);
      SumPermutation(f, a[1..], b[..i] + b[i + 1..]);
      assert b == b[..i] + ([b[i]] + b[i + 1..]);
      SumConcat(f, b[..i], [b[i]] + b[i + 1..]);
      SumConcat(f, b[..i], b[i + 1..]);
    }
  }

  /** Where the head of a sits in a permutation b of a. */
  lemma SplitAt<T>(a: seq<T>, b: seq<T>) returns (i: nat)
    requires a != [] && multiset(a) == multiset(b)
    ensures i < |b| && b[i] == a[0]
    ensures multiset(a[1..]) == multiset(b[..i] + b[i + 1..])
  {
    assert a[0] in multiset(a) && a[0] in multiset(b);
    i :| 0 <= i < |b| && b[i] == a[0];
    TailMultiset(a);
    WithoutAt(b, i);
  }

  lemma WithoutAt<T>(s: seq<T>, i: nat)
    requires i < |s|
    ensures multiset(s[..i] + s[i + 1..]) == multiset(s) - multiset{s[i]}
  {
    assert s == s[..i] + [s[i]] + s[i + 1..];
  }

  lemma TailMultiset<T>(s: seq<T>)
    requires s != []
    ensures multiset(s[1..]) == multiset(s) - multiset{s[0]}
  {
    HeadAndTail(s);
  }

  lemma {:induction false} SumNonNegative<T>(f: T -> int, s: seq<T>)
    requires forall x | x in s :: f(x) >= 0
    ensures SumBy(f, s) >= 0
  {
    if s != [] {
      SumNonNegative(f, s[1..]);
    }
  }

  lemma {:induction false} SumMonotone<T>(f: T -> int, g: T -> int, s: seq<T>)
    requires forall x | x in s :: f(x) <= g(x)
    ensures SumBy(f, s) <= SumBy(g, s)
  {
    if s != [] {
      SumMonotone(f, g, s[1..]);
    }
  }

  ghost function Positions<T>(f: T -> int, s: seq<T>): set<int> {
    set i | 0 <= i < |s| && f(s[i]) == 1
  }

  /** A sum of ones counts positions. */
  lemma {:induction false} IndicatorSum<T>(f: T -> int, s: seq<T>)
    requires forall x | x in s :: f(x) == 0 || f(x) == 1
    ensures SumBy(f, s) == |Positions(f, s)|
    decreases |s|
  {
    if s == [] {
      assert forall i :: i !in Positions(f, s);
    } else {
      var n := |s| - 1;
      var front := s[..n];
      hide Positions, SumBy;
      IndicatorSum(f, front);
      SumSnoc(f, front, s[n]);
      TakeSnoc(s, n);
      PositionsSnoc(f, front, s[n]);
      assert s[..n + 1] == s;
    }
  }

  lemma PositionsSnoc<T>(f: T -> int, s: seq<T>, x: T)
    ensures |Positions(f, s + [x])| == |Positions(f, s)| + if f(x) == 1 then 1 else 0
  {
    var before, all := Positions(f, s), Positions(f, s + [x]);
    assert all == before + if f(x) == 1 then {|s|} else {};
  }

  // ---- Distinctness ----

  ghost predicate Distinct<T>(s: seq<T>) {
    forall i, j :: 0 <= i < j < |s| ==> s[i] != s[j]
  }

  /** The elements of s, as a set. */
  ghost function Elements<T>(s: seq<T>): set<T> {
    set x | x in s
  }

  lemma {:induction false} DistinctCardinality<T>(s: seq<T>)
    requires Distinct(s)
    ensures |Elements(s)| == |s|
  {
    if s != [] {
      DistinctCardinality(s[1..]);
      assert Elements(s) == {s[0]} + Elements(s[1..]);
    }
  }

  lemma {:induction false} ElementsCardinality<T>(s: seq<T>)
    ensures |Elements(s)| <= |s|
  {
    if s != [] {
      ElementsCardinality(s[1..]);
      assert Elements(s) == {s[0]} + Elements(s[1..]);
    }
  }

  /** A sequence with as many different elements as places repeats none. */
  lemma {:induction false} FullCardinalityDistinct<T>(s: seq<T>)
    requires |Elements(s)| == |s|
    ensures Distinct(s)
  {
    if s != [] {
      ElementsCons(s);
      ElementsCardinality(s[1..]);
      assert s[0] !in Elements(s[1..]);
      hide Elements;
      FullCardinalityDistinct(s[1..]);
      DistinctCons(s);
    }
  }

  lemma ElementsCons<T>(s: seq<T>)
    requires s != []
    ensures Elements(s) == {s[0]} + Elements(s[1..])
  {
    HeadAndTail(s);
  }

  lemma DistinctCons<T>(s: seq<T>)
    requires s != [] && Distinct(s[1..]) && s[0] !in Elements(s[1..])
    ensures Distinct(s)
  {
    forall i, j | 0 <= i < j < |s| ensures s[i] != s[j] {
      assert s[j] == s[1..][j - 1];
      if i > 0 {
        assert s[i] == s[1..][i - 1];
      }
    }
  }

  /** Distinctness only depends on the multiset. */
  lemma {:induction false} DistinctPermutation<T>(a: seq<T>, b: seq<T>)
    requires multiset(a) == multiset(b) && Distinct(a)
    ensures Distinct(b)
  {
    assert |multiset(a)| == |a| && |multiset(b)| == |b|;
    forall x ensures x in a <==> x in b {
      assert x in multiset(a) <==> x in multiset(b);
    }
    assert Elements(a) == Elements(b);
    DistinctCardinality(a);
    FullCardinalityDistinct(b);
  }

  /** A set inside lo..hi-1 has at most hi-lo elements. */
  lemma {:induction false} RangeCardinality(s: set<int>, lo: int, hi: int)
    requires lo <= hi && forall x | x in s :: lo <= x < hi
    ensures |s| <= hi - lo
    decreases hi - lo
  {
    if lo == hi {
      assert forall x :: x !in s;
    } else {
      RangeCardinality(s - {hi - 1}, lo, hi - 1);
      assert s <= (s - {hi - 1}) + {hi - 1};
    }
  }

  lemma SubsetCardinality<T>(a: set<T>, b: set<T>)
    requires a <= b
    ensures |a| <= |b|
    ensures |a| == |b| ==> a == b
  {
    assert b == a + (b - a);
  }

  // ---- Sorting ----

  function Insert<T>(key: T -> int, x: T, s: seq<T>): seq<T> {
    if s == [] || key(x) <= key(s[0]) then [x] + s else [s[0]] + Insert(key, x, s[1..])
  }

  /** `sort_unstable` by a key. */
  function SortBy<T>(key: T -> int, s: seq<T>): seq<T> {
    if s == [] then [] else Insert(key, s[0], SortBy(key, s[1..]))
  }

  ghost predicate SortedBy<T>(key: T -> int, s: seq<T>) {
    forall i, j :: 0 <= i < j < |s| ==> key(s[i]) <= key(s[j])
  }

  lemma {:induction false} InsertMultiset<T>(key: T -> int, x: T, s: seq<T>)
    ensures multiset(Insert(key, x, s)) == multiset([x] + s)
  {
    if s != [] && key(x) > key(s[0]) {
      InsertMultiset(key, x, s[1..]);
      assert s == [s[0]] + s[1..];
    }
  }

  lemma {:induction false} InsertSorted<T>(key: T -> int, x: T, s: seq<T>)
    requires SortedBy(key, s)
    ensures SortedBy(key, Insert(key, x, s))
  {
    if s != [] {
      SortedTail(key, s);
      if key(x) > key(s[0]) {
        InsertSorted(key, x, s[1..]);
        InsertLeast(key, x, s);
        hide SortedBy;
        SortedCons(key, s[0], Insert(key, x, s[1..]));
      } else {
        SortedCons(key, x, s);
      }
    }
  }

  lemma InsertLeast<T>(key: T -> int, x: T, s: seq<T>)
    requires SortedBy(key, s) && s != [] && key(x) > key(s[0])
    ensures forall y :: y in Insert(key, x, s[1..]) ==> key(s[0]) <= key(y)
  {
    var rest := Insert(key, x, s[1..]);
    InsertMultiset(key, x, s[1..]);
    forall y | y in rest ensures key(s[0]) <= key(y) {
      assert y in multiset([x] + s[1..]);
      assert y in [x] + s[1..];
    }
  }

  lemma SortedCons<T>(key: T -> int, x: T, s: seq<T>)
    requires SortedBy(key, s) && forall y :: y in s ==> key(x) <= key(y)
    ensures SortedBy(key, [x] + s)
  {
    var t := [x] + s;
    forall i, j | 0 <= i < j < |t| ensures key(t[i]) <= key(t[j]) {
      assert t[j] == s[j - 1];
      if i > 0 {
        assert t[i] == s[i - 1];
      }
    }
  }

  lemma {:induction false} SortSorts<T>(key: T -> int, s: seq<T>)
    ensures multiset(SortBy(key, s)) == multiset(s)
    ensures SortedBy(key, SortBy(key, s))
  {
    if s != [] {
      SortSorts(key, s[1..]);
      InsertSorted(key, s[0], SortBy(key, s[1..]));
      InsertMultiset(key, s[0], SortBy(key, s[1..]));
      assert s == [s[0]] + s[1..];
    }
  }

  lemma SortedHeadLeast<T>(key: T -> int, s: seq<T>, x: T)
    requires SortedBy(key, s) && x in multiset(s)
    ensures key(s[0]) <= key(x)
  {
    assert x in s;
    var i :| 0 <= i < |s| && s[i] == x;
  }

  ghost predicate Injective<T(!new)>(key: T -> int) {
    forall x, y :: key(x) == key(y) ==> x == y
  }

  lemma SortedHeadsAgree<T(!new)>(key: T -> int, a: seq<T>, b: seq<T>)
    requires SortedBy(key, a) && SortedBy(key, b) && multiset(a) == multiset(b)
    requires Injective(key) && a != [] && b != []
    ensures a[0] == b[0]
  {
    assert a[0] in multiset(a) && b[0] in multiset(b);
    SortedHeadLeast(key, a, b[0]);
    SortedHeadLeast(key, b, a[0]);
  }

  /** Under an injective key there is only one way to sort. */
  lemma {:induction false} SortedUnique<T(!new)>(key: T -> int, a: seq<T>, b: seq<T>)
    requires SortedBy(key, a) && SortedBy(key, b) && multiset(a) == multiset(b)
    requires Injective(key)
    ensures a == b
    decreases |a|
  {
    assert |multiset(b)| == |multiset(a)|;
    if a != [] {
      hide *;
      SortedHeadsAgree(key, a, b);
      TailMultiset(a);
      TailMultiset(b);
      SortedTail(key, a);
      SortedTail(key, b);
      SortedUnique(key, a[1..], b[1..]);
      HeadAndTail(a);
      HeadAndTail(b);
    }
  }

  lemma SortedTail<T>(key: T -> int, s: seq<T>)
    requires SortedBy(key, s) && s != []
    ensures SortedBy(key, s[1..])
  {
  }

  lemma SortCanonical<T(!new)>(key: T -> int, a: seq<T>, b: seq<T>)
    requires Injective(key)
    ensures SortBy(key, a) == SortBy(key, b) <==> multiset(a) == multiset(b)
  {
    SortSorts(key, a);
    SortSorts(key, b);
    if multiset(a) == multiset(b) {
      SortedUnique(key, SortBy(key, a), SortBy(key, b));
    }
  }
}
