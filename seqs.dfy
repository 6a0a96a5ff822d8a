/** Sequence operations the application gets from JavaScript arrays and SQL queries:
    `filter`, `.single()` (a row only when exactly one matches), `reduce` sums and rounded averages, and ordering, both
    `Array.prototype.sort` with a comparator and `order by` on a text column. */
module Seqs {
  import opened Common

  /** `s.filter(p)`: the elements satisfying p, in their original order. */
  function Filter<T(!new)>(s: seq<T>, p: T -> bool): (r: seq<T>)
    ensures |r| <= |s|
    ensures forall x {:trigger x in r} :: x in r <==> x in s && p(x)
    ensures forall i :: 0 <= i < |r| ==> p(r[i])
  {
    if s == [] then []
    else
      var rest := Filter(s[1..], p);
      assert s == [s[0]] + s[1..];
      if p(s[0]) then [s[0]] + rest else rest
  }

  /** The query's `.single()`: the row when exactly one matches, null otherwise. */
  function Single<T>(s: seq<T>): (r: Option<T>)
    ensures r.Some? <==> |s| == 1
    ensures r.Some? ==> r.value in s
  {
    if |s| == 1 then Some(s[0]) else None
  }

  /** The number of elements satisfying p. */
  function Count<T(!new)>(s: seq<T>, p: T -> bool): nat {
    |Filter(s, p)|
  }

  /** No element of s satisfies p exactly when the filter is empty. */
  lemma {:induction false} FilterEmpty<T(!new)>(s: seq<T>, p: T -> bool)
    ensures Filter(s, p) == [] <==> forall i :: 0 <= i < |s| ==> !p(s[i])
    decreases |s|
  {
    if s != [] {
      FilterEmpty(s[1..], p);
      assert forall i :: 1 <= i < |s| ==> s[i] == s[1..][i - 1];
    }
  }

  /** Two distinct positions satisfying p make the filter hold at least two elements. */
  lemma {:induction false} FilterTwo<T(!new)>(s: seq<T>, p: T -> bool, i: int, j: int)
    requires 0 <= i < j < |s| && p(s[i]) && p(s[j])
    ensures |Filter(s, p)| >= 2
    decreases |s|
  {
    if i > 0 {
      FilterTwo(s[1..], p, i - 1, j - 1);
    } else {
      assert s[j] == s[1..][j - 1];
      assert s[j] in Filter(s[1..], p);
    }
  }

  /** Filtering distributes over appending. */
  lemma {:induction false} FilterAppend<T(!new)>(s: seq<T>, t: seq<T>, p: T -> bool)
    ensures Filter(s + t, p) == Filter(s, p) + Filter(t, p)
    decreases |s|
  {
    if s == [] {
      assert s + t == t;
    } else {
      assert (s + t)[1..] == s[1..] + t;
      FilterAppend(s[1..], t, p);
    }
  }

  /** When exactly one position satisfies p, the filter is that one element. */
  lemma {:induction false} FilterUnique<T(!new)>(s: seq<T>, p: T -> bool, i: int)
    requires 0 <= i < |s| && p(s[i])
    requires forall j :: 0 <= j < |s| && j != i ==> !p(s[j])
    ensures Filter(s, p) == [s[i]]
    decreases |s|
  {
    if i == 0 {
      FilterEmpty(s[1..], p);
    } else {
      FilterUnique(s[1..], p, i - 1);
    }
  }

  /** When no two positions satisfy p, the filter holds at most one element. */
  lemma {:induction false} FilterAtMostOne<T(!new)>(s: seq<T>, p: T -> bool)
    requires forall i, j :: 0 <= i < |s| && 0 <= j < |s| && p(s[i]) && p(s[j]) ==> i == j
    ensures |Filter(s, p)| <= 1
    decreases |s|
  {
    if s != [] {
      if p(s[0]) {
        forall i | 0 <= i < |s[1..]|
          ensures !p(s[1..][i])
        {
          assert s[1..][i] == s[i + 1];
        }
        FilterEmpty(s[1..], p);
      } else {
        forall i, j | 0 <= i < |s[1..]| && 0 <= j < |s[1..]| && p(s[1..][i]) && p(s[1..][j])
          ensures i == j
        {
          assert s[1..][i] == s[i + 1] && s[1..][j] == s[j + 1];
        }
        FilterAtMostOne(s[1..], p);
      }
    }
  }

  // ---- Sums ----

  /** `s.reduce((sum, x) => sum + f(x), 0)`: the sum of f over s, left to right. */
  function Sum<T>(s: seq<T>, f: T -> int): int {
    if s == [] then 0 else Sum(s[..|s| - 1], f) + f(s[|s| - 1])
  }

  /** The sum over a concatenation is the sum of the sums. */
  lemma {:induction false} SumAppend<T>(s: seq<T>, t: seq<T>, f: T -> int)
    ensures Sum(s + t, f) == Sum(s, f) + Sum(t, f)
    decreases |t|
  {
    if t == [] {
      assert s + t == s;
    } else {
      assert (s + t)[..|s + t| - 1] == s + t[..|t| - 1];
      SumAppend(s, t[..|t| - 1], f);
    }
  }

  /** Bounds on every term bound the sum. */
  lemma {:induction false} SumBounds<T>(s: seq<T>, f: T -> int, lo: int, hi: int)
    requires forall i :: 0 <= i < |s| ==> lo <= f(s[i]) <= hi
    ensures lo * |s| <= Sum(s, f) <= hi * |s|
    decreases |s|
  {
    if s != [] {
      SumBounds(s[..|s| - 1], f, lo, hi);
      assert lo * |s| == lo * (|s| - 1) + lo;
      assert hi * |s| == hi * (|s| - 1) + hi;
    }
  }

  /** The rounded mean of f over s, `Math.round(sum / length)`, and 0 for an empty list. */
  function Average<T>(s: seq<T>, f: T -> int): (r: int)
    ensures s == [] ==> r == 0
  {
    if |s| > 0 then RoundDiv(Sum(s, f), |s|) else 0
  }

  /** The rounded mean of values in [0, 100] lies in [0, 100]. */
  lemma AverageBounds<T>(s: seq<T>, f: T -> int)
    requires forall i :: 0 <= i < |s| ==> 0 <= f(s[i]) <= 100
    ensures 0 <= Average(s, f) <= 100
  {
    if |s| > 0 {
      SumBounds(s, f, 0, 100);
      RoundedAverageBounds(Sum(s, f), |s|);
    }
  }

  // ---- Ordering ----

  /** A comparator that orders every pair consistently. */
  ghost predicate IsTotalPreorder<T(!new)>(leq: (T, T) -> bool) {
    && (forall a, b :: leq(a, b) || leq(b, a))
    && (forall a, b, c :: leq(a, b) && leq(b, c) ==> leq(a, c))
  }

  predicate SortedBy<T>(s: seq<T>, leq: (T, T) -> bool) {
    forall i, j :: 0 <= i < j < |s| ==> leq(s[i], s[j])
  }

  /** x placed before the first element it does not come after. */
  function Insert<T>(x: T, s: seq<T>, leq: (T, T) -> bool): (r: seq<T>)
    ensures multiset(r) == multiset(s) + multiset{x}
    ensures |r| == |s| + 1
  {
    if s == [] then [x]
    else if leq(x, s[0]) then [x] + s
    else
      assert s == [s[0]] + s[1..];
      [s[0]] + Insert(x, s[1..], leq)
  }

  /** The sorted order an insertion sort produces; ties keep their original order,
      as the stable `Array.prototype.sort` does. */
  function SortBy<T>(s: seq<T>, leq: (T, T) -> bool): (r: seq<T>)
    ensures multiset(r) == multiset(s)
    ensures |r| == |s|
  {
    if s == [] then []
    else
      assert s == [s[0]] + s[1..];
      Insert(s[0], SortBy(s[1..], leq), leq)
  }

  lemma {:induction false} InsertSorted<T(!new)>(x: T, s: seq<T>, leq: (T, T) -> bool)
    requires IsTotalPreorder(leq) && SortedBy(s, leq)
    ensures SortedBy(Insert(x, s, leq), leq)
    decreases |s|
  {
    if s != [] && !leq(x, s[0]) {
      var tail := s[1..];
      InsertSorted(x, tail, leq);
      var r := Insert(x, tail, leq);
      forall y | y in r
        ensures leq(s[0], y)
      {
        assert y in multiset(r);
        if y != x {
          assert y in multiset(tail);
        }
      }
    }
  }

  /** The result is sorted and a permutation of the input. */
  lemma {:induction false} SortBySorted<T(!new)>(s: seq<T>, leq: (T, T) -> bool)
    requires IsTotalPreorder(leq)
    ensures SortedBy(SortBy(s, leq), leq)
    ensures multiset(SortBy(s, leq)) == multiset(s)
    decreases |s|
  {
    if s != [] {
      SortBySorted(s[1..], leq);
      InsertSorted(s[0], SortBy(s[1..], leq), leq);
    }
  }

  /** Lexicographic order on code points: how the text column is ordered. */
  predicate LexLeq(a: string, b: string)
    decreases |a|
  {
    a == [] || (b != [] && (a[0] < b[0] || (a[0] == b[0] && LexLeq(a[1..], b[1..]))))
  }

  lemma {:induction false} LexTotal(a: string, b: string)
    ensures LexLeq(a, b) || LexLeq(b, a)
    decreases |a|
  {
    if a != [] && b != [] && a[0] == b[0] {
      LexTotal(a[1..], b[1..]);
    }
  }

  lemma {:induction false} LexTransitive(a: string, b: string, c: string)
    requires LexLeq(a, b) && LexLeq(b, c)
    ensures LexLeq(a, c)
    decreases |a|
  {
    if a != [] && a[0] == b[0] && b[0] == c[0] {
      LexTransitive(a[1..], b[1..], c[1..]);
    }
  }
}
