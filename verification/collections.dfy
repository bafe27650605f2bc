/** Sequence and set helpers that stand for the pandas operations the
    dashboard relies on: boolean-mask selection, dropna, nunique, sum and mean. */
module Collections {

  /** A nullable cell of a data frame column; None stands for NaN/None. */
  datatype Option<+T> = None | Some(value: T)

  /** Boolean-mask selection: the elements of xs satisfying p, in their order. */
  function Keep<T(!new)>(xs: seq<T>, p: T -> bool): (r: seq<T>)
    ensures |r| <= |xs|
    ensures forall x :: x in r <==> x in xs && p(x)
  {
    if xs == [] then []
    else (if p(xs[0]) then [xs[0]] else []) + Keep(xs[1..], p)
  }

  /** xs can be obtained from ys by deleting elements (order is kept). */
  predicate IsSubsequence<T(==)>(xs: seq<T>, ys: seq<T>)
    decreases |ys|
  {
    if ys == [] then xs == []
    else (xs != [] && xs[0] == ys[0] && IsSubsequence(xs[1..], ys[1..]))
         || IsSubsequence(xs, ys[1..])
  }

  lemma {:induction false} SubsequenceShape<T(!new)>(xs: seq<T>, ys: seq<T>)
    requires IsSubsequence(xs, ys)
    ensures |xs| <= |ys|
    ensures forall x :: x in xs ==> x in ys
    decreases |ys|
  {
    if ys == [] {
    } else if xs != [] && xs[0] == ys[0] && IsSubsequence(xs[1..], ys[1..]) {
      SubsequenceShape(xs[1..], ys[1..]);
      assert xs == [xs[0]] + xs[1..];
    } else {
      SubsequenceShape(xs, ys[1..]);
    }
  }

  lemma {:induction false} KeepIsSubsequence<T(!new)>(xs: seq<T>, p: T -> bool)
    ensures IsSubsequence(Keep(xs, p), xs)
  {
    if xs != [] {
      KeepIsSubsequence(xs[1..], p);
      var r := Keep(xs, p);
      if p(xs[0]) {
        assert r[0] == xs[0] && r[1..] == Keep(xs[1..], p);
      } else {
        assert r == Keep(xs[1..], p);
      }
    }
  }

  /** Selecting with a weaker predicate keeps everything a stronger one keeps. */
  lemma {:induction false} KeepWeaker<T(!new)>(xs: seq<T>, p: T -> bool, q: T -> bool)
    requires forall x :: x in xs && p(x) ==> q(x)
    ensures IsSubsequence(Keep(xs, p), Keep(xs, q))
  {
    if xs != [] {
      KeepWeaker(xs[1..], p, q);
      var a, b := Keep(xs, p), Keep(xs, q);
      var a', b' := Keep(xs[1..], p), Keep(xs[1..], q);
      if p(xs[0]) {
        assert a[0] == xs[0] && a[1..] == a' && b[0] == xs[0] && b[1..] == b';
      } else if q(xs[0]) {
        assert a == a' && b[1..] == b';
        assert IsSubsequence(a, b[1..]);
      } else {
        assert a == a' && b == b';
      }
    }
  }

  /** Two selections applied one after the other select their conjunction. */
  lemma {:induction false} KeepKeep<T(!new)>(xs: seq<T>, p: T -> bool, q: T -> bool, pq: T -> bool)
    requires forall x :: pq(x) == (p(x) && q(x))
    ensures Keep(Keep(xs, p), q) == Keep(xs, pq)
  {
    if xs != [] {
      KeepKeep(xs[1..], p, q, pq);
      if p(xs[0]) {
        assert Keep(xs, p) == [xs[0]] + Keep(xs[1..], p);
        assert Keep(xs, p)[1..] == Keep(xs[1..], p);
      } else {
        assert Keep(xs, p) == Keep(xs[1..], p);
      }
    }
  }

  /** Selection depends only on the values of the predicate. */
  lemma {:induction false} KeepExtensional<T(!new)>(xs: seq<T>, p: T -> bool, q: T -> bool)
    requires forall x :: x in xs ==> p(x) == q(x)
    ensures Keep(xs, p) == Keep(xs, q)
  {
    if xs != [] {
      KeepExtensional(xs[1..], p, q);
    }
  }

  /** A selection that every element passes returns the sequence unchanged. */
  lemma {:induction false} KeepAll<T(!new)>(xs: seq<T>, p: T -> bool)
    requires forall x :: x in xs ==> p(x)
    ensures Keep(xs, p) == xs
  {
    if xs != [] {
      assert forall x :: x in xs[1..] ==> x in xs;
      KeepAll(xs[1..], p);
      assert xs == [xs[0]] + xs[1..];
    }
  }

  lemma {:induction false} KeepAppend<T(!new)>(xs: seq<T>, ys: seq<T>, p: T -> bool)
    ensures Keep(xs + ys, p) == Keep(xs, p) + Keep(ys, p)
  {
    if xs == [] {
      assert xs + ys == ys;
    } else {
      assert (xs + ys)[1..] == xs[1..] + ys;
      KeepAppend(xs[1..], ys, p);
    }
  }

  /** The non-null values of a column, in order (pandas `dropna`). */
  function Present<T(!new)>(xs: seq<Option<T>>): (r: seq<T>)
    ensures |r| <= |xs|
    ensures forall v :: v in r <==> Some(v) in xs
  {
    if xs == [] then []
    else match xs[0]
      case None => Present(xs[1..])
      case Some(v) => [v] + Present(xs[1..])
  }

  lemma {:induction false} PresentAppend<T(!new)>(xs: seq<Option<T>>, ys: seq<Option<T>>)
    ensures Present(xs + ys) == Present(xs) + Present(ys)
  {
    if xs == [] {
      assert xs + ys == ys;
    } else {
      assert (xs + ys)[1..] == xs[1..] + ys;
      PresentAppend(xs[1..], ys);
    }
  }

  /** The set of elements of a sequence; its size bounds the number of distinct values. */
  function Elements<T(!new)>(xs: seq<T>): (r: set<T>)
    ensures |r| <= |xs|
    ensures forall x :: x in r <==> x in xs
  {
    if xs == [] then {} else {xs[0]} + Elements(xs[1..])
  }

  lemma {:induction false} SubsetCardinality<T>(a: set<T>, b: set<T>)
    requires a <= b
    ensures |a| <= |b|
    decreases |a|
  {
    if a != {} {
      var x :| x in a;
      SubsetCardinality(a - {x}, b - {x});
    }
  }

  /** A sequence without repeated elements has as many distinct elements as entries. */
  lemma {:induction false} DistinctElements<T(!new)>(xs: seq<T>)
    requires forall i, j :: 0 <= i < j < |xs| ==> xs[i] != xs[j]
    ensures |Elements(xs)| == |xs|
  {
    if xs != [] {
      DistinctElements(xs[1..]);
      forall k | 0 <= k < |xs[1..]| ensures xs[1..][k] != xs[0] {
        assert xs[1..][k] == xs[k + 1];
      }
    }
  }

  /** Number of distinct non-null values (pandas `nunique`). */
  function CountDistinct<T(==,!new)>(xs: seq<Option<T>>): (n: nat)
    ensures n <= |xs|
    ensures n == 0 <==> forall i :: 0 <= i < |xs| ==> xs[i].None?
  {
    PresentNone(xs);
    |Elements(Present(xs))|
  }

  /** dropna leaves nothing exactly when every cell is null. */
  lemma {:induction false} PresentNone<T(!new)>(xs: seq<Option<T>>)
    ensures Present(xs) == [] <==> forall i :: 0 <= i < |xs| ==> xs[i].None?
  {
    if xs != [] {
      PresentNone(xs[1..]);
      assert forall i :: 1 <= i < |xs| ==> xs[i] == xs[1..][i - 1];
    }
  }

  function SumReal(xs: seq<real>): real
  {
    if xs == [] then 0.0 else xs[0] + SumReal(xs[1..])
  }

  /** Arithmetic mean; None when there is nothing to average (pandas yields NaN). */
  function Mean(xs: seq<real>): (r: Option<real>)
    ensures r.None? <==> xs == []
  {
    if xs == [] then None else Some(SumReal(xs) / (|xs| as real))
  }

  lemma {:induction false} SumRealBounds(xs: seq<real>, lo: real, hi: real)
    requires forall i :: 0 <= i < |xs| ==> lo <= xs[i] <= hi
    ensures (|xs| as real) * lo <= SumReal(xs) <= (|xs| as real) * hi
  {
    if xs != [] {
      SumRealBounds(xs[1..], lo, hi);
      assert (|xs| as real) * lo == lo + (|xs[1..]| as real) * lo;
      assert (|xs| as real) * hi == hi + (|xs[1..]| as real) * hi;
    }
  }

  /** A mean lies between any lower and upper bound of the averaged values. */
  lemma MeanBounds(xs: seq<real>, lo: real, hi: real)
    requires xs != []
    requires forall i :: 0 <= i < |xs| ==> lo <= xs[i] <= hi
    ensures Mean(xs).Some? && lo <= Mean(xs).value <= hi
  {
    SumRealBounds(xs, lo, hi);
    QuotientBounds(SumReal(xs), |xs| as real, lo, hi);
  }

  lemma QuotientBounds(s: real, n: real, lo: real, hi: real)
    requires n > 0.0 && n * lo <= s <= n * hi
    ensures lo <= s / n <= hi
  {
    var m := s / n;
    assert m * n == s;
    assert (m - lo) * n == s - n * lo;
    assert (hi - m) * n == n * hi - s;
    SignOfProduct(m - lo, n);
    SignOfProduct(hi - m, n);
  }

  lemma SignOfProduct(a: real, n: real)
    requires n > 0.0 && a * n >= 0.0
    ensures a >= 0.0
  {
  }
}
