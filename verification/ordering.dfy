/** Python's `sorted(set_of_values)`: the distinct values of a column in
    ascending order, for integers and for strings compared code point by
    code point. */
module Ordering {

  ghost predicate StrictTotalOrder<T(!new)>(less: (T, T) -> bool)
  {
    && (forall x :: !less(x, x))
    && (forall x, y, z :: less(x, y) && less(y, z) ==> less(x, z))
    && (forall x, y :: x != y ==> less(x, y) || less(y, x))
  }

  predicate StrictlySorted<T>(xs: seq<T>, less: (T, T) -> bool)
  {
    forall i, j :: 0 <= i < j < |xs| ==> less(xs[i], xs[j])
  }

  /** Integer order, as Python compares the values of the year column. */
  function IntLess(a: int, b: int): bool
  {
    a < b
  }

  /** Python string order: lexicographic on code points, a proper prefix first. */
  function StrLess(a: string, b: string): bool
  {
    if b == [] then false
    else if a == [] then true
    else if a[0] != b[0] then a[0] < b[0]
    else StrLess(a[1..], b[1..])
  }

  lemma IntLessIsStrictTotalOrder()
    ensures StrictTotalOrder(IntLess)
  {
  }

  lemma {:induction false} StrLessIrreflexive(a: string)
    ensures !StrLess(a, a)
  {
    if a != [] {
      StrLessIrreflexive(a[1..]);
    }
  }

  lemma {:induction false} StrLessTransitive(a: string, b: string, c: string)
    requires StrLess(a, b) && StrLess(b, c)
    ensures StrLess(a, c)
  {
    if a != [] && a[0] == b[0] && b[0] == c[0] {
      StrLessTransitive(a[1..], b[1..], c[1..]);
    }
  }

  lemma {:induction false} StrLessConnected(a: string, b: string)
    requires a != b
    ensures StrLess(a, b) || StrLess(b, a)
  {
    if a != [] && b != [] && a[0] == b[0] {
      assert a == [a[0]] + a[1..] && b == [b[0]] + b[1..];
      StrLessConnected(a[1..], b[1..]);
    }
  }

  lemma StrLessIsStrictTotalOrder()
    ensures StrictTotalOrder(StrLess)
  {
    forall a: string ensures !StrLess(a, a) {
      StrLessIrreflexive(a);
    }
    forall a: string, b: string, c: string | StrLess(a, b) && StrLess(b, c)
      ensures StrLess(a, c)
    {
      StrLessTransitive(a, b, c);
    }
    forall a: string, b: string | a != b ensures StrLess(a, b) || StrLess(b, a) {
      StrLessConnected(a, b);
    }
  }

  /** Adds x to a sorted listing unless it is already there. */
  function Insert<T(==,!new)>(x: T, xs: seq<T>, less: (T, T) -> bool): (r: seq<T>)
    ensures forall y :: y in r <==> y == x || y in xs
  {
    if xs == [] then [x]
    else if x == xs[0] then xs
    else if less(x, xs[0]) then [x] + xs
    else [xs[0]] + Insert(x, xs[1..], less)
  }

  /** The distinct values of xs, in ascending order (`sorted(unique)`). */
  function SortedDistinct<T(==,!new)>(xs: seq<T>, less: (T, T) -> bool): (r: seq<T>)
    ensures |r| <= |xs|
    ensures forall y :: y in r <==> y in xs
  {
    if xs == [] then []
    else
      var rest := SortedDistinct(xs[1..], less);
      var r := Insert(xs[0], rest, less);
      assert |r| <= |rest| + 1 by { InsertLength(xs[0], rest, less); }
      r
  }

  lemma {:induction false} InsertLength<T(!new)>(x: T, xs: seq<T>, less: (T, T) -> bool)
    ensures |Insert(x, xs, less)| <= |xs| + 1
  {
    if xs != [] && x != xs[0] && !less(x, xs[0]) {
      InsertLength(x, xs[1..], less);
    }
  }

  lemma {:induction false} InsertSorted<T(!new)>(x: T, xs: seq<T>, less: (T, T) -> bool)
    requires StrictTotalOrder(less)
    requires StrictlySorted(xs, less)
    ensures StrictlySorted(Insert(x, xs, less), less)
  {
    if xs != [] && x != xs[0] && !less(x, xs[0]) {
      InsertSorted(x, xs[1..], less);
      var tail := Insert(x, xs[1..], less);
      assert less(xs[0], x);
      forall y | y in tail ensures less(xs[0], y) {
        if y != x {
          var k :| 0 <= k < |xs[1..]| && xs[1..][k] == y;
          assert xs[k + 1] == y;
        }
      }
      var r := [xs[0]] + tail;
      forall i, j | 0 <= i < j < |r| ensures less(r[i], r[j]) {
        if i == 0 {
          assert r[j] == tail[j - 1] && r[j] in tail;
        } else {
          assert r[i] == tail[i - 1] && r[j] == tail[j - 1];
        }
      }
    }
  }

  /** Under a strict total order the listing is strictly ascending: sorted and duplicate-free. */
  lemma {:induction false} SortedDistinctSorted<T(!new)>(xs: seq<T>, less: (T, T) -> bool)
    requires StrictTotalOrder(less)
    ensures StrictlySorted(SortedDistinct(xs, less), less)
  {
    if xs != [] {
      SortedDistinctSorted(xs[1..], less);
      InsertSorted(xs[0], SortedDistinct(xs[1..], less), less);
    }
  }

  /** A strictly ascending listing repeats no element. */
  lemma StrictlySortedDistinct<T(!new)>(xs: seq<T>, less: (T, T) -> bool)
    requires StrictTotalOrder(less)
    requires StrictlySorted(xs, less)
    ensures forall i, j :: 0 <= i < j < |xs| ==> xs[i] != xs[j]
  {
    forall i, j | 0 <= i < j < |xs| ensures xs[i] != xs[j] {
      assert less(xs[i], xs[j]);
    }
  }

  /** A strictly ascending listing of a set of values is unique: the listing
      computed by SortedDistinct is the only possible option list. */
  lemma {:induction false} StrictlySortedUnique<T(!new)>(xs: seq<T>, ys: seq<T>, less: (T, T) -> bool)
    requires StrictTotalOrder(less)
    requires StrictlySorted(xs, less) && StrictlySorted(ys, less)
    requires forall v :: v in xs <==> v in ys
    ensures xs == ys
  {
    if xs == [] {
      assert forall i :: 0 <= i < |ys| ==> ys[i] in xs;
    } else {
      assert xs[0] in ys;
      var k :| 0 <= k < |ys| && ys[k] == xs[0];
      assert ys[0] in xs;
      var m :| 0 <= m < |xs| && xs[m] == ys[0];
      assert xs[0] == ys[0];
      forall v ensures v in xs[1..] <==> v in ys[1..] {
        if v in xs[1..] {
          var k :| 1 <= k < |xs| && xs[k] == v;
          assert less(xs[0], v);
          assert v != ys[0];
          assert v in ys;
        }
        if v in ys[1..] {
          var k :| 1 <= k < |ys| && ys[k] == v;
          assert less(ys[0], v);
          assert v != xs[0];
          assert v in xs;
        }
      }
      StrictlySortedUnique(xs[1..], ys[1..], less);
      assert xs == [xs[0]] + xs[1..] && ys == [ys[0]] + ys[1..];
    }
  }
}
