/**
 * Sorted lists of distinct values, as `sorted(column.dropna().unique())`
 * builds them for the dashboard's selection widgets.
 */
module Ordering {
  import opened Wrappers

  /** `lt` is a strict total order: irreflexive, transitive and total on distinct values. */
  ghost predicate StrictTotalOrder<T(!new)>(lt: (T, T) -> bool) {
    && (forall a :: !lt(a, a))
    && (forall a, b, c :: lt(a, b) && lt(b, c) ==> lt(a, c))
    && (forall a, b :: a != b ==> lt(a, b) || lt(b, a))
  }

  /** Every element is `lt`-below every later element. */
  ghost predicate StrictlySorted<T>(s: seq<T>, lt: (T, T) -> bool) {
    forall i, j :: 0 <= i < j < |s| ==> lt(s[i], s[j])
  }

  ghost predicate NoDuplicates<T>(s: seq<T>) {
    forall i, j :: 0 <= i < j < |s| ==> s[i] != s[j]
  }

  /** The present values of a nullable column, as `dropna()` keeps them. */
  function DropMissing<T(!new)>(column: seq<Option<T>>): (r: seq<T>)
    ensures |r| <= |column|
    ensures forall x :: multiset(r)[x] == multiset(column)[Some(x)]
    ensures forall x :: x in r <==> Some(x) in column
  {
    if column == [] then []
    else
      assert column == [column[0]] + column[1..];
      match column[0]
      case None => DropMissing(column[1..])
      case Some(v) => [v] + DropMissing(column[1..])
  }

  /** `x` put into its place in a strictly sorted list, unless it is already there. */
  function Insert<T(==,!new)>(x: T, s: seq<T>, lt: (T, T) -> bool): (r: seq<T>)
    requires StrictTotalOrder(lt)
    requires StrictlySorted(s, lt)
    ensures StrictlySorted(r, lt)
    ensures forall y :: y in r <==> y == x || y in s
  {
    if s == [] then [x]
    else if x == s[0] then s
    else if lt(x, s[0]) then [x] + s
    else
      assert s == [s[0]] + s[1..];
      var rest := Insert(x, s[1..], lt);
      assert forall j :: 0 <= j < |rest| ==> lt(s[0], rest[j]) by {
        forall j | 0 <= j < |rest|
          ensures lt(s[0], rest[j])
        {
          assert rest[j] in rest;
        }
      }
      [s[0]] + rest
  }

  /** The distinct values of `xs`, strictly sorted by `lt`. */
  function SortedUnique<T(==,!new)>(xs: seq<T>, lt: (T, T) -> bool): (r: seq<T>)
    requires StrictTotalOrder(lt)
    ensures StrictlySorted(r, lt)
    ensures forall x :: x in r <==> x in xs
  {
    if xs == [] then []
    else
      assert xs == xs[..|xs| - 1] + [xs[|xs| - 1]];
      Insert(xs[|xs| - 1], SortedUnique(xs[..|xs| - 1], lt), lt)
  }

  lemma StrictlySortedHasNoDuplicates<T(!new)>(s: seq<T>, lt: (T, T) -> bool)
    requires StrictTotalOrder(lt)
    requires StrictlySorted(s, lt)
    ensures NoDuplicates(s)
  {
  }

  /** A strictly sorted list is determined by its elements. */
  lemma {:induction false} StrictlySortedDetermined<T(!new)>(r: seq<T>, s: seq<T>, lt: (T, T) -> bool)
    requires StrictTotalOrder(lt)
    requires StrictlySorted(r, lt) && StrictlySorted(s, lt)
    requires forall x :: x in r <==> x in s
    ensures r == s
  {
    if r == [] {
      assert forall i :: 0 <= i < |s| ==> s[i] in s;
    } else {
      assert r[0] in r;
      var j :| 0 <= j < |s| && s[j] == r[0];
      assert s[0] in s;
      var k :| 0 <= k < |r| && r[k] == s[0];
      var first, other := r[0], s[0];
      assert j == 0 || lt(other, first);
      assert k == 0 || lt(first, other);
      forall x
        ensures x in r[1..] <==> x in s[1..]
      {
        if x in r[1..] {
          var k :| 1 <= k < |r| && r[k] == x;
          assert x in r && x != r[0];
          var j :| 0 <= j < |s| && s[j] == x;
          assert j != 0;
          assert s[1..][j - 1] == x;
        }
        if x in s[1..] {
          var k :| 1 <= k < |s| && s[k] == x;
          assert x in s && x != s[0];
          var j :| 0 <= j < |r| && r[j] == x;
          assert j != 0;
          assert r[1..][j - 1] == x;
        }
      }
      StrictlySortedDetermined(r[1..], s[1..], lt);
      assert r == [r[0]] + r[1..] && s == [s[0]] + s[1..];
    }
  }

  /** Python's `<` on `str`: lexicographic by code point, a proper prefix being smaller. */
  predicate StrLess(a: string, b: string)
    ensures a == b ==> !StrLess(a, b)
    ensures |a| < |b| && a == b[..|a|] ==> StrLess(a, b)
  {
    if |a| == 0 then |b| > 0
    else if |b| == 0 then false
    else a[0] < b[0] || (a[0] == b[0] && StrLess(a[1..], b[1..]))
  }

  lemma {:induction false} StrLessTransitive(a: string, b: string, c: string)
    requires StrLess(a, b) && StrLess(b, c)
    ensures StrLess(a, c)
  {
    if |a| > 0 && |b| > 0 && |c| > 0 && a[0] == b[0] == c[0] {
      StrLessTransitive(a[1..], b[1..], c[1..]);
    }
  }

  lemma {:induction false} StrLessTotal(a: string, b: string)
    requires a != b
    ensures StrLess(a, b) || StrLess(b, a)
  {
    if |a| > 0 && |b| > 0 && a[0] == b[0] {
      assert a == [a[0]] + a[1..] && b == [b[0]] + b[1..];
      StrLessTotal(a[1..], b[1..]);
    }
  }

  lemma StrLessIsStrictTotalOrder()
    ensures StrictTotalOrder(StrLess)
  {
    forall a: string
      ensures !StrLess(a, a)
    {
    }
    forall a: string, b: string, c: string | StrLess(a, b) && StrLess(b, c)
      ensures StrLess(a, c)
    {
      StrLessTransitive(a, b, c);
    }
    forall a: string, b: string | a != b
      ensures StrLess(a, b) || StrLess(b, a)
    {
      StrLessTotal(a, b);
    }
  }

  /** The order on the nullable-integer year column. */
  predicate IntLess(a: int, b: int) {
    a < b
  }

  lemma IntLessIsStrictTotalOrder()
    ensures StrictTotalOrder(IntLess)
  {
  }
}
