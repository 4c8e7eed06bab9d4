/** Sequence helpers used by the allocation model: distinctness, and the
    first-occurrence search and removal that Python's `list.remove` performs. */
module Seqs {

  /** No element occurs twice. */
  predicate Distinct<T(==)>(xs: seq<T>) {
    forall i, j :: 0 <= i < j < |xs| ==> xs[i] != xs[j]
  }

  /** A distinct sequence holds every value at most once. */
  lemma {:induction false} DistinctHasUnitCounts<T>(xs: seq<T>)
    requires Distinct(xs)
    ensures forall x :: multiset(xs)[x] <= 1
  {
    if xs != [] {
      var tl := xs[1..];
      assert Distinct(tl) by {
        forall i, j | 0 <= i < j < |tl| ensures tl[i] != tl[j] {
          assert tl[i] == xs[i + 1] && tl[j] == xs[j + 1];
        }
      }
      DistinctHasUnitCounts(tl);
      assert xs == [xs[0]] + tl;
      assert xs[0] !in tl by {
        forall j | 0 <= j < |tl| ensures tl[j] != xs[0] {
          assert tl[j] == xs[j + 1];
        }
      }
      forall x ensures multiset(xs)[x] <= 1 {
        assert multiset(xs) == multiset{xs[0]} + multiset(tl);
      }
    }
  }

  /** A sequence that holds every value at most once is distinct. */
  lemma {:induction false} UnitCountsAreDistinct<T>(xs: seq<T>)
    requires forall x :: multiset(xs)[x] <= 1
    ensures Distinct(xs)
  {
    if xs != [] {
      var tl := xs[1..];
      assert xs == [xs[0]] + tl;
      assert multiset(xs) == multiset{xs[0]} + multiset(tl);
      assert forall x :: multiset(tl)[x] <= multiset(xs)[x];
      UnitCountsAreDistinct(tl);
      assert multiset(tl)[xs[0]] == 0;
      forall i, j | 0 <= i < j < |xs| ensures xs[i] != xs[j] {
        assert xs[j] == tl[j - 1];
        if i > 0 {
          assert xs[i] == tl[i - 1];
        } else {
          assert tl[j - 1] in multiset(tl);
        }
      }
    }
  }

  /** Two sequences whose multisets add up to a distinct sequence are each
      distinct and share no element. */
  lemma PartsOfDistinct<T>(a: seq<T>, b: seq<T>, c: seq<T>)
    requires Distinct(c)
    requires multiset(a) + multiset(b) == multiset(c)
    ensures Distinct(a) && Distinct(b)
    ensures forall x :: x in a ==> x !in b
  {
    DistinctHasUnitCounts(c);
    assert forall x :: multiset(a)[x] + multiset(b)[x] == multiset(c)[x];
    UnitCountsAreDistinct(a);
    UnitCountsAreDistinct(b);
    forall x | x in a ensures x !in b {
      assert multiset(a)[x] >= 1;
    }
  }

  /** Position of the first occurrence of `x`, as Python's `list.index`. */
  function IndexOf<T(==)>(xs: seq<T>, x: T): (i: nat)
    requires x in xs
    ensures i < |xs| && xs[i] == x
    ensures forall j :: 0 <= j < i ==> xs[j] != x
  {
    if xs[0] == x then 0 else 1 + IndexOf(xs[1..], x)
  }

  /** Python's `list.remove(x)`: drop the first occurrence of `x`. Python
      raises `ValueError` when `x` is absent, so the caller must rule that out. */
  function RemoveFirst<T(==)>(xs: seq<T>, x: T): (r: seq<T>)
    requires x in xs
    ensures |r| + 1 == |xs|
    ensures multiset(r) + multiset{x} == multiset(xs)
    ensures forall y :: y in r ==> y in xs
  {
    var i := IndexOf(xs, x);
    assert xs == xs[..i] + [x] + xs[i + 1..];
    xs[..i] + xs[i + 1..]
  }

  /** Removing the value found at `i`, when it does not occur earlier, deletes
      exactly position `i` and keeps the order of everything else. */
  lemma RemoveFirstAt<T>(xs: seq<T>, i: nat)
    requires i < |xs|
    requires forall j :: 0 <= j < i ==> xs[j] != xs[i]
    ensures RemoveFirst(xs, xs[i]) == xs[..i] + xs[i + 1..]
  {
    var k := IndexOf(xs, xs[i]);
    assert k == i;
  }

  /** A common part added to both sides of a multiset equation cancels. */
  lemma MultisetCancel<T>(a: multiset<T>, b: multiset<T>, c: multiset<T>)
    requires a + c == b + c
    ensures a == b
  {
    forall x ensures a[x] == b[x] {
      assert (a + c)[x] == (b + c)[x];
    }
  }
}
