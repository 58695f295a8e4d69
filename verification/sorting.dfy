/**
 * Ordered insertion under a caller-supplied total preorder: the building
 * block for the two `ORDER BY` queries of the client (history by timestamp,
 * known users by last-seen time).
 */
module Sorting {

  /** Every two elements are comparable. */
  ghost predicate Total<T(!new)>(le: (T, T) -> bool) {
    forall a, b :: le(a, b) || le(b, a)
  }

  /** The relation is transitive. */
  ghost predicate Transitive<T(!new)>(le: (T, T) -> bool) {
    forall a, b, c :: le(a, b) && le(b, c) ==> le(a, c)
  }

  /** Every element is related to every later one. */
  predicate Sorted<T>(xs: seq<T>, le: (T, T) -> bool) {
    forall i, j :: 0 <= i < j < |xs| ==> le(xs[i], xs[j])
  }

  /** Leaving out one element of a sorted sequence keeps it sorted. */
  lemma {:induction false} SortedWithout<T>(xs: seq<T>, j: nat, le: (T, T) -> bool)
    requires Sorted(xs, le) && j < |xs|
    ensures Sorted(xs[..j] + xs[j + 1..], le)
  {
    var ys := xs[..j] + xs[j + 1..];
    forall a, b | 0 <= a < b < |ys|
      ensures le(ys[a], ys[b])
    {
      var a' := if a < j then a else a + 1;
      var b' := if b < j then b else b + 1;
      assert ys[a] == xs[a'] && ys[b] == xs[b'];
    }
  }

  /** Two orderings of the same elements still agree once one copy of the first element is removed from each. */
  lemma MultisetWithout<T>(xs: seq<T>, ys: seq<T>, j: nat)
    requires multiset(xs) == multiset(ys) && 0 < |xs|
    requires j < |ys| && ys[j] == xs[0]
    ensures multiset(xs[1..]) == multiset(ys[..j] + ys[j + 1..])
  {
    assert xs == [xs[0]] + xs[1..];
    assert multiset(xs) == multiset{xs[0]} + multiset(xs[1..]);
    assert ys == ys[..j] + [ys[j]] + ys[j + 1..];
    assert multiset(ys) == multiset(ys[..j]) + multiset{ys[j]} + multiset(ys[j + 1..]);
    assert multiset(ys[..j] + ys[j + 1..]) == multiset(ys[..j]) + multiset(ys[j + 1..]);
    assert multiset(xs[1..]) == multiset(xs) - multiset{xs[0]};
  }

  /** No element occurs twice. */
  predicate Distinct<T(==)>(xs: seq<T>) {
    forall i, j :: 0 <= i < j < |xs| ==> xs[i] != xs[j]
  }

  /** Where `x` goes in `xs`: after every element that must come before it, before the first that need not. */
  function InsertionPoint<T>(xs: seq<T>, x: T, le: (T, T) -> bool): (k: nat)
    ensures k <= |xs|
    ensures forall i :: 0 <= i < k ==> !le(x, xs[i])
    ensures k < |xs| ==> le(x, xs[k])
    decreases |xs|
  {
    if |xs| == 0 || le(x, xs[0]) then 0 else 1 + InsertionPoint(xs[1..], x, le)
  }

  /**
   * `xs` with `x` added at its place. The result holds the elements of `xs`
   * and `x`, each as often as before, and is still sorted.
   */
  function Insert<T(==,!new)>(xs: seq<T>, x: T, le: (T, T) -> bool): (r: seq<T>)
    requires Total(le) && Transitive(le) && Sorted(xs, le)
    ensures Sorted(r, le)
    ensures multiset(r) == multiset(xs) + multiset{x}
    ensures forall y :: y in r <==> y in xs || y == x
    ensures Distinct(xs) && x !in xs ==> Distinct(r)
  {
    var k := InsertionPoint(xs, x, le);
    var r := xs[..k] + [x] + xs[k..];
    assert xs == xs[..k] + xs[k..];
    InsertAtPointIsSorted(xs, x, le, k, r);
    InsertAtIsDistinct(xs, x, k, r);
    r
  }

  lemma InsertAtPointIsSorted<T(!new)>(xs: seq<T>, x: T, le: (T, T) -> bool, k: nat, r: seq<T>)
    requires Total(le) && Transitive(le) && Sorted(xs, le)
    requires k == InsertionPoint(xs, x, le) && r == xs[..k] + [x] + xs[k..]
    ensures Sorted(r, le)
  {
    forall i, j | 0 <= i < j < |r|
      ensures le(r[i], r[j])
    {
      if i < k && j == k {
        assert r[i] == xs[i] && !le(x, xs[i]);
      } else if i < k && j > k {
        assert r[i] == xs[i] && r[j] == xs[j - 1];
      } else if i == k {
        assert r[j] == xs[j - 1] && le(x, xs[k]);
        assert k == j - 1 || le(xs[k], xs[j - 1]);
      } else if i < k {
        assert r[i] == xs[i] && r[j] == xs[j];
      } else {
        assert r[i] == xs[i - 1] && r[j] == xs[j - 1];
      }
    }
  }

  lemma InsertAtIsDistinct<T>(xs: seq<T>, x: T, k: nat, r: seq<T>)
    requires k <= |xs| && r == xs[..k] + [x] + xs[k..]
    ensures Distinct(xs) && x !in xs ==> Distinct(r)
  {
    if Distinct(xs) && x !in xs {
      forall i, j | 0 <= i < j < |r|
        ensures r[i] != r[j]
      {
        var i' := if i < k then i else i - 1;
        var j' := if j < k then j else j - 1;
        if i != k && j != k {
          assert r[i] == xs[i'] && r[j] == xs[j'] && i' < j';
        } else if i == k {
          assert r[j] == xs[j'];
        } else {
          assert r[i] == xs[i'];
        }
      }
    }
  }
}
