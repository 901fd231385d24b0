/**
 The order in which a group is shown: the render sorts each group with
 `sort((a, b) => a.order - b.order)`. JavaScript's sort is stable, so elements
 with equal `order` keep their array order; the insertion sort below sorts the
 tail first and puts the head before every element whose `order` is not smaller,
 so the head stays ahead of later elements with the same `order`.
 */
module Ordering {
  import opened Splice

  /** Non-decreasing by `ord`. */
  ghost predicate SortedBy<T>(s: seq<T>, ord: T -> int)
  {
    forall i, j :: 0 <= i < j < |s| ==> ord(s[i]) <= ord(s[j])
  }

  /** `x` placed before the first element of the sorted `s` whose `order` is not smaller. */
  function InsertByOrder<T>(x: T, s: seq<T>, ord: T -> int): (r: seq<T>)
    requires SortedBy(s, ord)
    ensures |r| == |s| + 1
    ensures multiset(r) == multiset(s) + multiset{x}
    ensures SortedBy(r, ord)
    ensures r[0] == x || (|s| > 0 && r[0] == s[0])
  {
    if |s| == 0 then [x]
    else if ord(x) <= ord(s[0]) then [x] + s
    else
      var t := InsertByOrder(x, s[1..], ord);
      assert s == [s[0]] + s[1..];
      [s[0]] + t
  }

  /** The stable sort by `order` that the render applies to each group. */
  function SortByOrder<T>(s: seq<T>, ord: T -> int): (r: seq<T>)
    ensures multiset(r) == multiset(s)
    ensures SortedBy(r, ord)
    ensures |r| == |s|
  {
    if |s| == 0 then []
    else
      assert s == [s[0]] + s[1..];
      InsertByOrder(s[0], SortByOrder(s[1..], ord), ord)
  }

  /** Sorting an already sorted sequence leaves it exactly as it was. */
  lemma {:induction false} SortOfSorted<T>(s: seq<T>, ord: T -> int)
    requires SortedBy(s, ord)
    ensures SortByOrder(s, ord) == s
  {
    if |s| > 0 {
      assert SortedBy(s[1..], ord);
      SortOfSorted(s[1..], ord);
      assert s == [s[0]] + s[1..];
    }
  }

  /** The elements of `s` whose `order` is `v`, in their order in `s`. */
  function WithOrder<T>(s: seq<T>, ord: T -> int, v: int): (r: seq<T>)
    ensures |r| <= |s|
    ensures forall k :: 0 <= k < |r| ==> ord(r[k]) == v
  {
    if |s| == 0 then []
    else if ord(s[0]) == v then [s[0]] + WithOrder(s[1..], ord, v)
    else WithOrder(s[1..], ord, v)
  }

  /**
   Inserting `x` puts it ahead of every element with the same `order`, and
   keeps those elements in their order.
   */
  lemma {:induction false} InsertByOrderStable<T>(x: T, s: seq<T>, ord: T -> int, v: int)
    requires SortedBy(s, ord)
    ensures WithOrder(InsertByOrder(x, s, ord), ord, v) ==
              if ord(x) == v then [x] + WithOrder(s, ord, v) else WithOrder(s, ord, v)
  {
    if |s| > 0 && ord(s[0]) < ord(x) {
      var t := InsertByOrder(x, s[1..], ord);
      assert SortedBy(s[1..], ord);
      InsertByOrderStable(x, s[1..], ord, v);
      assert ([s[0]] + t)[1..] == t;
    }
  }

  /**
   The sort is stable: for every `order` value, the elements carrying it come
   out in the order they went in, as with JavaScript's `Array.prototype.sort`.
   */
  lemma {:induction false} SortByOrderStable<T>(s: seq<T>, ord: T -> int, v: int)
    ensures WithOrder(SortByOrder(s, ord), ord, v) == WithOrder(s, ord, v)
  {
    if |s| > 0 {
      SortByOrderStable(s[1..], ord, v);
      InsertByOrderStable(s[0], SortByOrder(s[1..], ord), ord, v);
    }
  }

  /** With unique keys no value occurs twice. */
  lemma {:induction false} UniqueKeysMultiplicity<T, K>(s: seq<T>, key: T -> K, x: T)
    requires UniqueKeys(s, key)
    ensures multiset(s)[x] <= 1
  {
    if |s| > 0 {
      assert s == [s[0]] + s[1..];
      assert UniqueKeys(s[1..], key);
      UniqueKeysMultiplicity(s[1..], key, x);
    }
  }

  /** A value found at two distinct positions occurs at least twice. */
  lemma TwoPositionsMultiplicity<T>(s: seq<T>, i: nat, j: nat)
    requires i < j < |s| && s[i] == s[j]
    ensures multiset(s)[s[i]] >= 2
  {
    assert s == s[..j] + s[j..];
    assert s[i] in s[..j];
    assert s[j..][0] == s[i];
  }

  /** Unique keys carry over to any permutation. */
  lemma UniqueKeysPermutation<T, K>(a: seq<T>, b: seq<T>, key: T -> K)
    requires UniqueKeys(a, key) && multiset(a) == multiset(b)
    ensures UniqueKeys(b, key)
  {
    forall i, j | 0 <= i < |b| && 0 <= j < |b| && i != j
      ensures key(b[i]) != key(b[j])
    {
      if key(b[i]) == key(b[j]) {
        assert b[i] in multiset(a) && b[j] in multiset(a);
        var p :| 0 <= p < |a| && a[p] == b[i];
        var q :| 0 <= q < |a| && a[q] == b[j];
        assert p == q;
        if i < j {
          TwoPositionsMultiplicity(b, i, j);
        } else {
          TwoPositionsMultiplicity(b, j, i);
        }
        UniqueKeysMultiplicity(a, key, b[i]);
        assert false;
      }
    }
  }

  /** Along a sorted sequence with unique keys, the key grows at least as fast as the position. */
  lemma {:induction false} StrictGap<T>(s: seq<T>, ord: T -> int, i: nat, j: nat)
    requires SortedBy(s, ord) && UniqueKeys(s, ord)
    requires i <= j < |s|
    ensures ord(s[j]) - ord(s[i]) >= j - i
    decreases j - i
  {
    if i < j {
      StrictGap(s, ord, i, j - 1);
      assert ord(s[j - 1]) < ord(s[j]);
    }
  }

  /**
   When the `order` values of a sorted group are distinct and all lie in
   0..n-1 (n the group's size), each element is shown at the position equal to
   its `order`.
   */
  lemma ShownAtOwnOrder<T>(s: seq<T>, ord: T -> int)
    requires SortedBy(s, ord) && UniqueKeys(s, ord)
    requires forall k :: 0 <= k < |s| ==> 0 <= ord(s[k]) < |s|
    ensures forall k :: 0 <= k < |s| ==> ord(s[k]) == k
  {
    forall k | 0 <= k < |s|
      ensures ord(s[k]) == k
    {
      StrictGap(s, ord, 0, k);
      StrictGap(s, ord, k, |s| - 1);
    }
  }
}
