/**
 The array operations the drag handler is built from: `splice(i, 1)` to take an
 element out, `splice(j, 0, x)` to put it back, their composition (a move), and
 lookup and replacement by identifier (`findIndex`, and `map` with an id test).
 Everything is generic in the element type; identifiers are read through a key
 function.
 */
module Splice {

  /** `a.splice(i, 1)` on an in-range index: the sequence without its element at `i`. */
  function Remove<T>(s: seq<T>, i: nat): (r: seq<T>)
    requires i < |s|
    ensures |r| == |s| - 1
    ensures forall k :: 0 <= k < i ==> r[k] == s[k]
    ensures forall k :: i <= k < |r| ==> r[k] == s[k + 1]
    ensures multiset(r) + multiset{s[i]} == multiset(s)
  {
    assert s == s[..i] + [s[i]] + s[i + 1..];
    s[..i] + s[i + 1..]
  }

  /** `a.splice(j, 0, x)` on an index at most the length: `x` inserted so that it sits at `j`. */
  function Insert<T>(s: seq<T>, j: nat, x: T): (r: seq<T>)
    requires j <= |s|
    ensures |r| == |s| + 1
    ensures r[j] == x
    ensures forall k :: 0 <= k < j ==> r[k] == s[k]
    ensures forall k :: j < k < |r| ==> r[k] == s[k - 1]
    ensures multiset(r) == multiset(s) + multiset{x}
  {
    assert s == s[..j] + s[j..];
    s[..j] + [x] + s[j..]
  }

  /**
   Index arithmetic of a move, stated independently of `Remove` and `Insert`:
   after moving the element at `from` to `to`, position `k` holds what was at
   `MoveSource(from, to, k)`.
   */
  function MoveSource(from: nat, to: nat, k: nat): nat
  {
    if k == to then from
    else if from <= to && from <= k < to then k + 1
    else if to < from && to < k <= from then k - 1
    else k
  }

  /** Positions other than `to` keep their relative order under a move. */
  lemma MoveSourceMonotone(from: nat, to: nat, k1: nat, k2: nat)
    requires k1 < k2 && k1 != to && k2 != to
    ensures MoveSource(from, to, k1) < MoveSource(from, to, k2)
  {
  }

  /** The converse: for positions other than `to`, a smaller source means a smaller position. */
  lemma MoveSourceReflects(from: nat, to: nat, k1: nat, k2: nat)
    requires k1 != to && k2 != to
    requires MoveSource(from, to, k1) < MoveSource(from, to, k2)
    ensures k1 < k2
  {
  }

  lemma MoveSourceInjective(from: nat, to: nat, k1: nat, k2: nat)
    requires k1 != k2
    ensures MoveSource(from, to, k1) != MoveSource(from, to, k2)
  {
  }

  /**
   Remove the element at `from` and reinsert it at `to` (the two `splice` calls
   of the drag handler). The result is a permutation of the input in which the
   moved element lands at `to` and all others keep their relative order.
   */
  function Move<T>(s: seq<T>, from: nat, to: nat): (r: seq<T>)
    requires from < |s| && to < |s|
    ensures |r| == |s|
    ensures r[to] == s[from]
    ensures forall k :: 0 <= k < |r| ==> MoveSource(from, to, k) < |s| && r[k] == s[MoveSource(from, to, k)]
    ensures Remove(r, to) == Remove(s, from)
    ensures multiset(r) == multiset(s)
  {
    var rest := Remove(s, from);
    var r := Insert(rest, to, s[from]);
    assert Remove(r, to) == rest;
    r
  }

  /** Moving an element onto its own position changes nothing. */
  lemma MoveInPlace<T>(s: seq<T>, i: nat)
    requires i < |s|
    ensures Move(s, i, i) == s
  {
  }

  /** No two positions share a key. */
  ghost predicate UniqueKeys<T, K>(s: seq<T>, key: T -> K)
  {
    forall i, j :: 0 <= i < |s| && 0 <= j < |s| && i != j ==> key(s[i]) != key(s[j])
  }

  /** A key occurs in the sequence. */
  ghost predicate HasKey<T, K>(s: seq<T>, key: T -> K, x: K)
  {
    exists k :: 0 <= k < |s| && key(s[k]) == x
  }

  /** `a.findIndex(e => key(e) === x)`: the first position holding key `x`, or -1. */
  function FindIndex<T, K(==)>(s: seq<T>, key: T -> K, x: K): (r: int)
    ensures -1 <= r < |s|
    ensures 0 <= r ==> key(s[r]) == x && forall k :: 0 <= k < r ==> key(s[k]) != x
    ensures r == -1 <==> !HasKey(s, key, x)
  {
    if |s| == 0 then -1
    else if key(s[0]) == x then 0
    else
      var t := FindIndex(s[1..], key, x);
      if t == -1 then -1 else t + 1
  }

  /** With unique keys, `findIndex` on the key of the element at `k` answers `k`. */
  lemma FindIndexOfUnique<T, K>(s: seq<T>, key: T -> K, k: nat)
    requires UniqueKeys(s, key) && k < |s|
    ensures FindIndex(s, key, key(s[k])) == k
  {
    var r := FindIndex(s, key, key(s[k]));
    assert HasKey(s, key, key(s[k]));
  }

  /**
   `s.map(e => key(e) === key(u) ? u : e)`: every entry with `u`'s key replaced by
   `u`, every other entry kept where it was.
   */
  function ReplaceByKey<T, K(==)>(s: seq<T>, u: T, key: T -> K): (r: seq<T>)
    ensures |r| == |s|
    ensures forall k :: 0 <= k < |s| && key(s[k]) == key(u) ==> r[k] == u
    ensures forall k :: 0 <= k < |s| && key(s[k]) != key(u) ==> r[k] == s[k]
  {
    seq(|s|, k requires 0 <= k < |s| => if key(s[k]) == key(u) then u else s[k])
  }

  /** A replacement keeps the key sequence position by position, so it keeps keys unique. */
  lemma ReplaceKeepsKeys<T, K>(s: seq<T>, u: T, key: T -> K)
    ensures forall k :: 0 <= k < |s| ==> key(ReplaceByKey(s, u, key)[k]) == key(s[k])
    ensures UniqueKeys(s, key) ==> UniqueKeys(ReplaceByKey(s, u, key), key)
  {
  }

  /** Replacing twice with the same value is replacing once. */
  lemma ReplaceIdempotent<T, K>(s: seq<T>, u: T, key: T -> K)
    ensures ReplaceByKey(ReplaceByKey(s, u, key), u, key) == ReplaceByKey(s, u, key)
  {
  }

  /** A replacement whose key is absent changes nothing. */
  lemma ReplaceAbsentIsNoOp<T, K>(s: seq<T>, u: T, key: T -> K)
    requires !HasKey(s, key, key(u))
    ensures ReplaceByKey(s, u, key) == s
  {
  }

  /** A move permutes positions injectively, so it keeps keys unique. */
  lemma MoveKeepsKeysUnique<T, K>(s: seq<T>, key: T -> K, from: nat, to: nat)
    requires from < |s| && to < |s| && UniqueKeys(s, key)
    ensures UniqueKeys(Move(s, from, to), key)
  {
    var r := Move(s, from, to);
    forall i, j | 0 <= i < |r| && 0 <= j < |r| && i != j
      ensures key(r[i]) != key(r[j])
    {
      assert r[i] == s[MoveSource(from, to, i)] && r[j] == s[MoveSource(from, to, j)];
      MoveSourceInjective(from, to, i, j);
    }
  }
}
