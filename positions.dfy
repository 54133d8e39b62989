/**
 * The position conventions of the tree's child list and the list
 * operations the tree performs on it (`list.insert`, `list.pop`,
 * `list.index`).
 */
module Positions {
  import opened Wrappers

  /**
   * The index at which `add_node(n, position)` inserts into a child list
   * of length `len`: a negative position counts from the back with -1
   * meaning "after the last child", anything before the front is the
   * front, anything past the end is the end.
   */
  function InsertionIndex(len: nat, position: int): (i: nat)
    ensures i <= len
    ensures 0 <= position <= len ==> i == position
    ensures position > len ==> i == len
    ensures -(len + 1) <= position < 0 ==> i == len + 1 + position
    ensures position < -(len + 1) ==> i == 0
  {
    var p := if position < 0 then len + 1 + position else position;
    if p < 0 then 0 else if p > len then len else p
  }

  /**
   * The index that `node_at(position)` and `remove_at(position)` address
   * in a list of length `len`: a negative position counts from the back
   * with -1 the last element; `None` when it falls outside the list.
   */
  function ResolveIndex(len: nat, position: int): (r: Option<nat>)
    ensures r.Some? <==> -(len as int) <= position < len
    ensures r.Some? ==> r.value < len
    ensures r.Some? && position >= 0 ==> r.value == position
    ensures r.Some? && position < 0 ==> r.value + (-position) == len
  {
    var p := if position < 0 then len + position else position;
    if p < 0 || p >= len then None else Some(p)
  }

  /** After inserting at `position`, the same position addresses the new element. */
  lemma InsertThenResolve(len: nat, position: int)
    requires -(len + 1) <= position <= len
    ensures ResolveIndex(len + 1, position) == Some(InsertionIndex(len, position))
  {
  }

  /** A negative position -k and the non-negative position len-k address the same element. */
  lemma NegativeCountsFromBack(len: nat, k: nat)
    requires 1 <= k <= len
    ensures ResolveIndex(len, -(k as int)) == ResolveIndex(len, len - k) == Some(len - k)
  {
  }

  /** `list.insert(i, x)`: x lands at i, earlier elements stay, later ones move up by one. */
  function Insert<T>(s: seq<T>, i: nat, x: T): (r: seq<T>)
    requires i <= |s|
    ensures |r| == |s| + 1 && r[i] == x
    ensures forall j :: 0 <= j < i ==> r[j] == s[j]
    ensures forall j :: i < j < |r| ==> r[j] == s[j - 1]
    ensures multiset(r) == multiset(s) + multiset{x}
  {
    assert s == s[..i] + s[i..];
    s[..i] + [x] + s[i..]
  }

  /** `list.pop(i)` (the list that remains): later elements move down by one. */
  function Delete<T>(s: seq<T>, i: nat): (r: seq<T>)
    requires i < |s|
    ensures |r| == |s| - 1
    ensures forall j :: 0 <= j < i ==> r[j] == s[j]
    ensures forall j :: i <= j < |r| ==> r[j] == s[j + 1]
    ensures multiset(r) + multiset{s[i]} == multiset(s)
  {
    assert s == s[..i] + [s[i]] + s[i + 1..];
    s[..i] + s[i + 1..]
  }

  /** No element occurs twice. */
  ghost predicate Distinct<T>(s: seq<T>) {
    forall i, j :: 0 <= i < j < |s| ==> s[i] != s[j]
  }

  /** Joining two repetition-free lists with no element in common gives a repetition-free list. */
  lemma DistinctConcat<T>(a: seq<T>, b: seq<T>)
    requires Distinct(a) && Distinct(b)
    requires forall x :: x in a ==> x !in b
    ensures Distinct(a + b)
  {
    var r := a + b;
    forall i, j | 0 <= i < j < |r| ensures r[i] != r[j] {
      if i < |a| && j >= |a| {
        assert r[i] in a && r[j] == b[j - |a|];
      }
    }
  }

  /** Inserting an element not yet present keeps a list free of repetitions. */
  lemma {:induction false} InsertDistinct<T>(s: seq<T>, i: nat, x: T)
    requires i <= |s| && Distinct(s) && x !in s
    ensures Distinct(Insert(s, i, x))
    ensures forall y :: y in Insert(s, i, x) <==> y in s || y == x
  {
    var r := Insert(s, i, x);
    forall a, b | 0 <= a < b < |r| ensures r[a] != r[b] {
      if a < i && b > i { assert r[b] == s[b - 1]; }
      else if a > i { assert r[a] == s[a - 1] && r[b] == s[b - 1]; }
    }
    forall y | y in r ensures y in s || y == x {
      var j :| 0 <= j < |r| && r[j] == y;
      if j < i { assert y == s[j]; } else if j > i { assert y == s[j - 1]; }
    }
    forall y | y in s ensures y in r {
      var j :| 0 <= j < |s| && s[j] == y;
      if j < i { assert r[j] == y; } else { assert r[j + 1] == y; }
    }
  }

  /** Deleting from a list without repetitions removes that element entirely. */
  lemma {:induction false} DeleteDistinct<T>(s: seq<T>, i: nat)
    requires i < |s| && Distinct(s)
    ensures Distinct(Delete(s, i))
    ensures s[i] !in Delete(s, i)
    ensures forall x :: x in Delete(s, i) <==> x in s && x != s[i]
  {
    var r := Delete(s, i);
    forall x | x in r ensures x in s && x != s[i] {
      var j :| 0 <= j < |r| && r[j] == x;
      if j < i { assert r[j] == s[j]; } else { assert r[j] == s[j + 1]; }
    }
    forall x | x in s && x != s[i] ensures x in r {
      var j :| 0 <= j < |s| && s[j] == x;
      if j < i { assert r[j] == x; } else { assert r[j - 1] == x; }
    }
  }

  /**
   * `list.index(x)`: the first position holding x, or `None` where Python
   * raises ValueError.
   */
  function FirstIndex<T(==)>(s: seq<T>, x: T): (r: Option<nat>)
    ensures r.Some? <==> x in s
    ensures r.Some? ==> r.value < |s| && s[r.value] == x && x !in s[..r.value]
  {
    if s == [] then None
    else if s[0] == x then Some(0)
    else
      match FirstIndex(s[1..], x)
      case None => None
      case Some(k) =>
        assert s[..k + 1] == [s[0]] + s[1..][..k];
        Some(k + 1)
  }
}
