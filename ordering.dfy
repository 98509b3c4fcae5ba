/**
 * Python's `list.sort(key=...)`: a stable, in-place sort that only asks
 * whether one key is smaller than another. It is modelled by an order
 * `le(x, y)` ("y does not sort before x"), a functional reference sort
 * `Sort`, and an in-place insertion sort `StableSort` proved to produce
 * exactly `Sort`. A stable sort's output is fully determined by the order
 * and the input, so the algorithm CPython happens to use does not matter.
 */
module Ordering {

  /** Any two elements compare, and comparison chains. */
  ghost predicate TotalPreorder<T(!new)>(le: (T, T) -> bool)
  {
    && (forall x, y :: le(x, y) || le(y, x))
    && (forall x, y, z :: le(x, y) && le(y, z) ==> le(x, z))
  }

  predicate Sorted<T>(le: (T, T) -> bool, s: seq<T>)
  {
    forall i, j :: 0 <= i < j < |s| ==> le(s[i], s[j])
  }

  /** `x` and `y` have equal keys. */
  predicate Equivalent<T>(le: (T, T) -> bool, x: T, y: T)
  {
    le(x, y) && le(y, x)
  }

  /**
   * Places `x`, which came after every element of `s` in the input, behind
   * the last element it does not sort before.
   */
  function InsertLast<T>(le: (T, T) -> bool, s: seq<T>, x: T): (r: seq<T>)
    ensures multiset(r) == multiset(s) + multiset{x}
  {
    if s == [] || le(s[|s| - 1], x) then s + [x]
    else
      assert s == s[..|s| - 1] + [s[|s| - 1]];
      InsertLast(le, s[..|s| - 1], x) + [s[|s| - 1]]
  }

  /** The reference stable sort: insert the elements one by one, in input order. */
  function Sort<T>(le: (T, T) -> bool, s: seq<T>): (r: seq<T>)
    ensures multiset(r) == multiset(s)
  {
    if s == [] then []
    else
      assert s == s[..|s| - 1] + [s[|s| - 1]];
      InsertLast(le, Sort(le, s[..|s| - 1]), s[|s| - 1])
  }

  /** The elements of `s` with the same key as `x`, in their order in `s`. */
  function Class<T>(le: (T, T) -> bool, s: seq<T>, x: T): seq<T>
  {
    if s == [] then []
    else Class(le, s[..|s| - 1], x) + (if Equivalent(le, s[|s| - 1], x) then [s[|s| - 1]] else [])
  }

  /** `r` keeps the input order of every group of elements with equal keys. */
  ghost predicate Stable<T(!new)>(le: (T, T) -> bool, s: seq<T>, r: seq<T>)
  {
    forall x :: Class(le, r, x) == Class(le, s, x)
  }

  lemma ClassAppend<T>(le: (T, T) -> bool, s: seq<T>, y: T, x: T)
    ensures Class(le, s + [y], x) == Class(le, s, x) + (if Equivalent(le, y, x) then [y] else [])
  {
    assert (s + [y])[..|s|] == s;
  }

  lemma {:induction false} InsertLastSorted<T(!new)>(le: (T, T) -> bool, s: seq<T>, x: T)
    requires TotalPreorder(le) && Sorted(le, s)
    ensures Sorted(le, InsertLast(le, s, x))
  {
    if s == [] || le(s[|s| - 1], x) {
      var r := s + [x];
      forall i, j | 0 <= i < j < |r| ensures le(r[i], r[j]) {
        if j == |s| && i < |s| - 1 {
          assert le(s[i], s[|s| - 1]);
        }
      }
    } else {
      var init, last := s[..|s| - 1], s[|s| - 1];
      assert Sorted(le, init);
      InsertLastSorted(le, init, x);
      var front := InsertLast(le, init, x);
      assert le(x, last);
      forall y | y in multiset(front) ensures le(y, last) {
        if y != x {
          assert y in multiset(init);
          var k :| 0 <= k < |init| && init[k] == y;
        }
      }
      var r := front + [last];
      forall i, j | 0 <= i < j < |r| ensures le(r[i], r[j]) {
        if j == |front| {
          assert r[i] in multiset(front);
        }
      }
    }
  }

  /** The reference sort's output is ordered. */
  lemma {:induction false} SortSorted<T(!new)>(le: (T, T) -> bool, s: seq<T>)
    requires TotalPreorder(le)
    ensures Sorted(le, Sort(le, s))
  {
    if s != [] {
      SortSorted(le, s[..|s| - 1]);
      InsertLastSorted(le, Sort(le, s[..|s| - 1]), s[|s| - 1]);
    }
  }

  /** An element that sorts strictly after `z` never shares a key with an element equivalent to `z`. */
  lemma NotBothEquivalent<T(!new)>(le: (T, T) -> bool, z: T, last: T, x: T)
    requires TotalPreorder(le) && !le(last, z)
    ensures !(Equivalent(le, z, x) && Equivalent(le, last, x))
  {
  }

  lemma {:induction false} InsertLastClass<T(!new)>(le: (T, T) -> bool, s: seq<T>, z: T, x: T)
    requires TotalPreorder(le)
    ensures Class(le, InsertLast(le, s, z), x)
         == Class(le, s, x) + (if Equivalent(le, z, x) then [z] else [])
  {
    if s == [] || le(s[|s| - 1], z) {
      ClassAppend(le, s, z, x);
    } else {
      var init, last := s[..|s| - 1], s[|s| - 1];
      var withZ := if Equivalent(le, z, x) then [z] else [];
      var withLast := if Equivalent(le, last, x) then [last] else [];
      calc {
        Class(le, InsertLast(le, s, z), x);
        Class(le, InsertLast(le, init, z) + [last], x);
        { ClassAppend(le, InsertLast(le, init, z), last, x); }
        Class(le, InsertLast(le, init, z), x) + withLast;
        { InsertLastClass(le, init, z, x); }
        Class(le, init, x) + withZ + withLast;
        { NotBothEquivalent(le, z, last, x); }
        Class(le, init, x) + withLast + withZ;
        { ClassAppend(le, init, last, x); assert init + [last] == s; }
        Class(le, s, x) + withZ;
      }
    }
  }

  /** The reference sort keeps every group of equal keys in input order. */
  lemma {:induction false} SortStable<T(!new)>(le: (T, T) -> bool, s: seq<T>, x: T)
    requires TotalPreorder(le)
    ensures Class(le, Sort(le, s), x) == Class(le, s, x)
  {
    if s != [] {
      var init, last := s[..|s| - 1], s[|s| - 1];
      calc {
        Class(le, Sort(le, s), x);
        Class(le, InsertLast(le, Sort(le, init), last), x);
        { InsertLastClass(le, Sort(le, init), last, x); }
        Class(le, Sort(le, init), x) + (if Equivalent(le, last, x) then [last] else []);
        { SortStable(le, init, x); }
        Class(le, init, x) + (if Equivalent(le, last, x) then [last] else []);
        { ClassAppend(le, init, last, x); assert init + [last] == s; }
        Class(le, s, x);
      }
    }
  }

  /** `Sort` is a stable sort: an ordered, stable permutation of its input. */
  lemma SortIsStableSort<T(!new)>(le: (T, T) -> bool, s: seq<T>)
    requires TotalPreorder(le)
    ensures Sorted(le, Sort(le, s))
    ensures multiset(Sort(le, s)) == multiset(s)
    ensures Stable(le, s, Sort(le, s))
  {
    SortSorted(le, s);
    forall x ensures Class(le, Sort(le, s), x) == Class(le, s, x) {
      SortStable(le, s, x);
    }
  }

  /** `x` moves in front of a last element that sorts after it. */
  lemma InsertLastPast<T>(le: (T, T) -> bool, s: seq<T>, x: T)
    requires s != [] && !le(s[|s| - 1], x)
    ensures InsertLast(le, s, x) == InsertLast(le, s[..|s| - 1], x) + [s[|s| - 1]]
  {
  }

  lemma SplitAround<T>(s: seq<T>, j: nat, x: T)
    requires j < |s|
    ensures s[..j] + [x] + s[j..] == (s[..|s| - 1][..j] + [x] + s[..|s| - 1][j..]) + [s[|s| - 1]]
  {
    assert s[j..] == s[..|s| - 1][j..] + [s[|s| - 1]];
  }

  /**
   * `InsertLast` puts `x` right behind the last element it does not sort
   * before: behind `done[..j]` when every later element sorts after `x`.
   */
  lemma {:induction false} InsertLastAt<T>(le: (T, T) -> bool, done: seq<T>, j: nat, x: T)
    requires j <= |done| && (j == 0 || le(done[j - 1], x))
    requires forall k :: j <= k < |done| ==> !le(done[k], x)
    ensures InsertLast(le, done, x) == done[..j] + [x] + done[j..]
    decreases |done|
  {
    if j < |done| {
      var init, last := done[..|done| - 1], done[|done| - 1];
      InsertLastPast(le, done, x);
      assert init[..j] == done[..j] && (j == 0 || init[j - 1] == done[j - 1]);
      assert forall k :: j <= k < |init| ==> !le(init[k], x) by {
        forall k | j <= k < |init| ensures !le(init[k], x) {
          assert init[k] == done[k];
        }
      }
      InsertLastAt(le, init, j, x);
      SplitAround(done, j, x);
    } else {
      assert done[..j] == done && done[j..] == [];
    }
  }

  /** The array prefix the inner loop leaves behind, read as a sequence. */
  lemma Assemble<T>(s: seq<T>, done: seq<T>, j: nat, x: T)
    requires j <= |done| && |s| == |done| + 1 && s[j] == x
    requires forall k :: 0 <= k < j ==> s[k] == done[k]
    requires forall k :: j < k < |s| ==> s[k] == done[k - 1]
    ensures s == done[..j] + [x] + done[j..]
  {
    var t := done[..j] + [x] + done[j..];
    forall k | 0 <= k < |s| ensures s[k] == t[k] {
      if k > j {
        assert t[k] == done[j..][k - j - 1];
      }
    }
  }

  /**
   * The array the inner loop leaves behind, once `x` is written at `j`:
   * the prefix is `done` with `x` inserted, the rest is untouched.
   */
  lemma InsertFinish<T>(le: (T, T) -> bool, orig: seq<T>, after: seq<T>, i: nat, j: nat, x: T)
    requires i < |orig| && |after| == |orig| && j <= i
    requires j == 0 || le(orig[j - 1], x)
    requires forall k :: j <= k < i ==> !le(orig[k], x)
    requires forall k :: 0 <= k < j ==> after[k] == orig[k]
    requires after[j] == x
    requires forall k :: j < k <= i ==> after[k] == orig[k - 1]
    requires forall k :: i < k < |after| ==> after[k] == orig[k]
    ensures after[..i + 1] == InsertLast(le, orig[..i], x)
    ensures after[i + 1..] == orig[i + 1..]
  {
    var done := orig[..i];
    assert forall k :: j <= k < |done| ==> !le(done[k], x);
    InsertLastAt(le, done, j, x);
    Assemble(after[..i + 1], done, j, x);
  }

  /**
   * Inserts `a[i]` into the sorted prefix `a[..i]`, shifting the elements
   * that sort after it one place right.
   */
  method InsertInto<T>(a: array<T>, i: nat, le: (T, T) -> bool)
    requires i < a.Length
    modifies a
    ensures a[..i + 1] == InsertLast(le, old(a[..i]), old(a[i]))
    ensures a[i + 1..] == old(a[i + 1..])
  {
    var x := a[i];
    ghost var orig := a[..];
    var j := i;
    while j > 0 && !le(a[j - 1], x)
      invariant 0 <= j <= i
      invariant forall k :: 0 <= k < j ==> a[k] == orig[k]
      invariant forall k :: j < k <= i ==> a[k] == orig[k - 1]
      invariant forall k :: i < k < a.Length ==> a[k] == orig[k]
      invariant forall k :: j <= k < i ==> !le(orig[k], x)
    {
      a[j] := a[j - 1];
      j := j - 1;
    }
    a[j] := x;
    InsertFinish(le, orig, a[..], i, j, x);
  }

  /** `Sort` of one more input element inserts it into the sorted prefix. */
  lemma SortPrefix<T>(le: (T, T) -> bool, input: seq<T>, i: nat)
    requires i < |input|
    ensures Sort(le, input[..i + 1]) == InsertLast(le, Sort(le, input[..i]), input[i])
  {
    assert input[..i + 1][..i] == input[..i];
  }

  /**
   * One round of the outer loop: inserting the next input element into the
   * sorted prefix extends the prefix by one and leaves the rest alone.
   */
  lemma SortStep<T>(le: (T, T) -> bool, input: seq<T>, before: seq<T>, after: seq<T>, i: nat)
    requires i < |input| && |before| == |input| && |after| == |input|
    requires before[..i] == Sort(le, input[..i]) && before[i..] == input[i..]
    requires after[..i + 1] == InsertLast(le, before[..i], before[i])
    requires after[i + 1..] == before[i + 1..]
    ensures after[..i + 1] == Sort(le, input[..i + 1])
    ensures after[i + 1..] == input[i + 1..]
  {
    assert before[i] == before[i..][0] == input[i..][0] == input[i];
    SortPrefix(le, input, i);
    assert before[i + 1..] == before[i..][1..];
    assert input[i + 1..] == input[i..][1..];
  }

  /** `a.sort()` in place, by insertion, one element at a time. */
  method StableSort<T>(a: array<T>, le: (T, T) -> bool)
    modifies a
    ensures a[..] == Sort(le, old(a[..]))
  {
    ghost var input := a[..];
    var i := 0;
    while i < a.Length
      invariant 0 <= i <= a.Length
      invariant a[..i] == Sort(le, input[..i])
      invariant a[i..] == input[i..]
    {
      ghost var before := a[..];
      InsertInto(a, i, le);
      SortStep(le, input, before, a[..], i);
      i := i + 1;
    }
    assert input[..a.Length] == input && a[..a.Length] == a[..];
  }
}
