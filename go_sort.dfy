/**
  `sort.Strings`: sorting a slice of strings in place into ascending order of
  Go's `<`, and the fact that a sorted arrangement of a collection is unique.
 */
module GoSort {
  import opened GoStrings

  /** Every element is `<=` every later one. */
  predicate Sorted(s: seq<string>)
  {
    forall i, j :: 0 <= i < j < |s| ==> LessEq(s[i], s[j])
  }

  /** Every element is `<=` the next one. */
  predicate AdjacentSorted(s: seq<string>)
  {
    forall k :: 0 < k < |s| ==> LessEq(s[k - 1], s[k])
  }

  lemma {:induction false} AdjacentSortedIsSorted(s: seq<string>)
    requires AdjacentSorted(s)
    ensures Sorted(s)
    decreases |s|
  {
    if |s| > 1 {
      AdjacentSortedIsSorted(s[1..]);
      forall j | 1 <= j < |s|
        ensures LessEq(s[0], s[j])
      {
        if j > 1 {
          assert LessEq(s[1..][0], s[1..][j - 1]);
          LessEqTransitive(s[0], s[1], s[j]);
        }
      }
      forall i, j | 0 <= i < j < |s|
        ensures LessEq(s[i], s[j])
      {
        if i > 0 {
          assert LessEq(s[1..][i - 1], s[1..][j - 1]);
        }
      }
    }
  }

  /**
    `sort.Strings(a)`: afterwards `a` is in ascending order and holds the
    same strings as before. Go's implementation is a pattern-defeating
    quicksort; this is an insertion sort by adjacent swaps, which keeps the
    same promise.
   */
  method SortStrings(a: array<string>)
    modifies a
    ensures Sorted(a[..])
    ensures multiset(a[..]) == old(multiset(a[..]))
  {
    var i := 0;
    while i < a.Length
      invariant 0 <= i <= a.Length
      invariant forall k :: 0 < k < i ==> LessEq(a[k - 1], a[k])
      invariant multiset(a[..]) == old(multiset(a[..]))
    {
      InsertLast(a, i);
      i := i + 1;
    }
    assert AdjacentSorted(a[..]);
    AdjacentSortedIsSorted(a[..]);
  }

  /** Moves `a[i]` left past every larger string, so that `a[..i+1]` is in order. */
  method InsertLast(a: array<string>, i: nat)
    requires i < a.Length
    requires forall k :: 0 < k < i ==> LessEq(a[k - 1], a[k])
    modifies a
    ensures forall k :: 0 < k <= i ==> LessEq(a[k - 1], a[k])
    ensures multiset(a[..]) == old(multiset(a[..]))
    ensures a[i + 1..] == old(a[i + 1..])
  {
    var j: nat := i;
    while j > 0 && Less(a[j], a[j - 1])
      invariant Inserting(a[..], i, j)
      invariant multiset(a[..]) == old(multiset(a[..]))
      invariant a[i + 1..] == old(a[i + 1..])
    {
      ghost var s := a[..];
      a[j - 1], a[j] := a[j], a[j - 1];
      assert a[..] == Swapped(s, j);
      SwapKeepsInserting(s, i, j);
      j := j - 1;
    }
    InsertingDone(a[..], i, j);
  }

  /**
    The state of an insertion step that has moved the new string to `j`:
    `s[..i+1]` is in order except around position `j`, and the strings on
    either side of `j` are in order with each other.
   */
  ghost predicate Inserting(s: seq<string>, i: nat, j: nat)
  {
    j <= i < |s| &&
    (forall k :: 0 < k < j ==> LessEq(s[k - 1], s[k])) &&
    (forall k :: j + 1 < k <= i ==> LessEq(s[k - 1], s[k])) &&
    (j < i ==> LessEq(s[j], s[j + 1])) &&
    (0 < j < i ==> LessEq(s[j - 1], s[j + 1]))
  }

  /** `s` with the strings at `j - 1` and `j` exchanged. */
  function Swapped(s: seq<string>, j: nat): (r: seq<string>)
    requires 0 < j < |s|
    ensures |r| == |s| && multiset(r) == multiset(s)
    ensures r[j + 1..] == s[j + 1..]
  {
    s[j - 1 := s[j]][j := s[j - 1]]
  }

  /** Swapping a string past a larger one moves the insertion point one step left. */
  lemma SwapKeepsInserting(s: seq<string>, i: nat, j: nat)
    requires Inserting(s, i, j) && 0 < j && Less(s[j], s[j - 1])
    ensures Inserting(Swapped(s, j), i, j - 1)
  {
    LessAsymmetric(s[j], s[j - 1]);
  }

  /** An insertion step that cannot move further has `s[..i+1]` in order. */
  lemma InsertingDone(s: seq<string>, i: nat, j: nat)
    requires Inserting(s, i, j) && (j == 0 || !Less(s[j], s[j - 1]))
    ensures forall k :: 0 < k <= i ==> LessEq(s[k - 1], s[k])
  {
  }

  /**
    Two sorted arrangements of the same strings are the same sequence: the
    order in which the strings were produced does not show in the result.
   */
  lemma {:induction false} SortedUnique(xs: seq<string>, ys: seq<string>)
    requires Sorted(xs) && Sorted(ys)
    requires multiset(xs) == multiset(ys)
    ensures xs == ys
    decreases |xs|
  {
    if xs != [] {
      assert xs[0] in multiset(ys);
      assert ys != [];
      assert ys[0] in multiset(xs);
      var k :| 0 <= k < |ys| && ys[k] == xs[0];
      var m :| 0 <= m < |xs| && xs[m] == ys[0];
      LessIrreflexive(xs[0]);
      assert LessEq(ys[0], ys[k]);
      assert LessEq(xs[0], xs[m]);
      LessEqAntisymmetric(xs[0], ys[0]);
      assert xs == [xs[0]] + xs[1..];
      assert ys == [ys[0]] + ys[1..];
      assert multiset(xs) == multiset{xs[0]} + multiset(xs[1..]);
      assert multiset(ys) == multiset{ys[0]} + multiset(ys[1..]);
      assert multiset(xs[1..]) == multiset(xs) - multiset{xs[0]};
      assert multiset(ys[1..]) == multiset(ys) - multiset{ys[0]};
      SortedUnique(xs[1..], ys[1..]);
    } else {
      assert |multiset(ys)| == 0;
    }
  }

  /** A least element of a non-empty finite set of strings exists. */
  lemma {:induction false} MinExists(s: set<string>)
    requires s != {}
    ensures exists m :: m in s && forall y :: y in s ==> LessEq(m, y)
    decreases s
  {
    var x :| x in s;
    LessIrreflexive(x);
    if s != {x} {
      MinExists(s - {x});
      var m :| m in s - {x} && forall y :: y in s - {x} ==> LessEq(m, y);
      if Less(x, m) {
        forall y | y in s
          ensures LessEq(x, y)
        {
          if y != x {
            assert y in s - {x};
            assert !Less(y, m);
            if Less(y, x) {
              LessTransitive(y, x, m);
            }
          }
        }
      } else {
        assert forall y :: y in s ==> LessEq(m, y);
      }
    } else {
      assert forall y :: y in s ==> LessEq(x, y);
    }
  }

  /** The strings of `s` in ascending order. */
  ghost function SortedOf(s: set<string>): (r: seq<string>)
    ensures Sorted(r)
    ensures multiset(r) == multiset(s)
    decreases s
  {
    if s == {} then []
    else
      MinExists(s);
      var m :| m in s && forall y :: y in s ==> LessEq(m, y);
      var rest := SortedOf(s - {m});
      assert forall j :: 0 <= j < |rest| ==> rest[j] in multiset(s - {m});
      assert multiset(s) == multiset{m} + multiset(s - {m});
      [m] + rest
  }
}
