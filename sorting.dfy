/** Sorting a slice of subnet ids in ascending string order, in place, as
    `sort.Slice(ids, func(a, b int) bool { return ids[a] < ids[b] })` does. */
module Sorting {
  import opened StringOrder

  /** Every id is at most its successor. */
  predicate Sorted(s: seq<string>) {
    forall k :: 0 < k < |s| ==> AtMost(s[k - 1], s[k])
  }

  /** The head of a sorted list is its least element. */
  lemma {:induction false} SortedHeadLeast(s: seq<string>)
    requires Sorted(s) && |s| > 0
    ensures forall x :: x in s ==> AtMost(s[0], x)
  {
    if |s| > 1 {
      var tail := s[1..];
      SortedTail(s);
      SortedHeadLeast(tail);
      forall x | x in s ensures AtMost(s[0], x) {
        if x != s[0] {
          assert x in tail;
          AtMostTransitive(s[0], s[1], x);
        } else {
          BelowIrreflexive(x);
        }
      }
    } else {
      BelowIrreflexive(s[0]);
    }
  }

  lemma SortedTail(s: seq<string>)
    requires Sorted(s) && |s| > 0
    ensures Sorted(s[1..])
  {
    forall k | 0 < k < |s| - 1 ensures AtMost(s[1..][k - 1], s[1..][k]) {
      assert s[1..][k - 1] == s[k] && s[1..][k] == s[k + 1];
    }
  }

  /** Two sorted lists holding the same ids are the same list: the sorted order
      of a collection does not depend on the order it was gathered in. */
  lemma {:induction false} SortedUnique(s: seq<string>, t: seq<string>)
    requires Sorted(s) && Sorted(t)
    requires multiset(s) == multiset(t)
    ensures s == t
    decreases |s|
  {
    if |s| > 0 {
      assert |t| == |s| by {
        assert |multiset(t)| == |multiset(s)|;
      }
      assert s[0] in multiset(t) && t[0] in multiset(s);
      assert s[0] in t && t[0] in s;
      SortedHeadLeast(s);
      SortedHeadLeast(t);
      AtMostAntisymmetric(s[0], t[0]);
      assert s == [s[0]] + s[1..] && t == [t[0]] + t[1..];
      assert multiset(s) == multiset{s[0]} + multiset(s[1..]);
      assert multiset(t) == multiset{t[0]} + multiset(t[1..]);
      assert s[0] == t[0];
      assert multiset(s[1..]) == multiset(s) - multiset{s[0]};
      assert multiset(t[1..]) == multiset(t) - multiset{t[0]};
      SortedTail(s);
      SortedTail(t);
      SortedUnique(s[1..], t[1..]);
    } else {
      assert |multiset(t)| == 0;
    }
  }

  /** Insertion sort; `sort.Slice` uses a different algorithm, but by
      `SortedUnique` every algorithm that sorts a slice leaves the same result. */
  method SortStrings(a: array<string>)
    modifies a
    ensures Sorted(a[..])
    ensures multiset(a[..]) == multiset(old(a[..]))
    ensures Sorted(old(a[..])) ==> a[..] == old(a[..])
  {
    var i := 0;
    while i < a.Length
      invariant 0 <= i <= a.Length
      invariant forall k :: 0 < k < i ==> AtMost(a[k - 1], a[k])
      invariant multiset(a[..]) == multiset(old(a[..]))
    {
      InsertLast(a, i);
      i := i + 1;
    }
    if Sorted(old(a[..])) {
      SortedUnique(a[..], old(a[..]));
    }
  }

  /** Moves `a[i]` left past every larger id, so that `a[..i + 1]` becomes sorted
      when `a[..i]` was. */
  method InsertLast(a: array<string>, i: nat)
    requires i < a.Length
    requires forall k :: 0 < k < i ==> AtMost(a[k - 1], a[k])
    modifies a
    ensures forall k :: 0 < k <= i ==> AtMost(a[k - 1], a[k])
    ensures multiset(a[..]) == multiset(old(a[..]))
  {
    var j := i;
    while j > 0 && Below(a[j], a[j - 1])
      invariant 0 <= j <= i
      invariant forall k :: 0 < k <= i && k != j ==> AtMost(a[k - 1], a[k])
      invariant 0 < j < i ==> AtMost(a[j - 1], a[j + 1])
      invariant multiset(a[..]) == multiset(old(a[..]))
    {
      BelowAsymmetric(a[j], a[j - 1]);
      SwapWithPrevious(a, j);
      j := j - 1;
    }
  }

  method SwapWithPrevious(a: array<string>, j: nat)
    requires 0 < j < a.Length
    modifies a
    ensures a[j - 1] == old(a[j]) && a[j] == old(a[j - 1])
    ensures forall k :: 0 <= k < a.Length && k != j - 1 && k != j ==> a[k] == old(a[k])
    ensures multiset(a[..]) == multiset(old(a[..]))
  {
    a[j - 1], a[j] := a[j], a[j - 1];
  }
}
