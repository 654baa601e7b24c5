/** `java.util.List.sort` with a comparator: a stable sort. The comparator
    enters as `le(a, b)`, "a may precede b", which holds when the comparator
    returns a value at most zero. */
module ListSort {

  /** What the `Comparator` contract gives: every pair is comparable and the
      order is transitive. */
  ghost predicate IsTotalPreorder(le: (string, string) -> bool) {
    && (forall a, b :: le(a, b) || le(b, a))
    && (forall a, b, c :: le(a, b) && le(b, c) ==> le(a, c))
  }

  /** Every adjacent pair is in order. */
  predicate Sorted(s: seq<string>, le: (string, string) -> bool) {
    forall i :: 0 < i < |s| ==> le(s[i - 1], s[i])
  }

  /** In a sorted sequence every element may precede the last one. */
  lemma {:induction false} SortedLast(s: seq<string>, le: (string, string) -> bool, i: nat)
    requires IsTotalPreorder(le)
    requires Sorted(s, le) && i < |s|
    ensures le(s[i], s[|s| - 1])
    decreases |s| - i
  {
    if i < |s| - 1 {
      SortedLast(s, le, i + 1);
    }
  }

  /** Two elements the comparator cannot tell apart. */
  predicate Tied(a: string, b: string, le: (string, string) -> bool) {
    le(a, b) && le(b, a)
  }

  /** The subsequence of `s` made of the elements tied with `k`, in order.
      A sort is stable when it keeps every such subsequence. */
  function Ties(s: seq<string>, k: string, le: (string, string) -> bool): seq<string> {
    if |s| == 0 then []
    else Ties(s[..|s| - 1], k, le) + (if Tied(s[|s| - 1], k, le) then [s[|s| - 1]] else [])
  }

  lemma {:induction false} TiesMember(s: seq<string>, k: string, le: (string, string) -> bool, x: string)
    requires x in Ties(s, k, le)
    ensures x in s && Tied(x, k, le)
  {
    if |s| != 0 && x in Ties(s[..|s| - 1], k, le) {
      TiesMember(s[..|s| - 1], k, le, x);
    }
  }

  lemma {:induction false} TiesComplete(s: seq<string>, k: string, le: (string, string) -> bool, x: string)
    requires x in s && Tied(x, k, le)
    ensures x in Ties(s, k, le)
  {
    if s[|s| - 1] != x {
      assert x in s[..|s| - 1];
      TiesComplete(s[..|s| - 1], k, le, x);
    }
  }

  /** Insert `x` after the last element that may precede it: the step of a
      stable insertion sort, scanning from the back. */
  function Insert(t: seq<string>, x: string, le: (string, string) -> bool): (r: seq<string>)
    ensures |r| == |t| + 1
    ensures r[|r| - 1] == x || (|t| > 0 && r[|r| - 1] == t[|t| - 1])
  {
    if |t| == 0 then [x]
    else if le(t[|t| - 1], x) then t + [x]
    else Insert(t[..|t| - 1], x, le) + [t[|t| - 1]]
  }

  /** `Insert` puts `x` right after the last element that may precede it:
      everything after that position must follow `x`. */
  lemma {:induction false} InsertAfterLastPredecessor(p: seq<string>, j: nat, x: string, le: (string, string) -> bool)
    requires j <= |p|
    requires j == 0 || le(p[j - 1], x)
    requires forall k :: j <= k < |p| ==> !le(p[k], x)
    ensures Insert(p, x, le) == p[..j] + [x] + p[j..]
  {
    if j == |p| {
      assert p[..j] == p && p[j..] == [];
    } else {
      var init, last := p[..|p| - 1], p[|p| - 1];
      InsertAfterLastPredecessor(init, j, x, le);
      assert init[..j] == p[..j];
      assert p[j..] == init[j..] + [last];
    }
  }

  /** Insertion adds exactly `x` to the multiset of elements. */
  lemma {:induction false} InsertPermutes(t: seq<string>, x: string, le: (string, string) -> bool)
    ensures multiset(Insert(t, x, le)) == multiset(t) + multiset{x}
  {
    if |t| != 0 && !le(t[|t| - 1], x) {
      var init := t[..|t| - 1];
      InsertPermutes(init, x, le);
      assert t == init + [t[|t| - 1]];
    }
  }

  lemma {:induction false} InsertSorted(t: seq<string>, x: string, le: (string, string) -> bool)
    requires IsTotalPreorder(le)
    requires Sorted(t, le)
    ensures Sorted(Insert(t, x, le), le)
  {
    if |t| != 0 && !le(t[|t| - 1], x) {
      var init, last := t[..|t| - 1], t[|t| - 1];
      InsertSorted(init, x, le);
      var r := Insert(init, x, le);
      assert le(r[|r| - 1], last);
      assert Insert(t, x, le) == r + [last];
    }
  }

  /** Inserting `x` extends the tie-subsequence of `x`'s class by `x` and
      leaves every other class alone: insertion is stable. */
  lemma {:induction false} InsertTies(t: seq<string>, x: string, k: string, le: (string, string) -> bool)
    requires IsTotalPreorder(le)
    ensures Ties(Insert(t, x, le), k, le) == Ties(t, k, le) + (if Tied(x, k, le) then [x] else [])
  {
    var r := Insert(t, x, le);
    if |t| == 0 {
      assert r[..0] == [];
    } else if le(t[|t| - 1], x) {
      assert r[..|r| - 1] == t;
    } else {
      var init, last := t[..|t| - 1], t[|t| - 1];
      InsertTies(init, x, k, le);
      assert r[..|r| - 1] == Insert(init, x, le);
      assert !(Tied(x, k, le) && Tied(last, k, le));
    }
  }

  /** The stable sort: insertion sort from the front. */
  function StableSort(s: seq<string>, le: (string, string) -> bool): (r: seq<string>)
    ensures |r| == |s|
  {
    if |s| == 0 then []
    else Insert(StableSort(s[..|s| - 1], le), s[|s| - 1], le)
  }

  lemma StableSortPrefix(s: seq<string>, i: nat, le: (string, string) -> bool)
    requires i < |s|
    ensures StableSort(s[..i + 1], le) == Insert(StableSort(s[..i], le), s[i], le)
  {
    assert s[..i + 1][..i] == s[..i];
  }

  /** Sorting neither loses, duplicates nor invents an element. */
  lemma {:induction false} StableSortPermutes(s: seq<string>, le: (string, string) -> bool)
    ensures multiset(StableSort(s, le)) == multiset(s)
  {
    if |s| != 0 {
      var init := s[..|s| - 1];
      StableSortPermutes(init, le);
      InsertPermutes(StableSort(init, le), s[|s| - 1], le);
      assert s == init + [s[|s| - 1]];
    }
  }

  lemma {:induction false} StableSortSorted(s: seq<string>, le: (string, string) -> bool)
    requires IsTotalPreorder(le)
    ensures Sorted(StableSort(s, le), le)
  {
    if |s| != 0 {
      StableSortSorted(s[..|s| - 1], le);
      InsertSorted(StableSort(s[..|s| - 1], le), s[|s| - 1], le);
    }
  }

  /** Elements the comparator ties keep their relative order. */
  lemma {:induction false} StableSortStable(s: seq<string>, k: string, le: (string, string) -> bool)
    requires IsTotalPreorder(le)
    ensures Ties(StableSort(s, le), k, le) == Ties(s, k, le)
  {
    if |s| != 0 {
      StableSortStable(s[..|s| - 1], k, le);
      InsertTies(StableSort(s[..|s| - 1], le), s[|s| - 1], k, le);
    }
  }

  /** With equal tie-subsequences, every element of `b` occurs in sorted `a`,
      so it may precede the last element of `a`. */
  lemma PrecedesLastOfOther(a: seq<string>, b: seq<string>, y: string, le: (string, string) -> bool)
    requires IsTotalPreorder(le)
    requires Sorted(a, le) && |a| != 0 && y in b
    requires Ties(a, y, le) == Ties(b, y, le)
    ensures le(y, a[|a| - 1])
  {
    TiesComplete(b, y, le, y);
    TiesMember(a, y, le, y);
    var i :| 0 <= i < |a| && a[i] == y;
    SortedLast(a, le, i);
  }

  /** The last element of a non-empty sequence ends its own tie-subsequence. */
  lemma TiesOfLast(s: seq<string>, k: string, le: (string, string) -> bool)
    requires |s| != 0 && Tied(s[|s| - 1], k, le)
    ensures Ties(s, k, le) == Ties(s[..|s| - 1], k, le) + [s[|s| - 1]]
  {
  }

  /** If the last elements of `a` and `b` are both tied with `x`, they end
      `x`'s tie-subsequences, so equal tie-subsequences make them equal. */
  lemma SameTiesSameLast(a: seq<string>, b: seq<string>, x: string, le: (string, string) -> bool)
    requires |a| != 0 && |b| != 0
    requires Tied(a[|a| - 1], x, le) && Tied(b[|b| - 1], x, le)
    requires Ties(a, x, le) == Ties(b, x, le)
    ensures a[|a| - 1] == b[|b| - 1]
  {
    TiesOfLast(a, x, le);
    TiesOfLast(b, x, le);
    var t := Ties(a, x, le);
    assert t[|t| - 1] == a[|a| - 1];
    assert t[|t| - 1] == b[|b| - 1];
  }

  /** Two sorted sequences with the same tie-subsequences end with the same element. */
  lemma SortedSameLast(a: seq<string>, b: seq<string>, le: (string, string) -> bool)
    requires IsTotalPreorder(le)
    requires Sorted(a, le) && Sorted(b, le) && |a| != 0 && |b| != 0
    requires Ties(a, a[|a| - 1], le) == Ties(b, a[|a| - 1], le)
    requires Ties(a, b[|b| - 1], le) == Ties(b, b[|b| - 1], le)
    ensures a[|a| - 1] == b[|b| - 1]
  {
    var x, y := a[|a| - 1], b[|b| - 1];
    PrecedesLastOfOther(a, b, y, le);
    PrecedesLastOfOther(b, a, x, le);
    SameTiesSameLast(a, b, x, le);
  }

  lemma DropLastTies(a: seq<string>, b: seq<string>, k: string, le: (string, string) -> bool)
    requires |a| != 0 && |b| != 0 && a[|a| - 1] == b[|b| - 1]
    requires Ties(a, k, le) == Ties(b, k, le)
    ensures Ties(a[..|a| - 1], k, le) == Ties(b[..|b| - 1], k, le)
  {
    var n := |Ties(a[..|a| - 1], k, le)|;
    assert Ties(a[..|a| - 1], k, le) == Ties(a, k, le)[..n];
    assert Ties(b[..|b| - 1], k, le) == Ties(b, k, le)[..n];
  }

  /** Sortedness and stability determine the result: two sorted sequences with
      the same tie-subsequences are equal. Hence every stable sort by the same
      comparator, whatever its algorithm, yields `StableSort`. */
  lemma {:induction false} SortedUnique(a: seq<string>, b: seq<string>, le: (string, string) -> bool)
    requires IsTotalPreorder(le)
    requires Sorted(a, le) && Sorted(b, le)
    requires forall k :: Ties(a, k, le) == Ties(b, k, le)
    ensures a == b
    decreases |a| + |b|
  {
    if |a| == 0 && |b| == 0 {
      return;
    }
    if |a| == 0 || |b| == 0 {
      var z := if |a| == 0 then b[|b| - 1] else a[|a| - 1];
      if |a| == 0 {
        TiesOfLast(b, z, le);
      } else {
        TiesOfLast(a, z, le);
      }
      assert false;
    }
    SortedSameLast(a, b, le);
    var a', b' := a[..|a| - 1], b[..|b| - 1];
    forall k
      ensures Ties(a', k, le) == Ties(b', k, le)
    {
      DropLastTies(a, b, k, le);
    }
    SortedUnique(a', b', le);
    assert a == a' + [a[|a| - 1]] && b == b' + [b[|b| - 1]];
  }

  /** Sorting a sorted sequence changes nothing. */
  lemma {:induction false} StableSortOfSorted(s: seq<string>, le: (string, string) -> bool)
    requires Sorted(s, le)
    ensures StableSort(s, le) == s
  {
    if |s| != 0 {
      var init := s[..|s| - 1];
      StableSortOfSorted(init, le);
      if |init| != 0 {
        assert le(init[|init| - 1], s[|s| - 1]);
      }
    }
  }

  /** Sorting twice gives the same result as sorting once. */
  lemma StableSortIdempotent(s: seq<string>, le: (string, string) -> bool)
    requires IsTotalPreorder(le)
    ensures StableSort(StableSort(s, le), le) == StableSort(s, le)
  {
    StableSortSorted(s, le);
    StableSortOfSorted(StableSort(s, le), le);
  }

  /** A sequence that agrees with `p` around position `j` and holds `x` there. */
  lemma FilledGap(b: seq<string>, p: seq<string>, j: nat, x: string)
    requires j < |b| == |p| + 1 && b[j] == x
    requires forall k :: 0 <= k < j ==> b[k] == p[k]
    requires forall k :: j < k < |b| ==> b[k] == p[k - 1]
    ensures b == p[..j] + [x] + p[j..]
  {
    var r := p[..j] + [x] + p[j..];
    forall k | 0 <= k < |b|
      ensures b[k] == r[k]
    {
      if k < j {
        assert r[k] == p[..j][k];
      } else if k > j {
        assert r[k] == p[j..][k - j - 1];
      }
    }
  }

  /** The inner scan: shift right, one place, the elements of `a[..i]` that
      must follow `x`, from the back, stopping at the first that may precede
      it. Returns the gap left for `x`. */
  method ShiftFollowers(a: array<string>, i: nat, x: string, le: (string, string) -> bool) returns (j: nat)
    requires i < a.Length
    modifies a
    ensures j <= i
    ensures j == 0 || le(old(a[j - 1]), x)
    ensures forall k :: j <= k < i ==> !le(old(a[k]), x)
    ensures forall k :: 0 <= k < j ==> a[k] == old(a[k])
    ensures forall k :: j < k <= i ==> a[k] == old(a[k - 1])
    ensures forall k :: i < k < a.Length ==> a[k] == old(a[k])
  {
    j := i;
    while j > 0 && !le(a[j - 1], x)
      invariant 0 <= j <= i
      invariant forall k :: 0 <= k < j ==> a[k] == old(a[k])
      invariant forall k :: j < k <= i ==> a[k] == old(a[k - 1])
      invariant forall k :: i < k < a.Length ==> a[k] == old(a[k])
      invariant forall k :: j <= k < i ==> !le(old(a[k]), x)
    {
      a[j] := a[j - 1];
      j := j - 1;
    }
  }

  /** Move `a[i]` left past the elements of the sorted prefix `a[..i]` that
      must follow it; the first `i + 1` elements then hold `Insert`'s result. */
  method InsertInPlace(a: array<string>, i: nat, le: (string, string) -> bool)
    requires i < a.Length
    modifies a
    ensures a[..i + 1] == Insert(old(a[..i]), old(a[i]), le)
    ensures a[i + 1..] == old(a[i + 1..])
  {
    ghost var p := a[..i];
    var x := a[i];
    var j := ShiftFollowers(a, i, x, le);
    a[j] := x;
    InsertAfterLastPredecessor(p, j, x, le);
    FilledGap(a[..i + 1], p, j, x);
    assert a[i + 1..] == old(a[i + 1..]);
  }

  /** Stable in-place insertion sort, standing for the algorithm inside `List.sort`. */
  method InsertionSort(a: array<string>, le: (string, string) -> bool)
    modifies a
    ensures a[..] == StableSort(old(a[..]), le)
  {
    ghost var s := a[..];
    for i := 0 to a.Length
      invariant a[..i] == StableSort(s[..i], le)
      invariant a[i..] == s[i..]
    {
      assert a[i] == a[i..][0] == s[i];
      InsertInPlace(a, i, le);
      StableSortPrefix(s, i, le);
      assert a[i + 1..] == s[i + 1..];
    }
    assert a[..] == a[..a.Length] && s == s[..a.Length];
  }
}
