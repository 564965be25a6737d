// The in-place quicksort, written once for any total order.
module Sorting {
  ghost predicate TotalOrder<T(!new)>(less: (T, T) -> bool) {
    && (forall x, y :: less(x, y) ==> !less(y, x))
    && (forall x, y :: !less(x, y) && !less(y, x) ==> x == y)
    && (forall x, y, z :: less(x, y) && less(y, z) ==> less(x, z))
  }

  ghost predicate Sorted<T(!new)>(s: seq<T>, less: (T, T) -> bool) {
    forall i, j :: 0 <= i < j < |s| ==> !less(s[j], s[i])
  }

  method Swap<T>(a: array<T>, i: nat, j: nat)
    requires i < a.Length && j < a.Length
    modifies a
    ensures a[i] == old(a[j]) && a[j] == old(a[i])
    ensures forall k :: 0 <= k < a.Length && k != i && k != j ==> a[k] == old(a[k])
    ensures multiset(a[..]) == multiset(old(a[..]))
  {
    a[i], a[j] := a[j], a[i];
  }

  /** The first element moves to where it belongs: smaller ones before it, the others behind. */
  method Pivot<T(!new)>(a: array<T>, less: (T, T) -> bool, pivotIndex: nat, endIndex: nat) returns (swapIndex: nat)
    requires pivotIndex <= endIndex < a.Length
    modifies a
    ensures pivotIndex <= swapIndex <= endIndex
    ensures forall k :: pivotIndex <= k < swapIndex ==> less(a[k], a[swapIndex])
    ensures forall k :: swapIndex < k <= endIndex ==> !less(a[k], a[swapIndex])
    ensures multiset(a[..]) == multiset(old(a[..]))
    ensures a[..pivotIndex] == old(a[..pivotIndex]) && a[endIndex + 1..] == old(a[endIndex + 1..])
  {
    swapIndex := pivotIndex;
    for i := pivotIndex + 1 to endIndex + 1
      invariant pivotIndex <= swapIndex < i
      invariant a[pivotIndex] == old(a[pivotIndex])
      invariant forall k :: pivotIndex < k <= swapIndex ==> less(a[k], a[pivotIndex])
      invariant forall k :: swapIndex < k < i ==> !less(a[k], a[pivotIndex])
      invariant multiset(a[..]) == multiset(old(a[..]))
      invariant a[..pivotIndex] == old(a[..pivotIndex]) && a[endIndex + 1..] == old(a[endIndex + 1..])
    {
      if less(a[i], a[pivotIndex]) {
        swapIndex := swapIndex + 1;
        Swap(a, swapIndex, i);
      }
    }
    Swap(a, pivotIndex, swapIndex);
  }

  lemma {:induction false} InsideBag<T>(s: seq<T>, lo: nat, hi: nat)
    requires lo <= hi <= |s|
    ensures multiset(s[lo..hi]) == multiset(s) - multiset(s[..lo]) - multiset(s[hi..])
  {
    assert s == s[..lo] + s[lo..hi] + s[hi..];
  }

  /** Two arrangements of a whole that agree outside [lo, hi) are arrangements of each other inside it. */
  lemma {:induction false} SameInside<T>(s: seq<T>, t: seq<T>, lo: nat, hi: nat)
    requires |s| == |t| && lo <= hi <= |s| && multiset(s) == multiset(t) && s[..lo] == t[..lo] && s[hi..] == t[hi..]
    ensures multiset(s[lo..hi]) == multiset(t[lo..hi])
  {
    InsideBag(s, lo, hi);
    InsideBag(t, lo, hi);
  }

  /** What holds of every element of a stretch holds after the stretch is rearranged. */
  lemma {:induction false} StillAll<T(!new)>(s: seq<T>, t: seq<T>, p: T -> bool)
    requires multiset(s) == multiset(t) && forall k :: 0 <= k < |s| ==> p(s[k])
    ensures forall k :: 0 <= k < |t| ==> p(t[k])
  {
    forall k | 0 <= k < |t| ensures p(t[k]) {
      assert t[k] in multiset(t);
      assert t[k] in multiset(s);
    }
  }

  /** `quick_sort` and `quick_sort_str` on [left, right). */
  method QuickSort<T(!new)>(a: array<T>, less: (T, T) -> bool, left: nat, right: nat)
    requires left <= right <= a.Length && TotalOrder(less)
    modifies a
    ensures Sorted(a[left..right], less)
    ensures multiset(a[..]) == multiset(old(a[..])) && multiset(a[left..right]) == multiset(old(a[left..right]))
    ensures a[..left] == old(a[..left]) && a[right..] == old(a[right..])
    decreases right - left
  {
    if right - left <= 1 {
      return;
    }
    ghost var s0 := a[..];
    var p := Pivot(a, less, left, right - 1);
    ghost var s1 := a[..];
    PivotDone(s0, s1, less, left, p, right);
    QuickSort(a, less, left, p);
    ghost var s2 := a[..];
    QuickSort(a, less, p + 1, right);
    HalvesDone(s1, s2, a[..], less, left, p, right);
    SameInside(s0, a[..], left, right);
  }

  /** Around the pivot the stretch is split, and beside it nothing changed. */
  ghost predicate Parted<T(!new)>(s: seq<T>, less: (T, T) -> bool, left: nat, p: nat, right: nat) {
    && left <= p < right <= |s|
    && (forall k :: left <= k < p ==> less(s[k], s[p]))
    && (forall k :: p < k < right ==> !less(s[k], s[p]))
  }

  lemma {:induction false} PivotDone<T(!new)>(s0: seq<T>, s1: seq<T>, less: (T, T) -> bool, left: nat, p: nat, right: nat)
    requires |s0| == |s1| && left <= p < right <= |s1|
    requires forall k :: left <= k < p ==> less(s1[k], s1[p])
    requires forall k :: p < k < right ==> !less(s1[k], s1[p])
    ensures Parted(s1, less, left, p, right)
  {
  }

  /** Both sides of the pivot sorted, one after the other. */
  lemma {:induction false} HalvesDone<T(!new)>(s1: seq<T>, s2: seq<T>, s3: seq<T>, less: (T, T) -> bool,
                                                   left: nat, p: nat, right: nat)
    requires TotalOrder(less) && Parted(s1, less, left, p, right) && |s1| == |s2| == |s3|
    requires Sorted(s2[left..p], less) && multiset(s2[left..p]) == multiset(s1[left..p])
    requires s2[..left] == s1[..left] && s2[p..] == s1[p..]
    requires Sorted(s3[p + 1..right], less) && multiset(s3[p + 1..right]) == multiset(s2[p + 1..right])
    requires s3[..p + 1] == s2[..p + 1] && s3[right..] == s2[right..]
    ensures Sorted(s3[left..right], less) && s3[..left] == s1[..left] && s3[right..] == s1[right..]
  {
    hide TotalOrder, Sorted;
    assert s3[..left] == s3[..p + 1][..left] == s2[..p + 1][..left] == s2[..left];
    assert s2[right..] == s2[p..][right - p..] == s1[p..][right - p..] == s1[right..];
    Joined(s1, s2, s3, less, left, p, right);
  }

  /** The two sorted halves and the pivot between them are sorted. */
  lemma {:induction false} Joined<T(!new)>(s1: seq<T>, s2: seq<T>, s3: seq<T>, less: (T, T) -> bool,
                                               left: nat, p: nat, right: nat)
    requires TotalOrder(less) && Parted(s1, less, left, p, right) && |s1| == |s2| == |s3|
    requires Sorted(s2[left..p], less) && multiset(s2[left..p]) == multiset(s1[left..p]) && s2[p..] == s1[p..]
    requires Sorted(s3[p + 1..right], less) && multiset(s3[p + 1..right]) == multiset(s2[p + 1..right])
    requires s3[..p + 1] == s2[..p + 1]
    ensures Sorted(s3[left..right], less)
  {
    hide TotalOrder, Sorted;
    var x := s1[p];
    assert s2[p] == s2[p..][0] == x && s3[p] == s3[..p + 1][p] == s2[p];
    assert s3[left..p] == s3[..p + 1][left..p] == s2[..p + 1][left..p] == s2[left..p];
    StillAll(s1[left..p], s3[left..p], y => less(y, x));
    assert s2[p + 1..right] == s2[p..][1..right - p];
    assert s1[p + 1..right] == s1[p..][1..right - p];
    StillAll(s1[p + 1..right], s3[p + 1..right], y => !less(y, x));
    JoinedRuns(s3[left..p], x, s3[p + 1..right], less);
    assert s3[left..right] == s3[left..p] + [x] + s3[p + 1..right];
  }

  /** Smaller elements, one, and elements that are not smaller. */
  lemma {:induction false} JoinedRuns<T(!new)>(lo: seq<T>, x: T, hi: seq<T>, less: (T, T) -> bool)
    requires TotalOrder(less) && Sorted(lo, less) && Sorted(hi, less)
    requires forall k :: 0 <= k < |lo| ==> less(lo[k], x)
    requires forall k :: 0 <= k < |hi| ==> !less(hi[k], x)
    ensures Sorted(lo + [x] + hi, less)
  {
    var r, m := lo + [x] + hi, |lo|;
    forall i, j | 0 <= i < j < |r| ensures !less(r[j], r[i]) {
      assert i < m ==> r[i] == lo[i];
      assert j < m ==> r[j] == lo[j];
      assert i > m ==> r[i] == hi[i - m - 1];
      assert j > m ==> r[j] == hi[j - m - 1];
    }
  }

  /** There is one sorted arrangement. */
  lemma {:induction false} SortedUnique<T(!new)>(s: seq<T>, t: seq<T>, less: (T, T) -> bool)
    requires TotalOrder(less) && Sorted(s, less) && Sorted(t, less) && multiset(s) == multiset(t)
    ensures s == t
    decreases |s|
  {
    hide *;
    SameLength(s, t);
    if |s| > 0 {
      SameFirst(s, t, less);
      RestSame(s, t);
      RestSorted(s, less);
      RestSorted(t, less);
      SortedUnique(s[1..], t[1..], less);
      assert s == [s[0]] + s[1..] && t == [t[0]] + t[1..];
    } else {
      assert s == t;
    }
  }

  lemma {:induction false} SameLength<T(!new)>(s: seq<T>, t: seq<T>)
    requires multiset(s) == multiset(t)
    ensures |s| == |t|
  {
    assert |s| == |multiset(s)| == |multiset(t)| == |t|;
  }

  lemma {:induction false} RestSame<T(!new)>(s: seq<T>, t: seq<T>)
    requires |s| > 0 && |t| > 0 && s[0] == t[0] && multiset(s) == multiset(t)
    ensures multiset(s[1..]) == multiset(t[1..])
  {
    assert s == [s[0]] + s[1..] && t == [t[0]] + t[1..];
    assert multiset(s[1..]) == multiset(s) - multiset{s[0]} && multiset(t[1..]) == multiset(t) - multiset{t[0]};
  }

  lemma {:induction false} RestSorted<T(!new)>(s: seq<T>, less: (T, T) -> bool)
    requires |s| > 0 && Sorted(s, less)
    ensures Sorted(s[1..], less)
  {
  }

  lemma {:induction false} SameFirst<T(!new)>(s: seq<T>, t: seq<T>, less: (T, T) -> bool)
    requires TotalOrder(less) && Sorted(s, less) && Sorted(t, less) && multiset(s) == multiset(t) && |s| > 0 && |t| > 0
    ensures s[0] == t[0]
  {
    assert s[0] in multiset(t) && t[0] in multiset(s);
    var i :| 0 <= i < |t| && t[i] == s[0];
    var j :| 0 <= j < |s| && s[j] == t[0];
  }
}
