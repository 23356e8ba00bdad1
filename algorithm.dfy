/** The in-place quicksort of an array of C strings in shortlex order:
    shorter strings first, strings of one length by `strcmp`. */
module Algorithm {

  /** A character of a C string: any byte but the terminating NUL. */
  type Char = c: int | 1 <= c < 256 witness 1

  /** A NUL-terminated string, without its terminator. Swapping two entries
      of the array swaps the addresses; the strings themselves never change,
      so an entry is modelled by the string it points to. */
  type CString = seq<Char>

  /** `strcmp(a, b) < 0`: at the first position where the strings differ,
      counting the terminator, `a` has the smaller unsigned character; the
      terminator is smaller than any character. */
  predicate StrLess(a: CString, b: CString)
    decreases |a|
  {
    if |a| == 0 then |b| > 0
    else if |b| == 0 then false
    else a[0] < b[0] || (a[0] == b[0] && StrLess(a[1..], b[1..]))
  }

  /** The order the partition loop compares by. */
  predicate Less(a: CString, b: CString)
  {
    |a| < |b| || (|a| == |b| && StrLess(a, b))
  }

  predicate Sorted(s: seq<CString>)
  {
    forall i, j :: 0 <= i < j < |s| ==> !Less(s[j], s[i])
  }

  // ------------------------------------------------------- the order

  lemma {:induction false} StrLessIrreflexive(a: CString)
    ensures !StrLess(a, a)
    decreases |a|
  {
    if |a| > 0 {
      StrLessIrreflexive(a[1..]);
    }
  }

  lemma {:induction false} StrLessTransitive(a: CString, b: CString, c: CString)
    requires StrLess(a, b) && StrLess(b, c)
    ensures StrLess(a, c)
    decreases |a|
  {
    if |a| > 0 && |b| > 0 && |c| > 0 && a[0] == b[0] == c[0] {
      StrLessTransitive(a[1..], b[1..], c[1..]);
    }
  }

  /** `strcmp` orders any two different strings one way or the other. */
  lemma {:induction false} StrLessTotal(a: CString, b: CString)
    requires a != b
    ensures StrLess(a, b) || StrLess(b, a)
    decreases |a|
  {
    if |a| > 0 && |b| > 0 && a[0] == b[0] {
      assert a == [a[0]] + a[1..] && b == [b[0]] + b[1..];
      StrLessTotal(a[1..], b[1..]);
    }
  }

  /** Shortlex order is a strict total order: irreflexive, transitive, and
      any two different strings are related; so `!Less(y, x)` means that x
      comes before y or equals it. */
  lemma LessIsStrictTotalOrder(a: CString, b: CString, c: CString)
    ensures !Less(a, a)
    ensures Less(a, b) && Less(b, c) ==> Less(a, c)
    ensures a != b ==> Less(a, b) || Less(b, a)
    ensures Less(a, b) ==> !Less(b, a)
  {
    StrLessIrreflexive(a);
    if Less(a, b) && Less(b, c) && |a| == |b| == |c| {
      StrLessTransitive(a, b, c);
    }
    if a != b && |a| == |b| {
      StrLessTotal(a, b);
    }
    if Less(a, b) && Less(b, a) {
      StrLessTransitive(a, b, a);
      StrLessIrreflexive(a);
    }
  }

  // ------------------------------------------------------- the sort

  /** The array after `swap(array + i, array + j)`. */
  function Swapped(s: seq<CString>, i: nat, j: nat): (r: seq<CString>)
    requires i < |s| && j < |s|
    ensures |r| == |s| && r[i] == s[j] && r[j] == s[i]
    ensures forall k :: 0 <= k < |s| && k != i && k != j ==> r[k] == s[k]
  {
    s[i := s[j]][j := s[i]]
  }

  /** `swap(a, b)`: exchanges two entries. */
  method Swap(a: array<CString>, i: nat, j: nat)
    requires i < a.Length && j < a.Length
    modifies a
    ensures a[..] == Swapped(old(a[..]), i, j)
  {
    a[i], a[j] := a[j], a[i];
  }

  /** A swap inside [lo, hi) permutes that range and keeps the rest. */
  lemma SwapPermutes(s: seq<CString>, i: nat, j: nat, lo: nat, hi: nat)
    requires lo <= i < hi && lo <= j < hi && hi <= |s|
    ensures Swapped(s, i, j)[..lo] == s[..lo] && Swapped(s, i, j)[hi..] == s[hi..]
    ensures multiset(Swapped(s, i, j)[lo..hi]) == multiset(s[lo..hi])
  {
    var r := Swapped(s, i, j);
    assert r[lo..hi] == Swapped(s[lo..hi], i - lo, j - lo);
    assert r[..lo] == s[..lo];
    assert r[hi..] == s[hi..];
  }

  /** Every entry of `s` is less than `p`. */
  predicate AllLess(s: seq<CString>, p: CString)
  {
    forall k :: 0 <= k < |s| ==> Less(s[k], p)
  }

  /** No entry of `s` is less than `p`. */
  predicate NoneLess(s: seq<CString>, p: CString)
  {
    forall k :: 0 <= k < |s| ==> !Less(s[k], p)
  }

  /** `s` is `s0` with the range [lo, hi) permuted. */
  predicate Permuted(s: seq<CString>, s0: seq<CString>, lo: nat, hi: nat)
    requires lo <= hi <= |s0|
  {
    |s| == |s0| && s[..lo] == s0[..lo] && s[hi..] == s0[hi..] && multiset(s[lo..hi]) == multiset(s0[lo..hi])
  }

  /** The state of the partition loop once it has looked at [lo, i): the
      entries before `pivot` are less than `p`, those from `pivot` to `i`
      are not, and `p` is still the last entry of the range. */
  predicate Partitioning(s: seq<CString>, lo: nat, hi: nat, pivot: nat, i: nat, p: CString)
    requires hi <= |s|
  {
    lo <= pivot <= i <= hi && pivot < hi && s[hi - 1] == p
    && (forall k :: lo <= k < pivot ==> Less(s[k], p))
    && (forall k :: pivot <= k < i ==> !Less(s[k], p))
  }

  /** The partition loop and the final swap of `quicksort` on the range
      [lo, hi) of length at least two, pivoting on its last entry: the
      entries before the returned index are less than the pivot, the entry
      at it is the pivot and the entries after it are not less. */
  method Partition(a: array<CString>, lo: nat, hi: nat) returns (pivot: nat)
    requires lo + 1 < hi <= a.Length
    modifies a
    ensures lo <= pivot < hi
    ensures a[..lo] == old(a[..lo]) && a[hi..] == old(a[hi..])
    ensures multiset(a[lo..hi]) == multiset(old(a[lo..hi]))
    ensures a[pivot] == old(a[hi - 1])
    ensures AllLess(a[lo..pivot], a[pivot]) && NoneLess(a[pivot + 1..hi], a[pivot])
  {
    ghost var s0 := a[..];
    var p := a[hi - 1];
    pivot := lo;
    for i := lo to hi
      invariant Partitioning(a[..], lo, hi, pivot, i, p)
      invariant Permuted(a[..], s0, lo, hi)
    {
      pivot := PartitionStep(a, lo, hi, pivot, i, p, s0);
    }
    PlacePivot(a, lo, hi, pivot, p, s0);
  }

  /** One round of the partition loop: an entry less than the pivot is
      swapped to the end of the lower segment. */
  method PartitionStep(a: array<CString>, lo: nat, hi: nat, pivot: nat, i: nat, p: CString, ghost s0: seq<CString>)
      returns (next: nat)
    requires hi <= a.Length && lo <= hi <= |s0| && i < hi
    requires Partitioning(a[..], lo, hi, pivot, i, p) && Permuted(a[..], s0, lo, hi)
    modifies a
    ensures Partitioning(a[..], lo, hi, next, i + 1, p) && Permuted(a[..], s0, lo, hi)
  {
    next := pivot;
    ghost var s := a[..];
    if |a[i]| < |a[hi - 1]| || (|a[i]| == |a[hi - 1]| && StrLess(a[i], a[hi - 1])) {
      Swap(a, i, pivot);
      LessSwapped(s, lo, hi, pivot, i, p, a[..]);
      SwapPermuted(s, s0, lo, hi, i, pivot, a[..]);
      next := pivot + 1;
    } else {
      NotLessKept(s, lo, hi, pivot, i, p);
    }
  }

  /** An entry less than the pivot, swapped to the end of the lower
      segment, extends it by one. */
  lemma LessSwapped(s: seq<CString>, lo: nat, hi: nat, pivot: nat, i: nat, p: CString, r: seq<CString>)
    requires hi <= |s| && i < hi && Partitioning(s, lo, hi, pivot, i, p) && Less(s[i], p)
    requires r == Swapped(s, i, pivot)
    ensures Partitioning(r, lo, hi, pivot + 1, i + 1, p)
  {
    LessIsStrictTotalOrder(p, p, p);
    assert i != hi - 1;
    assert r[hi - 1] == p;
    assert forall k :: pivot + 1 <= k < i + 1 ==> !Less(r[k], p) by {
      forall k | pivot + 1 <= k < i + 1
        ensures !Less(r[k], p)
      {
        if k == i {
          assert r[k] == s[pivot];
        } else {
          assert r[k] == s[k];
        }
      }
    }
  }

  /** An entry not less than the pivot extends the upper segment as it is. */
  lemma NotLessKept(s: seq<CString>, lo: nat, hi: nat, pivot: nat, i: nat, p: CString)
    requires hi <= |s| && i < hi && Partitioning(s, lo, hi, pivot, i, p) && !Less(s[i], p)
    ensures Partitioning(s, lo, hi, pivot, i + 1, p)
  {
  }

  /** A swap inside [lo, hi) of a permutation of `s0` there is one too. */
  lemma SwapPermuted(s: seq<CString>, s0: seq<CString>, lo: nat, hi: nat, i: nat, j: nat, r: seq<CString>)
    requires lo <= i < hi && lo <= j < hi && hi <= |s0| && Permuted(s, s0, lo, hi)
    requires r == Swapped(s, i, j)
    ensures Permuted(r, s0, lo, hi)
  {
    SwapPermutes(s, i, j, lo, hi);
  }

  /** `swap(array + pivot, array + length - 1)`: the pivot moves between
      the two segments. */
  method PlacePivot(a: array<CString>, lo: nat, hi: nat, pivot: nat, p: CString, ghost s0: seq<CString>)
    requires hi <= a.Length && lo < hi <= |s0|
    requires Partitioning(a[..], lo, hi, pivot, hi, p) && Permuted(a[..], s0, lo, hi)
    modifies a
    ensures Permuted(a[..], s0, lo, hi) && a[pivot] == p
    ensures AllLess(a[lo..pivot], a[pivot]) && NoneLess(a[pivot + 1..hi], a[pivot])
  {
    ghost var s := a[..];
    Swap(a, pivot, hi - 1);
    SwapPermutes(s, pivot, hi - 1, lo, hi);
    assert forall k :: pivot < k < hi ==> !Less(a[k], p) by {
      forall k | pivot < k < hi
        ensures !Less(a[k], p)
      {
        if k == hi - 1 {
          assert a[k] == s[pivot];
        } else {
          assert a[k] == s[k];
        }
      }
    }
    PartitionSlices(a[..], lo, pivot, hi, p);
  }

  /** The pointwise facts of the partition, stated on its slices. */
  lemma PartitionSlices(s: seq<CString>, lo: nat, pivot: nat, hi: nat, p: CString)
    requires lo <= pivot < hi <= |s|
    requires forall k :: lo <= k < pivot ==> Less(s[k], p)
    requires forall k :: pivot < k < hi ==> !Less(s[k], p)
    ensures AllLess(s[lo..pivot], p) && NoneLess(s[pivot + 1..hi], p)
  {
    var l, r := s[lo..pivot], s[pivot + 1..hi];
    assert forall k :: 0 <= k < |l| ==> l[k] == s[lo + k];
    assert forall k :: 0 <= k < |r| ==> r[k] == s[pivot + 1 + k];
  }

  /** `quicksort(array + lo, hi - lo)`: sorts the range [lo, hi) in place
      by swaps, leaving the rest of the array alone. */
  method Quicksort(a: array<CString>, lo: nat, hi: nat)
    requires lo <= hi <= a.Length
    modifies a
    ensures a[..lo] == old(a[..lo]) && a[hi..] == old(a[hi..])
    ensures multiset(a[lo..hi]) == multiset(old(a[lo..hi]))
    ensures Sorted(a[lo..hi])
    ensures hi - lo <= 1 ==> a[..] == old(a[..])
    decreases hi - lo
  {
    if hi - lo <= 1 {
      assert a[..] == a[..lo] + a[lo..hi] + a[hi..];
      return;
    }
    ghost var s0 := a[..];
    var pivot := Partition(a, lo, hi);
    ghost var s1 := a[..];
    Quicksort(a, lo, pivot);
    ghost var s2 := a[..];
    Quicksort(a, pivot + 1, hi);
    ghost var s3 := a[..];
    SortedAfterRecursion(s0, s1, s2, s3, lo, pivot, hi);
  }

  /** Entries a permutation carries over keep a property of all entries. */
  lemma PermutationKeeps(s: seq<CString>, t: seq<CString>, p: CString)
    requires multiset(s) == multiset(t)
    ensures AllLess(s, p) ==> AllLess(t, p)
    ensures NoneLess(s, p) ==> NoneLess(t, p)
  {
    forall k | 0 <= k < |t|
      ensures t[k] in multiset(s)
    {
      assert t[k] in multiset(t);
    }
    forall k | 0 <= k < |t|
      ensures exists m :: 0 <= m < |s| && s[m] == t[k]
    {
      assert t[k] in s;
    }
  }

  /** Sorted entries less than the pivot, the pivot, and sorted entries not
      less than it make a sorted range. */
  lemma SortedJoin(l: seq<CString>, p: CString, r: seq<CString>)
    requires Sorted(l) && Sorted(r) && AllLess(l, p) && NoneLess(r, p)
    ensures Sorted(l + [p] + r)
  {
    var s := l + [p] + r;
    forall i, j | 0 <= i < j < |s|
      ensures !Less(s[j], s[i])
    {
      if j < |l| {
        assert s[i] == l[i] && s[j] == l[j];
      } else if i > |l| {
        assert s[i] == r[i - |l| - 1] && s[j] == r[j - |l| - 1];
      } else if i < |l| && j == |l| {
        LessIsStrictTotalOrder(s[i], p, p);
      } else if i < |l| {
        LessIsStrictTotalOrder(s[j], s[i], p);
        assert Less(s[i], p) && !Less(s[j], p);
      } else {
        assert s[j] == r[j - |l| - 1];
      }
    }
  }

  /** The three steps of `quicksort` on [lo, hi) add up to its contract. */
  lemma SortedAfterRecursion(s0: seq<CString>, s1: seq<CString>, s2: seq<CString>, s3: seq<CString>,
                             lo: nat, pivot: nat, hi: nat)
    requires lo <= pivot < hi <= |s0| == |s1| == |s2| == |s3|
    requires s1[..lo] == s0[..lo] && s1[hi..] == s0[hi..] && multiset(s1[lo..hi]) == multiset(s0[lo..hi])
    requires AllLess(s1[lo..pivot], s1[pivot]) && NoneLess(s1[pivot + 1..hi], s1[pivot])
    requires s2[..lo] == s1[..lo] && s2[pivot..] == s1[pivot..] && multiset(s2[lo..pivot]) == multiset(s1[lo..pivot])
    requires Sorted(s2[lo..pivot])
    requires s3[..pivot + 1] == s2[..pivot + 1] && s3[hi..] == s2[hi..]
    requires multiset(s3[pivot + 1..hi]) == multiset(s2[pivot + 1..hi]) && Sorted(s3[pivot + 1..hi])
    ensures s3[..lo] == s0[..lo] && s3[hi..] == s0[hi..]
    ensures multiset(s3[lo..hi]) == multiset(s0[lo..hi])
    ensures Sorted(s3[lo..hi])
  {
    var p := s1[pivot];
    assert s3[..lo] == s2[..pivot + 1][..lo];
    assert s2[pivot + 1..hi] == s1[pivot + 1..hi] by {
      assert s2[pivot..][1..hi - pivot] == s1[pivot..][1..hi - pivot];
    }
    assert s3[lo..pivot] == s2[lo..pivot] by {
      assert s3[..pivot + 1][lo..pivot] == s2[..pivot + 1][lo..pivot];
    }
    assert s3[pivot] == s2[pivot] == p;
    PermutationKeeps(s1[lo..pivot], s2[lo..pivot], p);
    PermutationKeeps(s1[pivot + 1..hi], s3[pivot + 1..hi], p);
    assert s3[lo..hi] == s3[lo..pivot] + [p] + s3[pivot + 1..hi];
    SortedJoin(s3[lo..pivot], p, s3[pivot + 1..hi]);
    assert s1[lo..hi] == s1[lo..pivot] + [p] + s1[pivot + 1..hi];
    assert s3[hi..] == s1[hi..] by {
      assert s2[hi..] == s1[pivot..][hi - pivot..];
    }
  }
}
