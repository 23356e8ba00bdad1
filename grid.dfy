/** Arithmetic facts about row-major layouts: a pixel (y, x) of a w-wide grid
    lives at flat index y * w + x. Dafny's solver does not reason about
    products of variables on its own, so these small lemmas are spelled out.
    `Splice` and its lemmas describe a buffer after a run of it has been
    overwritten, as `memcpy` and the row loops of the image operators do. */
module Grid {

  lemma {:induction false} MulMonotone(a: nat, b: nat, c: nat)
    requires a <= b
    ensures a * c <= b * c
  {
    if c > 0 {
      MulMonotone(a, b, c - 1);
      assert a * c == a * (c - 1) + a;
      assert b * c == b * (c - 1) + b;
    }
  }

  /** Where row y of a w-wide image stored at `offset` starts. */
  function RowStart(offset: nat, y: nat, w: nat): nat
  {
    offset + y * w
  }

  /** A cell of a w-by-h grid has a flat index inside the grid. */
  lemma IndexBound(w: nat, h: nat, y: nat, x: nat)
    requires y < h && x < w
    ensures y * w + x < w * h
    ensures (y + 1) * w == y * w + w
  {
    MulMonotone(y + 1, h, w);
    assert (y + 1) * w == y * w + w;
    assert h * w == w * h;
  }

  /** Rows before row y occupy exactly the flat indices below y * w. */
  lemma RowsBefore(w: nat, h: nat, y: nat)
    requires y <= h
    ensures y * w <= w * h
  {
    MulMonotone(y, h, w);
    assert h * w == w * h;
  }

  /** Row y of a grid with at least y + 1 rows ends inside the grid. */
  lemma RowInside(w: nat, h: nat, y: nat)
    requires y < h
    ensures (y + 1) * w == y * w + w && y * w + w <= w * h
  {
    RowsBefore(w, h, y + 1);
    assert (y + 1) * w == y * w + w;
  }

  /** Rows y - 1, y and y + 1 of an interior row y start one row apart and
      end inside the grid. */
  lemma RowNeighbours(w: nat, h: nat, y: nat)
    requires 0 < y < h - 1
    ensures w <= y * w && y * w + 2 * w <= w * h
    ensures (y + 1) * w == y * w + w && (y - 1) * w == y * w - w
  {
    MulMonotone(1, y, w);
    RowsBefore(w, h, y + 2);
    assert (y + 2) * w == y * w + 2 * w;
    assert (y - 1) * w + w == y * w;
  }

  /** Two sequences that agree everywhere outside a window agree on any
      range that avoids the window. */
  lemma SliceOutsideWindow<T>(a: seq<T>, b: seq<T>, lo: nat, hi: nat, wlo: nat, whi: nat)
    requires |a| == |b| && lo <= hi <= |a|
    requires forall k :: 0 <= k < |a| && !(wlo <= k < whi) ==> a[k] == b[k]
    requires hi <= wlo || whi <= lo
    ensures a[lo..hi] == b[lo..hi]
  {
    assert forall k :: 0 <= k < hi - lo ==> a[lo..hi][k] == a[lo + k] && b[lo..hi][k] == b[lo + k];
  }

  /** A run of `n` elements of `a` that starts `off` places later than the
      same run of `b`, element by element, is a slice of `b`. */
  lemma SliceOfShifted<T>(a: seq<T>, b: seq<T>, off: nat, lo: nat, n: nat)
    requires lo + n <= |b| && off + lo + n <= |a|
    requires forall k :: lo <= k < lo + n ==> a[off + k] == b[k]
    ensures a[off + lo .. off + lo + n] == b[lo .. lo + n]
  {
    var s, t := a[off + lo .. off + lo + n], b[lo .. lo + n];
    forall j | 0 <= j < n
      ensures s[j] == t[j]
    {
      assert b[lo + j] == t[j];
    }
  }

  /** A slice of a slice is a slice of the original. */
  lemma SliceOfSlice<T>(s: seq<T>, lo: nat, hi: nat, i: nat, j: nat)
    requires lo <= hi <= |s| && i <= j <= hi - lo
    ensures s[lo .. hi][i .. j] == s[lo + i .. lo + j]
  {
    var a, b := s[lo .. hi][i .. j], s[lo + i .. lo + j];
    forall k | 0 <= k < j - i
      ensures a[k] == b[k]
    {
      assert s[lo .. hi][i + k] == s[lo + i + k];
    }
  }

  /** `a` with the run `b` written over it from index `i` on. */
  function Splice<T>(a: seq<T>, i: nat, b: seq<T>): (r: seq<T>)
    requires i + |b| <= |a|
    ensures |r| == |a|
  {
    a[..i] + b + a[i + |b| ..]
  }

  /** Inside its window a splice holds `b`, everywhere else it holds `a`. */
  lemma SpliceIndex<T>(a: seq<T>, i: nat, b: seq<T>, k: nat)
    requires i + |b| <= |a| && k < |a|
    ensures Splice(a, i, b)[k] == if i <= k < i + |b| then b[k - i] else a[k]
  {
    var r := Splice(a, i, b);
    if k < i {
      assert r[k] == a[..i][k];
    } else if k < i + |b| {
      assert r[k] == (a[..i] + b)[k];
    } else {
      assert r[k] == a[i + |b| ..][k - i - |b|];
    }
  }

  /** A sequence that agrees with `a` outside the window and with `c`
      inside it is the splice of `c` into `a`. */
  lemma SpliceOfPointwise<T>(a: seq<T>, b: seq<T>, i: nat, c: seq<T>)
    requires |b| == |a| && i + |c| <= |a|
    requires forall k :: 0 <= k < |a| && !(i <= k < i + |c|) ==> b[k] == a[k]
    requires forall k :: 0 <= k < |c| ==> b[i + k] == c[k]
    ensures b == Splice(a, i, c)
  {
    forall k | 0 <= k < |a|
      ensures b[k] == Splice(a, i, c)[k]
    {
      SpliceIndex(a, i, c, k);
      if i <= k < i + |c| {
        assert b[i + (k - i)] == c[k - i];
      }
    }
  }

  /** Writing back what is already there changes nothing. */
  lemma SpliceSame<T>(a: seq<T>, i: nat, b: seq<T>)
    requires i + |b| <= |a| && a[i .. i + |b|] == b
    ensures Splice(a, i, b) == a
  {
    assert a == a[..i] + a[i .. i + |b|] + a[i + |b| ..];
  }

  /** Updating one element of a splice inside its window updates the run. */
  lemma SpliceUpdate<T>(a: seq<T>, i: nat, b: seq<T>, k: nat, v: T)
    requires i + |b| <= |a| && k < |b|
    ensures Splice(a, i, b)[i + k := v] == Splice(a, i, b[k := v])
  {
    var l, r := Splice(a, i, b)[i + k := v], Splice(a, i, b[k := v]);
    forall j | 0 <= j < |a|
      ensures l[j] == r[j]
    {
      SpliceIndex(a, i, b, j);
      SpliceIndex(a, i, b[k := v], j);
    }
  }

  /** A splice into a splice, inside the first window, is one splice. */
  lemma SpliceTwice<T>(a: seq<T>, i: nat, b: seq<T>, j: nat, c: seq<T>)
    requires i + |b| <= |a| && i <= j && j + |c| <= i + |b|
    ensures Splice(Splice(a, i, b), j, c) == Splice(a, i, Splice(b, j - i, c))
  {
    var l, r := Splice(Splice(a, i, b), j, c), Splice(a, i, Splice(b, j - i, c));
    forall k | 0 <= k < |a|
      ensures l[k] == r[k]
    {
      SpliceIndex(Splice(a, i, b), j, c, k);
      SpliceIndex(a, i, b, k);
      SpliceIndex(a, i, Splice(b, j - i, c), k);
      if i <= k < i + |b| {
        SpliceIndex(b, j - i, c, k - i);
      }
    }
  }

  /** A range inside the window of a splice is a range of the run. */
  lemma SpliceInside<T>(a: seq<T>, i: nat, b: seq<T>, lo: nat, hi: nat)
    requires i + |b| <= |a| && i <= lo <= hi <= i + |b|
    ensures Splice(a, i, b)[lo .. hi] == b[lo - i .. hi - i]
  {
    var l, r := Splice(a, i, b)[lo .. hi], b[lo - i .. hi - i];
    forall k | 0 <= k < hi - lo
      ensures l[k] == r[k]
    {
      SpliceIndex(a, i, b, lo + k);
    }
  }

  /** A range outside the window of a splice is a range of the original. */
  lemma SpliceOutside<T>(a: seq<T>, i: nat, b: seq<T>, lo: nat, hi: nat)
    requires i + |b| <= |a| && lo <= hi <= |a| && (hi <= i || i + |b| <= lo)
    ensures Splice(a, i, b)[lo .. hi] == a[lo .. hi]
  {
    var l, r := Splice(a, i, b)[lo .. hi], a[lo .. hi];
    forall k | 0 <= k < hi - lo
      ensures l[k] == r[k]
    {
      SpliceIndex(a, i, b, lo + k);
    }
  }

  /** Writing nothing changes nothing. */
  lemma SpliceEmpty<T>(a: seq<T>, i: nat)
    requires i <= |a|
    ensures Splice(a, i, []) == a
  {
    SpliceSame(a, i, []);
  }

  /** Writing element k of `line` after its first k elements extends the
      written prefix by one. */
  lemma SpliceExtend<T>(a: seq<T>, i: nat, line: seq<T>, k: nat)
    requires i + |line| <= |a| && k < |line|
    ensures Splice(a, i, line[..k])[i + k := line[k]] == Splice(a, i, line[..k + 1])
  {
    var l, r := Splice(a, i, line[..k])[i + k := line[k]], Splice(a, i, line[..k + 1]);
    forall j | 0 <= j < |a|
      ensures l[j] == r[j]
    {
      SpliceIndex(a, i, line[..k], j);
      SpliceIndex(a, i, line[..k + 1], j);
    }
  }

  /** A splice shows the spliced-in run at its place. */
  lemma SplicedRun<T>(a: seq<T>, i: nat, b: seq<T>, r: seq<T>)
    requires i + |b| <= |a| && r == Splice(a, i, b)
    ensures r[i .. i + |b|] == b
  {
    SpliceInside(a, i, b, i, i + |b|);
    assert b[0 .. |b|] == b;
  }

  /** A run apart from the spliced-in one is as before. */
  lemma RunKept<T>(a: seq<T>, i: nat, b: seq<T>, lo: nat, hi: nat, v: seq<T>, r: seq<T>)
    requires i + |b| <= |a| && lo <= hi <= |a| && (hi <= i || i + |b| <= lo)
    requires a[lo .. hi] == v && r == Splice(a, i, b)
    ensures r[lo .. hi] == v
  {
    SpliceOutside(a, i, b, lo, hi);
  }

  /** Sequences of one length that agree from `n` to the end have equal
      suffixes. */
  lemma SuffixesEqual<T>(a: seq<T>, b: seq<T>, n: nat)
    requires |a| == |b| && n <= |a| && a[n .. |a|] == b[n .. |b|]
    ensures a[n ..] == b[n ..]
  {
    assert a[n ..] == a[n .. |a|];
    assert b[n ..] == b[n .. |b|];
  }

  /** Splicing `line` in right after `done` overwrites the start of `rest`. */
  lemma SpliceAtEnd<T>(done: seq<T>, rest: seq<T>, line: seq<T>)
    requires |line| <= |rest|
    ensures Splice(done + rest, |done|, line) == done + line + rest[|line| ..]
  {
    assert (done + rest)[..|done|] == done;
    assert (done + rest)[|done| + |line| ..] == rest[|line| ..];
  }

  /** Splicing `line` into a spliced `done + rest` right after `done`. */
  lemma SpliceAfterDone<T>(a: seq<T>, i: nat, done: seq<T>, rest: seq<T>, j: nat, line: seq<T>)
    requires i + |done| + |rest| <= |a| && j == i + |done| && |line| <= |rest|
    ensures Splice(Splice(a, i, done + rest), j, line) == Splice(a, i, done + line + rest[|line| ..])
  {
    SpliceTwice(a, i, done + rest, j, line);
    SpliceAtEnd(done, rest, line);
  }

  lemma SpliceAppend<T>(a: seq<T>, i: nat, b: seq<T>, c: seq<T>)
    requires i + |b| + |c| <= |a|
    ensures Splice(Splice(a, i, b), i + |b|, c) == Splice(a, i, b + c)
  {
    var l, r := Splice(Splice(a, i, b), i + |b|, c), Splice(a, i, b + c);
    forall j | 0 <= j < |a|
      ensures l[j] == r[j]
    {
      SpliceIndex(Splice(a, i, b), i + |b|, c, j);
      SpliceIndex(a, i, b, j);
      SpliceIndex(a, i, b + c, j);
    }
  }
}
