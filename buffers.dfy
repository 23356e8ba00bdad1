/** Rows of an image stored in a flat sample buffer, and the `memcpy` that
    the image operators use to copy them. */
module Buffers {
  import opened Grid
  import opened ImageTypes

  /** Row y of the w-by-h image `p`. */
  function ImageRow(p: seq<Byte>, w: nat, h: nat, y: nat): (r: seq<Byte>)
    requires |p| == w * h && y < h
    ensures |r| == w
  {
    RowInside(w, h, y);
    p[y * w .. y * w + w]
  }

  /** Sample x of row y is sample y * w + x of the image. */
  lemma ImageRowIndex(p: seq<Byte>, w: nat, h: nat, y: nat, x: nat)
    requires |p| == w * h && y < h && x < w
    ensures y * w + x < w * h && ImageRow(p, w, h, y)[x] == p[y * w + x]
  {
    IndexBound(w, h, y, x);
  }

  /** Row k of an image stored at `offset` in `d`. */
  lemma RowInOriginal(d: seq<Byte>, offset: nat, p: seq<Byte>, w: nat, h: nat, k: nat)
    requires |p| == w * h && offset + w * h <= |d| && d[offset .. offset + w * h] == p && k < h
    ensures k * w + w <= w * h
    ensures d[offset + k * w .. offset + k * w + w] == ImageRow(p, w, h, k)
  {
    RowInside(w, h, k);
    SliceOfSlice(d, offset, offset + w * h, k * w, k * w + w);
  }

  /** Rows k and k + 1 of an image stored at `offset` in `d`, one after the
      other. */
  lemma TwoRowsInOriginal(d: seq<Byte>, offset: nat, p: seq<Byte>, w: nat, h: nat, k: nat)
    requires |p| == w * h && offset + w * h <= |d| && d[offset .. offset + w * h] == p && k + 1 < h
    ensures (k + 1) * w == k * w + w && k * w + 2 * w <= w * h
    ensures d[offset + k * w .. offset + k * w + 2 * w] == ImageRow(p, w, h, k) + ImageRow(p, w, h, k + 1)
  {
    RowInOriginal(d, offset, p, w, h, k);
    RowInOriginal(d, offset, p, w, h, k + 1);
    var lo := offset + k * w;
    assert d[lo .. lo + 2 * w] == d[lo .. lo + w] + d[lo + w .. lo + 2 * w];
  }

  /** `memcpy` of `n` samples between two distinct buffers: the run at
      `srcOffset` in `src` is written over `dst` from `dstOffset` on. */
  method Memcpy(dst: array<Byte>, dstOffset: nat, src: array<Byte>, srcOffset: nat, n: nat)
    requires dst != src
    requires dstOffset + n <= dst.Length && srcOffset + n <= src.Length
    modifies dst
    ensures dst[..] == Splice(old(dst[..]), dstOffset, old(src[..])[srcOffset .. srcOffset + n])
    ensures src[..] == old(src[..])
  {
    ghost var before := dst[..];
    forall k | 0 <= k < n {
      dst[dstOffset + k] := src[srcOffset + k];
    }
    SpliceOfPointwise(before, dst[..], dstOffset, src[..][srcOffset .. srcOffset + n]);
  }
}
