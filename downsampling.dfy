/** The 2x2 box downsampling of an 8-bit image, into another view and in
    place. Both halve the width and the height, rounding down, and give each
    new pixel the floor of the mean of its 2x2 block. */
module Downsampling {
  import opened Grid
  import opened Buffers
  import opened ImageTypes

  /** `sum / 4` of the four samples of a block, as `int_fast32_t` division of
      a non-negative sum. */
  function BlockMean(a: Byte, b: Byte, c: Byte, d: Byte): (r: Byte)
    ensures 4 * r <= a + b + c + d < 4 * r + 4
  {
    (a + b + c + d) / 4
  }

  /** A row of the downsampled image from the two source rows `top` and
      `bottom` of its blocks; an odd last column is dropped. */
  function DownLine(top: seq<Byte>, bottom: seq<Byte>): (r: seq<Byte>)
    requires |top| == |bottom|
    ensures |r| == |top| / 2
  {
    seq(|top| / 2, i requires 0 <= i < |top| / 2 =>
      BlockMean(top[2 * i], top[2 * i + 1], bottom[2 * i], bottom[2 * i + 1]))
  }

  /** Pixel (j, i) of the downsampled w-by-h image `p`: the mean of the
      block whose top-left sample is (2j, 2i), read at the flat indices the
      source computes. */
  function DownAt(p: seq<Byte>, w: nat, h: nat, j: nat, i: nat): Byte
    requires |p| == w * h && j < h / 2 && i < w / 2
  {
    IndexBound(w, h, 2 * j + 1, 2 * i + 1);
    RowInside(w, h, 2 * j);
    var top, bottom := (2 * j) * w, (2 * j + 1) * w;
    BlockMean(p[top + 2 * i], p[top + 2 * i + 1], p[bottom + 2 * i], p[bottom + 2 * i + 1])
  }

  /** Row j of the downsampled image. */
  function DownRowOf(p: seq<Byte>, w: nat, h: nat, j: nat): (r: seq<Byte>)
    requires |p| == w * h && j < h / 2
    ensures |r| == w / 2
  {
    seq(w / 2, i requires 0 <= i < w / 2 => DownAt(p, w, h, j, i))
  }

  /** The first `rows` rows of the downsampled image, one after the other. */
  function DownRows(p: seq<Byte>, w: nat, h: nat, rows: nat): (r: seq<Byte>)
    requires |p| == w * h && rows <= h / 2
    ensures |r| == rows * (w / 2) && |r| <= (w / 2) * (h / 2)
    decreases rows
  {
    MulMonotone(rows, h / 2, w / 2);
    if rows == 0 then []
    else
      assert (rows - 1) * (w / 2) + w / 2 == rows * (w / 2);
      DownRows(p, w, h, rows - 1) + DownRowOf(p, w, h, rows - 1)
  }

  /** The downsampled image, `(w / 2)` by `(h / 2)`; an odd last row or
      column of the source is dropped. */
  function Down(p: seq<Byte>, w: nat, h: nat): (r: seq<Byte>)
    requires |p| == w * h
    ensures |r| == (w / 2) * (h / 2) && |r| <= |p|
  {
    HalfFits(w, h);
    DownRows(p, w, h, h / 2)
  }

  /** Row j of the downsampled image is the line computed from rows 2j and
      2j + 1 of the source, as the row loops compute it. */
  lemma DownRowFromRows(p: seq<Byte>, w: nat, h: nat, j: nat)
    requires |p| == w * h && j < h / 2
    ensures DownRowOf(p, w, h, j) == DownLine(ImageRow(p, w, h, 2 * j), ImageRow(p, w, h, 2 * j + 1))
  {
    var top, bottom := ImageRow(p, w, h, 2 * j), ImageRow(p, w, h, 2 * j + 1);
    forall i | 0 <= i < w / 2
      ensures DownRowOf(p, w, h, j)[i] == DownLine(top, bottom)[i]
    {
      ImageRowIndex(p, w, h, 2 * j, 2 * i);
      ImageRowIndex(p, w, h, 2 * j, 2 * i + 1);
      ImageRowIndex(p, w, h, 2 * j + 1, 2 * i);
      ImageRowIndex(p, w, h, 2 * j + 1, 2 * i + 1);
    }
  }

  lemma {:induction false} DownRowsIndex(p: seq<Byte>, w: nat, h: nat, rows: nat, j: nat, i: nat)
    requires |p| == w * h && j < rows <= h / 2 && i < w / 2
    ensures j * (w / 2) + i < rows * (w / 2) && DownRows(p, w, h, rows)[j * (w / 2) + i] == DownAt(p, w, h, j, i)
  {
    IndexBound(w / 2, rows, j, i);
    assert (rows - 1) * (w / 2) + w / 2 == rows * (w / 2);
    if j == rows - 1 {
      assert DownRowOf(p, w, h, j)[i] == DownAt(p, w, h, j, i);
    } else {
      DownRowsIndex(p, w, h, rows - 1, j, i);
    }
  }

  /** Each output pixel is the floor of the sum of its 2x2 block divided by
      four. */
  lemma DownIndex(p: seq<Byte>, w: nat, h: nat, j: nat, i: nat)
    requires |p| == w * h && j < h / 2 && i < w / 2
    ensures j * (w / 2) + i < (w / 2) * (h / 2)
    ensures (2 * j + 1) * w + 2 * i + 1 < w * h && (2 * j + 1) * w == (2 * j) * w + w
    ensures var top, bottom := (2 * j) * w, (2 * j + 1) * w;
      var sum := p[top + 2 * i] as int + p[top + 2 * i + 1] as int + p[bottom + 2 * i] as int + p[bottom + 2 * i + 1] as int;
      Down(p, w, h)[j * (w / 2) + i] == sum / 4
  {
    DownRowsIndex(p, w, h, h / 2, j, i);
    IndexBound(w, h, 2 * j + 1, 2 * i + 1);
    RowInside(w, h, 2 * j);
  }

  /** A block of four equal samples c gives c. */
  lemma DownOfConstantBlock(p: seq<Byte>, w: nat, h: nat, j: nat, i: nat, c: Byte)
    requires |p| == w * h && j < h / 2 && i < w / 2
    requires (2 * j + 1) * w + 2 * i + 1 < w * h
    requires p[(2 * j) * w + 2 * i] == c && p[(2 * j) * w + 2 * i + 1] == c
    requires p[(2 * j + 1) * w + 2 * i] == c && p[(2 * j + 1) * w + 2 * i + 1] == c
    ensures j * (w / 2) + i < (w / 2) * (h / 2) && Down(p, w, h)[j * (w / 2) + i] == c
  {
    DownIndex(p, w, h, j, i);
  }

  /** The output pixel lies between the darkest and the brightest sample of
      its block; so an image whose samples all lie in [lo, hi] downsamples to
      one whose samples do too. */
  lemma DownWithinRange(p: seq<Byte>, w: nat, h: nat, lo: Byte, hi: Byte)
    requires |p| == w * h
    requires forall k :: 0 <= k < |p| ==> lo <= p[k] <= hi
    ensures forall k :: 0 <= k < |Down(p, w, h)| ==> lo <= Down(p, w, h)[k] <= hi
  {
    var d := Down(p, w, h);
    forall k | 0 <= k < |d|
      ensures lo <= d[k] <= hi
    {
      var j, i := FlatToCell(w / 2, h / 2, k);
      DownRowsIndex(p, w, h, h / 2, j, i);
      DownAtWithin(p, w, h, j, i, lo, hi);
    }
  }

  /** One output pixel of an image whose samples lie in [lo, hi] does too. */
  lemma DownAtWithin(p: seq<Byte>, w: nat, h: nat, j: nat, i: nat, lo: Byte, hi: Byte)
    requires |p| == w * h && j < h / 2 && i < w / 2
    requires forall k :: 0 <= k < |p| ==> lo <= p[k] <= hi
    ensures lo <= DownAt(p, w, h, j, i) <= hi
  {
    IndexBound(w, h, 2 * j + 1, 2 * i + 1);
    RowInside(w, h, 2 * j);
    var top, bottom := (2 * j) * w, (2 * j + 1) * w;
    BlockMeanWithin(p[top + 2 * i], p[top + 2 * i + 1], p[bottom + 2 * i], p[bottom + 2 * i + 1], lo, hi);
  }

  /** The mean of four samples in [lo, hi] lies in [lo, hi]. */
  lemma BlockMeanWithin(a: Byte, b: Byte, c: Byte, d: Byte, lo: Byte, hi: Byte)
    requires lo <= a <= hi && lo <= b <= hi && lo <= c <= hi && lo <= d <= hi
    ensures lo <= BlockMean(a, b, c, d) <= hi
  {
  }

  /** The row and column of flat index k of a w-by-h grid. */
  lemma FlatToCell(w: nat, h: nat, k: nat) returns (j: nat, i: nat)
    requires k < w * h
    ensures j < h && i < w && k == j * w + i
  {
    j, i := k / w, k % w;
    if j >= h {
      MulMonotone(h, j, w);
    }
  }

  /** The writes of one output row: `line` is written from `start` on in
      `dst`, reading the two source rows `top` and `bottom` stored one after
      the other at `above` in `rows`. When `rows` and `dst` are the same
      buffer, the written run lies outside the rows it reads. */
  method DownRow(rows: array<Byte>, above: nat, width: nat, dst: array<Byte>, start: nat,
                 ghost top: seq<Byte>, ghost bottom: seq<Byte>)
    requires above + 2 * width <= rows.Length && start + width / 2 <= dst.Length
    requires |top| == width && |bottom| == width && rows[above .. above + 2 * width] == top + bottom
    requires rows != dst || start + width / 2 <= above || above + 2 * width <= start
    modifies dst
    ensures dst[..] == Splice(old(dst[..]), start, DownLine(top, bottom))
  {
    ghost var d0 := dst[..];
    ghost var line := DownLine(top, bottom);
    SpliceEmpty(d0, start);
    assert line[..0] == [];
    var half := width / 2;
    var i := 0;
    while i < half
      invariant i <= half
      invariant dst[..] == Splice(d0, start, line[..i])
      invariant rows == dst ==> d0[above .. above + 2 * width] == top + bottom
      invariant rows != dst ==> rows[above .. above + 2 * width] == top + bottom
    {
      if rows == dst {
        SpliceOutside(d0, start, line[..i], above, above + 2 * width);
      }
      var v := BlockAt(rows, above, width, i, top, bottom);
      SpliceExtend(d0, start, line, i);
      dst[start + i] := v;
      i := i + 1;
    }
    assert line[..i] == line;
  }

  /** The mean of block i of the two rows stored at `above` in `rows`. */
  method BlockAt(rows: array<Byte>, above: nat, width: nat, i: nat, ghost top: seq<Byte>, ghost bottom: seq<Byte>)
    returns (v: Byte)
    requires above + 2 * width <= rows.Length && i < width / 2
    requires |top| == width && |bottom| == width && rows[above .. above + 2 * width] == top + bottom
    ensures v == DownLine(top, bottom)[i]
  {
    ghost var both := rows[above .. above + 2 * width];
    assert top[2 * i] == both[2 * i] == rows[above + 2 * i];
    assert top[2 * i + 1] == both[2 * i + 1] == rows[above + 2 * i + 1];
    assert bottom[2 * i] == both[width + 2 * i] == rows[above + width + 2 * i];
    assert bottom[2 * i + 1] == both[width + 2 * i + 1] == rows[above + width + 2 * i + 1];
    v := BlockMean(rows[above + 2 * i], rows[above + 2 * i + 1],
                   rows[above + width + 2 * i], rows[above + width + 2 * i + 1]);
  }

  /** The view of `source` and `destination` do not share samples. */
  predicate Apart(source: Image, destination: Image)
  {
    source.data != destination.data
    || destination.offset + (source.width / 2) * (source.height / 2) <= source.offset
    || source.offset + source.width * source.height <= destination.offset
  }

  /** `downsample(source, destination)`: the destination view gets the halved
      dimensions and its samples are the downsampled source; nothing else of
      its buffer is written and the source samples are not changed. The two
      views may live in one buffer, as the pyramid levels do, as long as they
      do not overlap. */
  method Downsample(source: Image, destination: Image) returns (result: Image)
    requires source.data != null && destination.data != null && ValidImage(source)
    requires destination.offset + (source.width / 2) * (source.height / 2) <= destination.data.Length
    requires Apart(source, destination)
    modifies destination.data
    ensures result == destination.(width := (source.width / 2), height := (source.height / 2))
    ensures destination.data[..]
         == Splice(old(destination.data[..]), destination.offset, Down(old(Pixels(source)), source.width, source.height))
    ensures Pixels(source) == old(Pixels(source))
  {
    var w, h := source.width, source.height;
    ghost var p, d0 := Pixels(source), destination.data[..];
    if source.data == destination.data {
      DownShared(source.data, source.offset, w, h, destination.offset, p, d0);
    } else {
      DownApart(source.data, source.offset, w, h, destination.data, destination.offset, p, d0);
    }
    result := destination.(width := w / 2, height := h / 2);
  }

  /** The row loop of `downsample` into another buffer. */
  method DownApart(src: array<Byte>, srcOffset: nat, w: nat, h: nat, dst: array<Byte>, dstOffset: nat,
                   ghost p: seq<Byte>, ghost d0: seq<Byte>)
    requires src != dst && srcOffset + w * h <= src.Length && dstOffset + (w / 2) * (h / 2) <= dst.Length
    requires p == src[srcOffset .. srcOffset + w * h] && d0 == dst[..] && |p| == w * h && |d0| == dst.Length
    modifies dst
    ensures dst[..] == Splice(d0, dstOffset, Down(p, w, h))
  {
    SpliceEmpty(d0, dstOffset);
    for j := 0 to h / 2
      invariant dst[..] == Splice(d0, dstOffset, DownRows(p, w, h, j))
    {
      DownStep(src, srcOffset, w, h, dst, dstOffset, j, p, d0);
    }
    AllRows(d0, dstOffset, p, w, h, h / 2, dst[..]);
  }

  /** The row loop of `downsample` when both views lie in one buffer. */
  method DownShared(data: array<Byte>, srcOffset: nat, w: nat, h: nat, dstOffset: nat,
                    ghost p: seq<Byte>, ghost d0: seq<Byte>)
    requires srcOffset + w * h <= data.Length && dstOffset + (w / 2) * (h / 2) <= data.Length
    requires dstOffset + (w / 2) * (h / 2) <= srcOffset || srcOffset + w * h <= dstOffset
    requires d0 == data[..] && p == d0[srcOffset .. srcOffset + w * h] && |p| == w * h && |d0| == data.Length
    modifies data
    ensures data[..] == Splice(d0, dstOffset, Down(p, w, h))
    ensures data[srcOffset .. srcOffset + w * h] == p
  {
    SpliceEmpty(d0, dstOffset);
    for j := 0 to h / 2
      invariant data[..] == Splice(d0, dstOffset, DownRows(p, w, h, j))
    {
      DownSharedStep(data, srcOffset, w, h, dstOffset, j, p, d0);
    }
    AllRows(d0, dstOffset, p, w, h, h / 2, data[..]);
    SourceKept(d0, srcOffset, p, w, h, dstOffset, data[..]);
  }

  /** Writing the downsampled image into a view apart from the source leaves
      the source samples alone. */
  lemma SourceKept(d0: seq<Byte>, srcOffset: nat, p: seq<Byte>, w: nat, h: nat, dstOffset: nat, s: seq<Byte>)
    requires |p| == w * h && srcOffset + w * h <= |d0| && dstOffset + (w / 2) * (h / 2) <= |d0|
    requires dstOffset + (w / 2) * (h / 2) <= srcOffset || srcOffset + w * h <= dstOffset
    requires d0[srcOffset .. srcOffset + w * h] == p && s == Splice(d0, dstOffset, Down(p, w, h))
    ensures s[srcOffset .. srcOffset + w * h] == p
  {
    var image := Down(p, w, h);
    assert |image| == (w / 2) * (h / 2);
    SpliceOutside(d0, dstOffset, image, srcOffset, srcOffset + w * h);
  }

  /** Row j of `downsample` into another buffer, read from rows 2j and
      2j + 1 of the source. */
  method DownStep(src: array<Byte>, srcOffset: nat, w: nat, h: nat, dst: array<Byte>, dstOffset: nat,
                  j: nat, ghost p: seq<Byte>, ghost d0: seq<Byte>)
    requires src != dst && j < h / 2 && |p| == w * h && |d0| == dst.Length
    requires srcOffset + w * h <= src.Length && dstOffset + (w / 2) * (h / 2) <= dst.Length
    requires dst[..] == Splice(d0, dstOffset, DownRows(p, w, h, j))
    requires src[srcOffset .. srcOffset + w * h] == p
    modifies dst
    ensures dst[..] == Splice(d0, dstOffset, DownRows(p, w, h, j + 1))
  {
    ghost var before := dst[..];
    TwoRowsInOriginal(src[..], srcOffset, p, w, h, 2 * j);
    StepLayout(srcOffset, w, h, dstOffset, j, false);
    var above := RowStart(srcOffset, 2 * j, w);
    var start := RowStart(dstOffset, j, w / 2);
    DownRow(src, above, w, dst, start, ImageRow(p, w, h, 2 * j), ImageRow(p, w, h, 2 * j + 1));
    RowWritten(d0, dstOffset, p, w, h, j, before, start);
  }

  /** Row j of `downsample` when source and destination share a buffer: the
      rows written so far lie outside the source view, so rows 2j and 2j + 1
      are still the original ones. */
  method DownSharedStep(data: array<Byte>, srcOffset: nat, w: nat, h: nat, dstOffset: nat,
                        j: nat, ghost p: seq<Byte>, ghost d0: seq<Byte>)
    requires j < h / 2 && |p| == w * h && |d0| == data.Length
    requires srcOffset + w * h <= |d0| && dstOffset + (w / 2) * (h / 2) <= |d0|
    requires dstOffset + (w / 2) * (h / 2) <= srcOffset || srcOffset + w * h <= dstOffset
    requires d0[srcOffset .. srcOffset + w * h] == p
    requires data[..] == Splice(d0, dstOffset, DownRows(p, w, h, j))
    modifies data
    ensures data[..] == Splice(d0, dstOffset, DownRows(p, w, h, j + 1))
  {
    ghost var before := data[..];
    var above := RowStart(srcOffset, 2 * j, w);
    var start := RowStart(dstOffset, j, w / 2);
    SharedRowsOriginal(d0, srcOffset, p, w, h, dstOffset, j, DownRows(p, w, h, j), above, before);
    StepLayout(srcOffset, w, h, dstOffset, j, true);
    DownRow(data, above, w, data, start, ImageRow(p, w, h, 2 * j), ImageRow(p, w, h, 2 * j + 1));
    RowWritten(d0, dstOffset, p, w, h, j, before, start);
  }

  /** Rows 2j and 2j + 1 of a source view are untouched by the rows of a
      destination view apart from it. */
  lemma SharedRowsOriginal(d0: seq<Byte>, srcOffset: nat, p: seq<Byte>, w: nat, h: nat, dstOffset: nat, j: nat,
                            done: seq<Byte>, lo: nat, s: seq<Byte>)
    requires j < h / 2 && |p| == w * h
    requires srcOffset + w * h <= |d0| && dstOffset + (w / 2) * (h / 2) <= |d0|
    requires dstOffset + (w / 2) * (h / 2) <= srcOffset || srcOffset + w * h <= dstOffset
    requires d0[srcOffset .. srcOffset + w * h] == p && |done| <= (w / 2) * (h / 2)
    requires lo == srcOffset + (2 * j) * w && s == Splice(d0, dstOffset, done)
    ensures lo + 2 * w <= |s|
    ensures s[lo .. lo + 2 * w] == ImageRow(p, w, h, 2 * j) + ImageRow(p, w, h, 2 * j + 1)
  {
    assert 2 * j + 1 < h;
    TwoRowsInOriginal(d0, srcOffset, p, w, h, 2 * j);
    if dstOffset + (w / 2) * (h / 2) <= srcOffset {
      assert dstOffset + |done| <= lo;
    } else {
      assert lo + 2 * w <= dstOffset;
    }
    SpliceOutside(d0, dstOffset, done, lo, lo + 2 * w);
  }

  /** Where row j of `downsample` reads and writes: rows 2j and 2j + 1 of the
      source and row j of the destination lie inside their views, so they are
      apart whenever the views are. */
  lemma StepLayout(srcOffset: nat, w: nat, h: nat, dstOffset: nat, j: nat, shared: bool)
    requires j < h / 2
    requires !shared || dstOffset + (w / 2) * (h / 2) <= srcOffset || srcOffset + w * h <= dstOffset
    ensures 0 <= (2 * j) * w && 0 <= j * (w / 2)
    ensures (2 * j) * w + 2 * w <= w * h && j * (w / 2) + w / 2 <= (w / 2) * (h / 2)
    ensures !shared || dstOffset + j * (w / 2) + w / 2 <= srcOffset + (2 * j) * w
                    || srcOffset + (2 * j) * w + 2 * w <= dstOffset + j * (w / 2)
  {
    RowInside(w, h, 2 * j + 1);
    RowInside(w / 2, h / 2, j);
  }

  /** Writing row j of the downsampled image after rows 0 .. j - 1 gives
      rows 0 .. j. */
  lemma RowWritten(d0: seq<Byte>, offset: nat, p: seq<Byte>, w: nat, h: nat, j: nat, before: seq<Byte>, start: nat)
    requires |p| == w * h && j < h / 2 && offset + (w / 2) * (h / 2) <= |d0|
    requires before == Splice(d0, offset, DownRows(p, w, h, j)) && start == offset + j * (w / 2)
    ensures start + w / 2 <= |before|
    ensures Splice(before, start, DownLine(ImageRow(p, w, h, 2 * j), ImageRow(p, w, h, 2 * j + 1)))
         == Splice(d0, offset, DownRows(p, w, h, j + 1))
  {
    RowInside(w / 2, h / 2, j);
    SpliceAppend(d0, offset, DownRows(p, w, h, j), DownRowOf(p, w, h, j));
    DownRowFromRows(p, w, h, j);
  }

  /** `downsample_inplace(source)`: the view keeps its buffer and offset and
      gets the halved dimensions; its first `(w / 2) * (h / 2)` samples are
      what `downsample` would have written from the original samples, and
      the rest of the buffer is unchanged. */
  method DownsampleInPlace(source: Image) returns (result: Image)
    requires source.data != null && ValidImage(source)
    modifies source.data
    ensures result == source.(width := (source.width / 2), height := (source.height / 2))
    ensures source.data[..]
         == Splice(old(source.data[..]), source.offset, Down(old(Pixels(source)), source.width, source.height))
  {
    var rowBuffer := new Byte[source.width * 2];
    DownInPlaceRows(source.data, source.offset, source.width, source.height, rowBuffer,
                    source.data[source.offset .. source.offset + source.width * source.height], source.data[..]);
    result := source.(width := source.width / 2, height := source.height / 2);
  }

  /** The row loop of `downsample_inplace`, over the row buffer. */
  method DownInPlaceRows(data: array<Byte>, offset: nat, w: nat, h: nat, rowBuffer: array<Byte>,
                         ghost p: seq<Byte>, ghost d0: seq<Byte>)
    requires data != rowBuffer && rowBuffer.Length == 2 * w && offset + w * h <= data.Length
    requires d0 == data[..] && p == d0[offset .. offset + w * h]
    modifies data, rowBuffer
    ensures data[..] == Splice(d0, offset, Down(p, w, h))
  {
    NoRows(d0, offset, p, w, h, data[..]);
    for j := 0 to h / 2
      invariant data[..] == Splice(d0, offset, DownRows(p, w, h, j))
    {
      DownInPlaceStep(data, offset, w, h, rowBuffer, j, p, d0);
    }
    AllRows(d0, offset, p, w, h, h / 2, data[..]);
  }

  /** Row j of `downsample_inplace`: rows 2j and 2j + 1, which the rows
      written so far have not reached, are copied into the row buffer, and
      the output row is written from the copy. */
  method DownInPlaceStep(data: array<Byte>, offset: nat, w: nat, h: nat, rowBuffer: array<Byte>,
                         j: nat, ghost p: seq<Byte>, ghost d0: seq<Byte>)
    requires data != rowBuffer && rowBuffer.Length == 2 * w
    requires j < h / 2 && |p| == w * h && |d0| == data.Length && offset + w * h <= |d0|
    requires d0[offset .. offset + w * h] == p && offset + (w / 2) * (h / 2) <= |d0|
    requires data[..] == Splice(d0, offset, DownRows(p, w, h, j))
    modifies data, rowBuffer
    ensures data[..] == Splice(d0, offset, DownRows(p, w, h, j + 1))
  {
    ghost var before := data[..];
    var above := RowStart(offset, 2 * j, w);
    var start := RowStart(offset, j, w / 2);
    RowsStillOriginal(d0, offset, p, w, h, j, DownRows(p, w, h, j), above, before);
    StepLayout(offset, w, h, offset, j, false);
    ghost var top, bottom := ImageRow(p, w, h, 2 * j), ImageRow(p, w, h, 2 * j + 1);
    CopyTwoRows(data, above, w, rowBuffer, top, bottom);
    DownRow(rowBuffer, 0, w, data, start, top, bottom);
    RowWritten(d0, offset, p, w, h, j, before, start);
  }

  /** The two `memcpy` calls of `downsample_inplace` fill the row buffer with
      the two source rows. */
  method CopyTwoRows(data: array<Byte>, above: nat, w: nat, rowBuffer: array<Byte>,
                     ghost top: seq<Byte>, ghost bottom: seq<Byte>)
    requires data != rowBuffer && rowBuffer.Length == 2 * w && above + 2 * w <= data.Length
    requires |top| == w && |bottom| == w && data[above .. above + 2 * w] == top + bottom
    modifies rowBuffer
    ensures rowBuffer[0 .. 2 * w] == top + bottom
  {
    ghost var d, b0 := data[..], rowBuffer[..];
    ghost var both := d[above .. above + 2 * w];
    assert d[above .. above + w] == both[..w] == top;
    assert d[above + w .. above + w + w] == both[w..] == bottom;
    Memcpy(rowBuffer, 0, data, above, w);
    ghost var b1 := rowBuffer[..];
    Memcpy(rowBuffer, w, data, above + w, w);
    TwoRowsCopied(b0, b1, rowBuffer[..], top, bottom);
    assert rowBuffer[0 .. 2 * w] == rowBuffer[..];
  }

  /** The downsampled image is no larger than the source. */
  lemma HalfFits(w: nat, h: nat)
    ensures (w / 2) * (h / 2) <= w * h
  {
    MulMonotone(w / 2, w, h / 2);
    MulMonotone(h / 2, h, w);
  }

  /** Before row j is written, source rows 2j and 2j + 1 are still the
      original ones: the rows written so far end at `j * (w / 2)`, which is
      not past the start of row 2j. */
  lemma RowsStillOriginal(d0: seq<Byte>, offset: nat, p: seq<Byte>, w: nat, h: nat, j: nat,
                           done: seq<Byte>, lo: nat, s: seq<Byte>)
    requires |p| == w * h && offset + w * h <= |d0| && d0[offset .. offset + w * h] == p && j < h / 2
    requires offset + |done| <= |d0| && |done| == j * (w / 2)
    requires lo == offset + (2 * j) * w && s == Splice(d0, offset, done)
    ensures lo + 2 * w <= |s|
    ensures s[lo .. lo + 2 * w] == ImageRow(p, w, h, 2 * j) + ImageRow(p, w, h, 2 * j + 1)
  {
    WrittenBehind(w, j);
    assert offset + |done| <= lo;
    assert 2 * j + 1 < h;
    TwoRowsInOriginal(d0, offset, p, w, h, 2 * j);
    SpliceOutside(d0, offset, done, lo, lo + 2 * w);
  }

  /** Row j of the downsampled image ends no later than row 2j of the source
      begins. */
  lemma WrittenBehind(w: nat, j: nat)
    ensures j * (w / 2) <= (2 * j) * w
  {
    MulMonotone(w / 2, w, j);
    MulMonotone(j, 2 * j, w);
  }

  /** Before any row is written, the view holds no downsampled rows. */
  lemma NoRows(d0: seq<Byte>, offset: nat, p: seq<Byte>, w: nat, h: nat, s: seq<Byte>)
    requires |p| == w * h && offset + w * h <= |d0| && s == d0
    ensures offset + (w / 2) * (h / 2) <= |d0|
    ensures s == Splice(d0, offset, DownRows(p, w, h, 0))
  {
    HalfFits(w, h);
    SpliceEmpty(d0, offset);
  }

  /** Once all `h / 2` rows are written, the view holds the downsampled
      image. */
  lemma AllRows(d0: seq<Byte>, offset: nat, p: seq<Byte>, w: nat, h: nat, j: nat, s: seq<Byte>)
    requires |p| == w * h && offset + (w / 2) * (h / 2) <= |d0|
    requires j == h / 2 && s == Splice(d0, offset, DownRows(p, w, h, j))
    ensures s == Splice(d0, offset, Down(p, w, h))
  {
  }

  /** The two copies into the row buffer fill it with the two rows. */
  lemma TwoRowsCopied(b0: seq<Byte>, b1: seq<Byte>, b2: seq<Byte>, top: seq<Byte>, bottom: seq<Byte>)
    requires |b0| == 2 * |top| && |bottom| == |top|
    requires b1 == Splice(b0, 0, top) && b2 == Splice(b1, |top|, bottom)
    ensures b2 == top + bottom
  {
  }
}
