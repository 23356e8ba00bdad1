/** The integer image operators: clamping, the in-place 3x3 blur and the 2x2
    box downsampling, in place and into another view. */
module Filters {
  import opened Grid
  import opened Buffers
  import opened ImageTypes

  /** `clamp(value, min, max)`. */
  function Clamp(value: int, min: int, max: int): (r: int)
    ensures value < min ==> r == min
    ensures min <= value && value > max ==> r == max
    ensures min <= value <= max ==> r == value
    ensures min <= max ==> min <= r <= max
    ensures min <= max ==> (r == value <==> min <= value <= max)
  {
    if value < min then min
    else if value > max then max
    else value
  }

  // ------------------------------------------------------------------ blur

  /** A right shift by one of a value at most 2m + 1 is at most m. */
  lemma HalfBound(v: nat, m: nat)
    requires v <= 2 * m + 1
    ensures v / 2 <= m
  {
  }

  /** A right shift by two of a value at most 4m + 3 is at most m. */
  lemma QuarterBound(v: nat, m: nat)
    requires v <= 4 * m + 3
    ensures v / 4 <= m
  {
  }

  /** One pass of the separable kernel (1/4, 1/2, 1/4), written as the
      right shifts {2, 1, 2}; on the non-negative samples a right shift by
      k is the division by 2^k rounding down. */
  function Horizontal(a: Byte, b: Byte, c: Byte): (r: nat)
    ensures r <= 253
  {
    QuarterBound(a, 63);
    HalfBound(b, 127);
    QuarterBound(c, 63);
    a / 4 + b / 2 + c / 4
  }

  /** The blurred value of a pixel from its original 3x3 neighbourhood
      (rows a, b, c from top to bottom): each row pass is shifted right by
      2, 1 and 2 and the three results are added. Every intermediate value
      and the result fit in a byte, so no `uint8_t` store truncates. */
  function BlurKernel(a0: Byte, a1: Byte, a2: Byte,
                      b0: Byte, b1: Byte, b2: Byte,
                      c0: Byte, c1: Byte, c2: Byte): (r: Byte)
  {
    var top, middle, bottom := Horizontal(a0, a1, a2), Horizontal(b0, b1, b2), Horizontal(c0, c1, c2);
    KernelFits(top, middle, bottom);
    top / 4 + middle / 2 + bottom / 4
  }

  /** The vertical pass over three row results fits in a byte. */
  lemma KernelFits(top: nat, middle: nat, bottom: nat)
    requires top <= 253 && middle <= 253 && bottom <= 253
    ensures 0 <= top / 4 + middle / 2 + bottom / 4 < 256
  {
    QuarterBound(top, 63);
    HalfBound(middle, 126);
    QuarterBound(bottom, 63);
  }

  predicate OnBorder(w: nat, h: nat, y: nat, x: nat)
  {
    y == 0 || y + 1 == h || x == 0 || x + 1 == w
  }

  /** The value the blur gives pixel (y, x) of a w-by-h image `p`. */
  function BlurAt(p: seq<Byte>, w: nat, h: nat, y: nat, x: nat): Byte
    requires |p| == w * h && y < h && x < w
  {
    if OnBorder(w, h, y, x) then
      IndexBound(w, h, y, x);
      p[y * w + x]
    else
      IndexBound(w, h, y + 1, x + 1);
      IndexBound(w, h, y - 1, x);
      var above, middle, below := (y - 1) * w, y * w, (y + 1) * w;
      BlurKernel(p[above + x - 1], p[above + x], p[above + x + 1],
                 p[middle + x - 1], p[middle + x], p[middle + x + 1],
                 p[below + x - 1], p[below + x], p[below + x + 1])
  }

  /** Row y of the blurred image. */
  function BlurLine(p: seq<Byte>, w: nat, h: nat, y: nat): (r: seq<Byte>)
    requires |p| == w * h && y < h
    ensures |r| == w
  {
    seq(w, x requires 0 <= x < w => BlurAt(p, w, h, y, x))
  }

  /** The first `rows` rows of the blurred image, one after the other. */
  function BlurRows(p: seq<Byte>, w: nat, h: nat, rows: nat): (r: seq<Byte>)
    requires |p| == w * h && rows <= h
    ensures |r| == rows * w
    decreases rows
  {
    if rows == 0 then []
    else
      assert (rows - 1) * w + w == rows * w;
      BlurRows(p, w, h, rows - 1) + BlurLine(p, w, h, rows - 1)
  }

  /** The whole blurred image, computed out of place from the original. */
  function Blur(p: seq<Byte>, w: nat, h: nat): (r: seq<Byte>)
    requires |p| == w * h
    ensures |r| == w * h
  {
    BlurRows(p, w, h, h)
  }

  lemma {:induction false} BlurRowsIndex(p: seq<Byte>, w: nat, h: nat, rows: nat, y: nat, x: nat)
    requires |p| == w * h && y < rows <= h && x < w
    ensures y * w + x < rows * w && BlurRows(p, w, h, rows)[y * w + x] == BlurAt(p, w, h, y, x)
  {
    IndexBound(w, rows, y, x);
    assert (rows - 1) * w + w == rows * w;
    if y == rows - 1 {
      assert BlurLine(p, w, h, y)[x] == BlurAt(p, w, h, y, x);
    } else {
      BlurRowsIndex(p, w, h, rows - 1, y, x);
    }
  }

  lemma BlurAtIndex(p: seq<Byte>, w: nat, h: nat, y: nat, x: nat)
    requires |p| == w * h && y < h && x < w
    ensures y * w + x < w * h && Blur(p, w, h)[y * w + x] == BlurAt(p, w, h, y, x)
  {
    BlurRowsIndex(p, w, h, h, y, x);
  }

  /** The blur leaves the first and last row and column as they were. */
  lemma BlurKeepsBorder(p: seq<Byte>, w: nat, h: nat, y: nat, x: nat)
    requires |p| == w * h && y < h && x < w
    requires y == 0 || y == h - 1 || x == 0 || x == w - 1
    ensures y * w + x < w * h && Blur(p, w, h)[y * w + x] == p[y * w + x]
  {
    BlurAtIndex(p, w, h, y, x);
  }

  /** The original 3x3 neighbourhood of an interior pixel, row by row. */
  function Neighbourhood(p: seq<Byte>, w: nat, h: nat, y: nat, x: nat): (n: seq<Byte>)
    requires |p| == w * h && 0 < y < h - 1 && 0 < x < w - 1
    ensures |n| == 9
  {
    IndexBound(w, h, y + 1, x + 1);
    IndexBound(w, h, y - 1, x);
    var above, middle, below := (y - 1) * w, y * w, (y + 1) * w;
    [p[above + x - 1], p[above + x], p[above + x + 1],
     p[middle + x - 1], p[middle + x], p[middle + x + 1],
     p[below + x - 1], p[below + x], p[below + x + 1]]
  }

  /** An interior pixel of the blur is the kernel applied to its original
      3x3 neighbourhood, and so depends on nothing else: two images with the
      same neighbourhood there blur to the same value. */
  lemma BlurIsLocal(p: seq<Byte>, q: seq<Byte>, w: nat, h: nat, y: nat, x: nat)
    requires |p| == w * h && |q| == w * h
    requires 0 < y < h - 1 && 0 < x < w - 1
    requires Neighbourhood(p, w, h, y, x) == Neighbourhood(q, w, h, y, x)
    ensures y * w + x < w * h
    ensures var n := Neighbourhood(p, w, h, y, x);
      Blur(p, w, h)[y * w + x] == BlurKernel(n[0], n[1], n[2], n[3], n[4], n[5], n[6], n[7], n[8])
    ensures Blur(p, w, h)[y * w + x] == Blur(q, w, h)[y * w + x]
  {
    BlurAtIndex(p, w, h, y, x);
    BlurAtIndex(q, w, h, y, x);
  }

  /** The blurred value never exceeds the brightest pixel of the
      neighbourhood: the kernel weights add up to at most one. */
  lemma BlurKernelBounded(a0: Byte, a1: Byte, a2: Byte,
                          b0: Byte, b1: Byte, b2: Byte,
                          c0: Byte, c1: Byte, c2: Byte, m: Byte)
    requires a0 <= m && a1 <= m && a2 <= m && b0 <= m && b1 <= m && b2 <= m
    requires c0 <= m && c1 <= m && c2 <= m
    ensures BlurKernel(a0, a1, a2, b0, b1, b2, c0, c1, c2) <= m
  {
    assert Horizontal(a0, a1, a2) <= m / 4 + m / 2 + m / 4;
    assert Horizontal(b0, b1, b2) <= m / 4 + m / 2 + m / 4;
    assert Horizontal(c0, c1, c2) <= m / 4 + m / 2 + m / 4;
  }

  /** Where row i lives in the three-row ring buffer: `(i % 3) * width`. */
  function Slot(i: nat, width: nat): (r: nat)
    ensures r + width <= 3 * width
  {
    if i % 3 == 0 then 0 else if i % 3 == 1 then width else 2 * width
  }

  lemma SlotIsProduct(i: nat, width: nat)
    ensures (i % 3) * width == Slot(i, width)
  {
  }

  /** Rows fewer than three apart use slots that do not overlap. */
  lemma SlotsApart(k: nat, y: nat, width: nat)
    requires k < y < k + 3
    ensures Slot(k, width) + width <= Slot(y, width) || Slot(y, width) + width <= Slot(k, width)
  {
    assert y % 3 != k % 3;
  }

  /** Row k of `p` sits in its ring slot of `b`. */
  ghost predicate InSlot(b: seq<Byte>, p: seq<Byte>, w: nat, h: nat, k: nat)
    requires |b| == 3 * w && |p| == w * h && k < h
  {
    b[Slot(k, w) .. Slot(k, w) + w] == ImageRow(p, w, h, k)
  }

  /** Copying a row into a slot apart from that of row k keeps row k. */
  lemma SlotKept(b: seq<Byte>, p: seq<Byte>, w: nat, h: nat, k: nat, j: nat, row: seq<Byte>, next: seq<Byte>)
    requires |b| == 3 * w && |p| == w * h && k < h && |row| == w && InSlot(b, p, w, h, k)
    requires Slot(k, w) + w <= Slot(j, w) || Slot(j, w) + w <= Slot(k, w)
    requires next == Splice(b, Slot(j, w), row)
    ensures |next| == 3 * w && InSlot(next, p, w, h, k)
  {
    SpliceOutside(b, Slot(j, w), row, Slot(k, w), Slot(k, w) + w);
  }

  /** Copying row k into its slot puts it in place. */
  lemma SlotFilled(b: seq<Byte>, p: seq<Byte>, w: nat, h: nat, k: nat, row: seq<Byte>, next: seq<Byte>)
    requires |b| == 3 * w && |p| == w * h && k < h
    requires row == ImageRow(p, w, h, k) && next == Splice(b, Slot(k, w), row)
    ensures |next| == 3 * w && InSlot(next, p, w, h, k)
  {
    SpliceInside(b, Slot(k, w), row, Slot(k, w), Slot(k, w) + w);
    assert row[0 .. w] == row;
  }

  /** Copying row y + 1 over the slot of row y - 2 keeps rows y - 1 and y. */
  lemma RefillSlot(b: seq<Byte>, p: seq<Byte>, w: nat, h: nat, y: nat, row: seq<Byte>, next: seq<Byte>)
    requires |b| == 3 * w && |p| == w * h && 0 < y < h - 1
    requires InSlot(b, p, w, h, y - 1) && InSlot(b, p, w, h, y)
    requires row == ImageRow(p, w, h, y + 1) && next == Splice(b, Slot(y + 1, w), row)
    ensures |next| == 3 * w
    ensures InSlot(next, p, w, h, y - 1) && InSlot(next, p, w, h, y) && InSlot(next, p, w, h, y + 1)
  {
    SlotsApart(y - 1, y + 1, w);
    SlotsApart(y, y + 1, w);
    SlotKept(b, p, w, h, y - 1, y + 1, row, next);
    SlotKept(b, p, w, h, y, y + 1, row, next);
    SlotFilled(b, p, w, h, y + 1, row, next);
  }

  /** The image buffer of `blur_inplace` when row y is next: the image at
      `offset` in `d0` has its first y rows blurred and the others as in the
      original `p`. */
  ghost function Stage(d0: seq<Byte>, offset: nat, p: seq<Byte>, w: nat, h: nat, y: nat): (r: seq<Byte>)
    requires |p| == w * h && offset + w * h <= |d0| && y <= h
    ensures |r| == |d0|
  {
    RowsBefore(w, h, y);
    Splice(d0, offset, BlurRows(p, w, h, y) + p[y * w .. w * h])
  }

  /** Row 1 is next once row 0, which the blur keeps, is in place. */
  lemma StageOne(d0: seq<Byte>, offset: nat, p: seq<Byte>, w: nat, h: nat)
    requires |p| == w * h && offset + w * h <= |d0| && h >= 1 && d0[offset .. offset + w * h] == p
    ensures Stage(d0, offset, p, w, h, 1) == d0
  {
    FirstBlurRow(p, w, h);
    assert p[0 .. w] + p[1 * w .. w * h] == p;
    SpliceSame(d0, offset, p);
  }

  /** Rows y and after of a stage are still the original rows. */
  lemma StageRow(d0: seq<Byte>, offset: nat, p: seq<Byte>, w: nat, h: nat, y: nat, k: nat,
                 stage: seq<Byte>, start: nat)
    requires |p| == w * h && offset + w * h <= |d0| && y <= k < h
    requires stage == Stage(d0, offset, p, w, h, y) && start == offset + k * w
    ensures start + w <= |stage|
    ensures stage[start .. start + w] == ImageRow(p, w, h, k)
  {
    RowInside(w, h, k);
    MulMonotone(y, k, w);
    var rest := p[y * w .. w * h];
    var b := BlurRows(p, w, h, y) + rest;
    SpliceInside(d0, offset, b, offset + k * w, offset + k * w + w);
    assert b[k * w .. k * w + w] == rest[k * w - y * w .. k * w - y * w + w];
    SliceOfSlice(p, y * w, w * h, k * w - y * w, k * w - y * w + w);
  }

  /** Blurring row y of a stage gives the next stage. */
  lemma StageStep(d0: seq<Byte>, offset: nat, p: seq<Byte>, w: nat, h: nat, y: nat,
                  stage: seq<Byte>, start: nat, line: seq<Byte>)
    requires |p| == w * h && offset + w * h <= |d0| && y < h
    requires stage == Stage(d0, offset, p, w, h, y) && start == offset + y * w && line == BlurLine(p, w, h, y)
    ensures start + |line| <= |stage|
    ensures Splice(stage, start, line) == Stage(d0, offset, p, w, h, y + 1)
  {
    RowInside(w, h, y);
    var done, rest := BlurRows(p, w, h, y), p[y * w .. w * h];
    SpliceAfterDone(d0, offset, done, rest, start, line);
    NextRows(p, w, h, y, done, rest, line);
  }

  /** The rows of stage y + 1: row y blurred, and the original rows after it. */
  lemma NextRows(p: seq<Byte>, w: nat, h: nat, y: nat, done: seq<Byte>, rest: seq<Byte>, line: seq<Byte>)
    requires |p| == w * h && y < h
    requires done == BlurRows(p, w, h, y) && rest == p[y * w .. w * h] && line == BlurLine(p, w, h, y)
    ensures (y + 1) * w <= w * h
    ensures done + line + rest[w ..] == BlurRows(p, w, h, y + 1) + p[(y + 1) * w .. w * h]
  {
    RowInside(w, h, y);
    assert rest[w ..] == p[(y + 1) * w .. w * h];
  }

  /** The stage after the last interior row is the blur of the whole image. */
  lemma StageLast(d0: seq<Byte>, offset: nat, p: seq<Byte>, w: nat, h: nat, y: nat, stage: seq<Byte>)
    requires |p| == w * h && offset + w * h <= |d0| && h >= 1 && y == h - 1 && stage == Stage(d0, offset, p, w, h, y)
    ensures stage == Splice(d0, offset, Blur(p, w, h))
  {
    LastBlurRow(p, w, h);
  }

  /** The first x samples of `line` followed by the rest of `rm`. */
  ghost function Mixed(line: seq<Byte>, rm: seq<Byte>, x: nat): (r: seq<Byte>)
    requires |rm| == |line|
    ensures |r| == |line|
  {
    var m := if x <= |line| then x else |line|;
    line[..m] + rm[m..]
  }

  lemma MixedStep(line: seq<Byte>, rm: seq<Byte>, x: nat)
    requires |rm| == |line| && x < |line|
    ensures Mixed(line, rm, x)[x := line[x]] == Mixed(line, rm, x + 1)
  {
    var l, r := Mixed(line, rm, x)[x := line[x]], Mixed(line, rm, x + 1);
    forall j | 0 <= j < |line|
      ensures l[j] == r[j]
    {
      if j < x {
        assert l[j] == line[..x][j];
      } else if j > x {
        assert l[j] == rm[x..][j - x] && r[j] == rm[x + 1 ..][j - x - 1];
      }
    }
  }

  /** Before the inner loop the row is the original one: column 0 is
      already what it should be. */
  lemma MixedFirst(line: seq<Byte>, rm: seq<Byte>)
    requires |rm| == |line| && (|line| > 0 ==> line[0] == rm[0])
    ensures Mixed(line, rm, 1) == rm
  {
    if |line| > 0 {
      assert line[..1] == rm[..1];
      assert rm == rm[..1] + rm[1..];
    }
  }

  /** After the inner loop only the last column is left, which is already
      what it should be. */
  lemma MixedLast(line: seq<Byte>, rm: seq<Byte>, x: nat)
    requires |rm| == |line| && x + 1 >= |line| && (|line| > 0 ==> line[|line| - 1] == rm[|line| - 1])
    ensures Mixed(line, rm, x) == line
  {
    if x < |line| {
      var m := Mixed(line, rm, x);
      forall j | 0 <= j < |line|
        ensures m[j] == line[j]
      {
        if j < x {
          assert m[j] == line[..x][j];
        }
      }
    }
  }

  /** The inner loop of `blur_inplace` for one interior row, which starts at
      `start` in `data`: it writes the kernel over the buffered rows `ra`,
      `rm` and `rb` (at `above`, `middle` and `below` in the ring buffer)
      into columns 1 .. width - 2. `line` is the row the caller expects; its
      first and last samples are those already in place. */
  method BlurRow(data: array<Byte>, start: nat, width: nat, rowBuffer: array<Byte>,
                 above: nat, middle: nat, below: nat, ghost ra: seq<Byte>, ghost rm: seq<Byte>,
                 ghost rb: seq<Byte>, ghost line: seq<Byte>)
    requires data != rowBuffer
    requires start + width <= data.Length && |line| == width
    requires above + width <= rowBuffer.Length && middle + width <= rowBuffer.Length
    requires below + width <= rowBuffer.Length
    requires ra == rowBuffer[above .. above + width] && rm == rowBuffer[middle .. middle + width]
    requires rb == rowBuffer[below .. below + width]
    requires data[start .. start + width] == rm
    requires width > 0 ==> line[0] == rm[0] && line[width - 1] == rm[width - 1]
    requires forall x {:trigger KernelAt(ra, rm, rb, x)} :: 0 < x < width - 1 ==> line[x] == KernelAt(ra, rm, rb, x)
    modifies data
    ensures data[..] == Splice(old(data[..]), start, line)
  {
    ghost var d0 := data[..];
    SpliceSame(d0, start, rm);
    MixedFirst(line, rm);
    var x := 1;
    while x < width - 1
      invariant 1 <= x <= if width >= 2 then width - 1 else 1
      invariant data[..] == Splice(d0, start, Mixed(line, rm, x))
      invariant ra == rowBuffer[above .. above + width] && rm == rowBuffer[middle .. middle + width]
      invariant rb == rowBuffer[below .. below + width]
    {
      var v := RingKernel(rowBuffer, width, above, middle, below, x, ra, rm, rb);
      SpliceUpdate(d0, start, Mixed(line, rm, x), x, v);
      MixedStep(line, rm, x);
      data[start + x] := v;
      x := x + 1;
    }
    MixedLast(line, rm, x);
  }

  /** The kernel at column x of the three rows buffered at `above`,
      `middle` and `below`. */
  method RingKernel(rowBuffer: array<Byte>, width: nat, above: nat, middle: nat, below: nat, x: nat,
                    ghost ra: seq<Byte>, ghost rm: seq<Byte>, ghost rb: seq<Byte>) returns (v: Byte)
    requires 0 < x < width - 1
    requires above + width <= rowBuffer.Length && middle + width <= rowBuffer.Length
    requires below + width <= rowBuffer.Length
    requires ra == rowBuffer[above .. above + width] && rm == rowBuffer[middle .. middle + width]
    requires rb == rowBuffer[below .. below + width]
    ensures v == KernelAt(ra, rm, rb, x)
  {
    var x0, x1, x2 := x - 1, x, x + 1;
    assert ra[x0] == rowBuffer[above + x0] && ra[x1] == rowBuffer[above + x1] && ra[x2] == rowBuffer[above + x2];
    assert rm[x0] == rowBuffer[middle + x0] && rm[x1] == rowBuffer[middle + x1] && rm[x2] == rowBuffer[middle + x2];
    assert rb[x0] == rowBuffer[below + x0] && rb[x1] == rowBuffer[below + x1] && rb[x2] == rowBuffer[below + x2];
    v := BlurKernel(rowBuffer[above + x0], rowBuffer[above + x1], rowBuffer[above + x2],
                    rowBuffer[middle + x0], rowBuffer[middle + x1], rowBuffer[middle + x2],
                    rowBuffer[below + x0], rowBuffer[below + x1], rowBuffer[below + x2]);
  }

  /** Row y of the blur, read from copies of its three original rows. */
  lemma BlurLineFromRows(p: seq<Byte>, w: nat, h: nat, y: nat, ra: seq<Byte>, rm: seq<Byte>, rb: seq<Byte>)
    requires |p| == w * h && 0 < y < h - 1
    requires ra == ImageRow(p, w, h, y - 1) && rm == ImageRow(p, w, h, y) && rb == ImageRow(p, w, h, y + 1)
    ensures w > 0 ==> BlurLine(p, w, h, y)[0] == rm[0] && BlurLine(p, w, h, y)[w - 1] == rm[w - 1]
    ensures forall x {:trigger KernelAt(ra, rm, rb, x)} :: 0 < x < w - 1 ==>
      BlurLine(p, w, h, y)[x] == KernelAt(ra, rm, rb, x)
  {
    RowNeighbours(w, h, y);
    forall x | 0 < x < w - 1
      ensures BlurLine(p, w, h, y)[x] == KernelAt(ra, rm, rb, x)
    {
    }
  }

  /** The kernel at column x of three rows of equal length. */
  function KernelAt(ra: seq<Byte>, rm: seq<Byte>, rb: seq<Byte>, x: nat): Byte
    requires 0 < x && x + 1 < |ra| && x + 1 < |rm| && x + 1 < |rb|
  {
    BlurKernel(ra[x - 1], ra[x], ra[x + 1], rm[x - 1], rm[x], rm[x + 1], rb[x - 1], rb[x], rb[x + 1])
  }

  /** One iteration of the row loop of `blur_inplace` for the interior row
      y: the original row y + 1 is copied over the ring slot of row y - 2,
      then row y is blurred from the three buffered rows. */
  method BlurStep(data: array<Byte>, offset: nat, width: nat, height: nat, rowBuffer: array<Byte>,
                  rowBufferPtr: array<nat>, y: nat, ghost p: seq<Byte>, ghost d0: seq<Byte>)
    requires data != rowBuffer && 0 < y < height - 1
    requires |p| == width * height && offset + width * height <= |d0| && |d0| == data.Length
    requires rowBuffer.Length == 3 * width && rowBufferPtr.Length == height
    requires forall k :: 0 <= k < height ==> rowBufferPtr[k] == Slot(k, width)
    requires data[..] == Stage(d0, offset, p, width, height, y)
    requires InSlot(rowBuffer[..], p, width, height, y - 1) && InSlot(rowBuffer[..], p, width, height, y)
    modifies data, rowBuffer
    ensures data[..] == Stage(d0, offset, p, width, height, y + 1)
    ensures rowBuffer[..] == Splice(old(rowBuffer[..]), Slot(y + 1, width), ImageRow(p, width, height, y + 1))
    ensures InSlot(rowBuffer[..], p, width, height, y) && InSlot(rowBuffer[..], p, width, height, y + 1)
  {
    var s0, s1, s2 := rowBufferPtr[y - 1], rowBufferPtr[y], rowBufferPtr[y + 1];
    CopyNextRow(data, offset, width, height, rowBuffer, s2, y, p, d0);
    BlurMiddleRow(data, offset, width, height, rowBuffer, s0, s1, s2, y, p, d0);
  }

  /** The copy of the original row y + 1 into the ring slot `s2`. */
  method CopyNextRow(data: array<Byte>, offset: nat, width: nat, height: nat, rowBuffer: array<Byte>,
                     s2: nat, y: nat, ghost p: seq<Byte>, ghost d0: seq<Byte>)
    requires data != rowBuffer && 0 < y < height - 1 && s2 == Slot(y + 1, width)
    requires |p| == width * height && offset + width * height <= |d0| && |d0| == data.Length
    requires rowBuffer.Length == 3 * width
    requires data[..] == Stage(d0, offset, p, width, height, y)
    requires InSlot(rowBuffer[..], p, width, height, y - 1) && InSlot(rowBuffer[..], p, width, height, y)
    modifies rowBuffer
    ensures rowBuffer[..] == Splice(old(rowBuffer[..]), Slot(y + 1, width), ImageRow(p, width, height, y + 1))
    ensures InSlot(rowBuffer[..], p, width, height, y - 1) && InSlot(rowBuffer[..], p, width, height, y)
    ensures InSlot(rowBuffer[..], p, width, height, y + 1)
  {
    var start := RowStart(offset, y + 1, width);
    ghost var row := ImageRow(p, width, height, y + 1);
    StageRow(d0, offset, p, width, height, y, y + 1, data[..], start);
    ghost var b0 := rowBuffer[..];
    Memcpy(rowBuffer, s2, data, start, width);
    RefillSlot(b0, p, width, height, y, row, rowBuffer[..]);
  }

  /** The blur of the interior row y from the three original rows kept in
      the ring slots `s0`, `s1` and `s2`. */
  method BlurMiddleRow(data: array<Byte>, offset: nat, width: nat, height: nat, rowBuffer: array<Byte>,
                       s0: nat, s1: nat, s2: nat, y: nat, ghost p: seq<Byte>, ghost d0: seq<Byte>)
    requires data != rowBuffer && 0 < y < height - 1
    requires s0 == Slot(y - 1, width) && s1 == Slot(y, width) && s2 == Slot(y + 1, width)
    requires |p| == width * height && offset + width * height <= |d0| && |d0| == data.Length
    requires rowBuffer.Length == 3 * width
    requires data[..] == Stage(d0, offset, p, width, height, y)
    requires InSlot(rowBuffer[..], p, width, height, y - 1) && InSlot(rowBuffer[..], p, width, height, y)
    requires InSlot(rowBuffer[..], p, width, height, y + 1)
    modifies data
    ensures data[..] == Stage(d0, offset, p, width, height, y + 1)
  {
    ghost var ra, rm, rb := rowBuffer[s0 .. s0 + width], rowBuffer[s1 .. s1 + width], rowBuffer[s2 .. s2 + width];
    SlotRows(rowBuffer[..], p, width, height, y, ra, rm, rb);
    var start := RowStart(offset, y, width);
    StageRow(d0, offset, p, width, height, y, y, data[..], start);
    BlurLineFromRows(p, width, height, y, ra, rm, rb);
    ghost var line := BlurLine(p, width, height, y);
    ghost var stage := data[..];
    BlurRow(data, start, width, rowBuffer, s0, s1, s2, ra, rm, rb, line);
    StageStep(d0, offset, p, width, height, y, stage, start, line);
  }

  /** The ring slots of rows y - 1, y and y + 1 hold those rows. */
  lemma SlotRows(b: seq<Byte>, p: seq<Byte>, w: nat, h: nat, y: nat, ra: seq<Byte>, rm: seq<Byte>, rb: seq<Byte>)
    requires |b| == 3 * w && |p| == w * h && 0 < y < h - 1
    requires InSlot(b, p, w, h, y - 1) && InSlot(b, p, w, h, y) && InSlot(b, p, w, h, y + 1)
    requires ra == b[Slot(y - 1, w) .. Slot(y - 1, w) + w] && rm == b[Slot(y, w) .. Slot(y, w) + w]
    requires rb == b[Slot(y + 1, w) .. Slot(y + 1, w) + w]
    ensures ra == ImageRow(p, w, h, y - 1) && rm == ImageRow(p, w, h, y) && rb == ImageRow(p, w, h, y + 1)
  {
  }

  /** `blur_inplace(data + offset, width, height)`. The rows are overwritten
      from top to bottom; a three-row ring buffer keeps the original values of
      the rows above, at and below the current one, so the result is the
      out-of-place blur of the original image. Row 1 is copied before the
      loop, so the image must have at least two rows. */
  method BlurInPlace(data: array<Byte>, offset: nat, width: nat, height: nat)
    requires height >= 2
    requires offset + width * height <= data.Length
    modifies data
    ensures data[..] == Splice(old(data[..]), offset, Blur(old(data[offset .. offset + width * height]), width, height))
  {
    ghost var p := data[offset .. offset + width * height];
    var rowBuffer, rowBufferPtr := StartRing(data, offset, width, height, p);
    BlurAllRows(data, offset, width, height, rowBuffer, rowBufferPtr, p, data[..]);
  }

  /** The row loop of `blur_inplace`, over the ring buffer holding rows 0
      and 1. */
  method BlurAllRows(data: array<Byte>, offset: nat, width: nat, height: nat, rowBuffer: array<Byte>,
                     rowBufferPtr: array<nat>, ghost p: seq<Byte>, ghost d0: seq<Byte>)
    requires data != rowBuffer && height >= 2
    requires offset + width * height <= data.Length && d0 == data[..] && p == d0[offset .. offset + width * height]
    requires rowBuffer.Length == 3 * width && rowBufferPtr.Length == height
    requires forall k :: 0 <= k < height ==> rowBufferPtr[k] == Slot(k, width)
    requires InSlot(rowBuffer[..], p, width, height, 0) && InSlot(rowBuffer[..], p, width, height, 1)
    modifies data, rowBuffer
    ensures data[..] == Splice(d0, offset, Blur(p, width, height))
  {
    StageOne(d0, offset, p, width, height);
    for y := 1 to height - 1
      invariant forall k :: 0 <= k < height ==> rowBufferPtr[k] == Slot(k, width)
      invariant data[..] == Stage(d0, offset, p, width, height, y)
      invariant InSlot(rowBuffer[..], p, width, height, y - 1) && InSlot(rowBuffer[..], p, width, height, y)
    {
      BlurStep(data, offset, width, height, rowBuffer, rowBufferPtr, y, p, d0);
    }
    StageLast(d0, offset, p, width, height, height - 1, data[..]);
  }

  /** `blur_inplace(image)`: blurs the samples of the view in place. */
  method BlurImage(image: Image)
    requires image.data != null && ValidImage(image) && image.height >= 2
    modifies image.data
    ensures image.data[..] == Splice(old(image.data[..]), image.offset, Blur(old(Pixels(image)), image.width, image.height))
  {
    BlurInPlace(image.data, image.offset, image.width, image.height);
  }

  /** The buffers of `blur_inplace` before its row loop: the slot of every
      row in the ring buffer, and rows 0 and 1 of the image copied into
      their slots. */
  method StartRing(data: array<Byte>, offset: nat, width: nat, height: nat, ghost p: seq<Byte>)
    returns (rowBuffer: array<Byte>, rowBufferPtr: array<nat>)
    requires height >= 2
    requires offset + width * height <= data.Length && p == data[offset .. offset + width * height]
    ensures fresh(rowBuffer) && fresh(rowBufferPtr)
    ensures rowBuffer.Length == 3 * width && rowBufferPtr.Length == height
    ensures forall k :: 0 <= k < height ==> rowBufferPtr[k] == Slot(k, width)
    ensures InSlot(rowBuffer[..], p, width, height, 0) && InSlot(rowBuffer[..], p, width, height, 1)
  {
    rowBuffer := new Byte[width * 3];
    rowBufferPtr := new nat[height];
    for i := 0 to height
      invariant forall k :: 0 <= k < i ==> rowBufferPtr[k] == Slot(k, width)
      modifies rowBufferPtr
    {
      SlotIsProduct(i, width);
      rowBufferPtr[i] := (i % 3) * width;
    }
    CopyFirstRows(data, offset, width, height, rowBuffer, rowBufferPtr[0], rowBufferPtr[1], p);
  }

  /** `memcpy` of the first two rows of the image into their slots, 0 and
      `width`, of the ring buffer. */
  method CopyFirstRows(data: array<Byte>, offset: nat, width: nat, height: nat, rowBuffer: array<Byte>,
                       s0: nat, s1: nat, ghost p: seq<Byte>)
    requires data != rowBuffer && rowBuffer.Length == 3 * width && height >= 2
    requires offset + width * height <= data.Length && p == data[offset .. offset + width * height]
    requires s0 == Slot(0, width) && s1 == Slot(1, width)
    modifies rowBuffer
    ensures InSlot(rowBuffer[..], p, width, height, 0) && InSlot(rowBuffer[..], p, width, height, 1)
  {
    ghost var row0, row1 := ImageRow(p, width, height, 0), ImageRow(p, width, height, 1);
    FirstRows(data[..], offset, p, width, height, row0, row1);
    CopyRow(data, offset, width, height, rowBuffer, s0, 0, p, row0);
    ghost var b1 := rowBuffer[..];
    CopyRow(data, offset + width, width, height, rowBuffer, s1, 1, p, row1);
    SlotsApart(0, 1, width);
    SlotKept(b1, p, width, height, 0, 1, row1, rowBuffer[..]);
  }

  /** `memcpy` of image row k, found at `start` in `data`, into its slot. */
  method CopyRow(data: array<Byte>, start: nat, width: nat, height: nat, rowBuffer: array<Byte>,
                 slot: nat, k: nat, ghost p: seq<Byte>, ghost row: seq<Byte>)
    requires data != rowBuffer && rowBuffer.Length == 3 * width && |p| == width * height && k < height
    requires slot == Slot(k, width) && row == ImageRow(p, width, height, k)
    requires start + width <= data.Length && data[..][start .. start + width] == row
    modifies rowBuffer
    ensures rowBuffer[..] == Splice(old(rowBuffer[..]), slot, row)
    ensures InSlot(rowBuffer[..], p, width, height, k)
  {
    ghost var b := rowBuffer[..];
    Memcpy(rowBuffer, slot, data, start, width);
    SlotFilled(b, p, width, height, k, row, rowBuffer[..]);
  }

  /** Rows 0 and 1 of an image stored at `offset` in `d`. */
  lemma FirstRows(d: seq<Byte>, offset: nat, p: seq<Byte>, w: nat, h: nat, row0: seq<Byte>, row1: seq<Byte>)
    requires |p| == w * h && offset + w * h <= |d| && d[offset .. offset + w * h] == p && h >= 2
    requires row0 == ImageRow(p, w, h, 0) && row1 == ImageRow(p, w, h, 1)
    ensures offset + w + w <= |d|
    ensures d[offset .. offset + w] == row0 && d[offset + w .. offset + w + w] == row1
  {
    RowInOriginal(d, offset, p, w, h, 0);
    RowInOriginal(d, offset, p, w, h, 1);
  }

  /** The first row of the blur is the first row of the image. */
  lemma FirstBlurRow(p: seq<Byte>, w: nat, h: nat)
    requires |p| == w * h && h >= 1
    ensures w <= w * h && BlurRows(p, w, h, 1) == p[0 .. w]
  {
    RowsBefore(w, h, 1);
    forall x | 0 <= x < w
      ensures BlurLine(p, w, h, 0)[x] == p[x]
    {
      BlurAtIndex(p, w, h, 0, x);
    }
  }

  /** The whole blur is its first h - 1 rows followed by the last row of the
      image, which the blur keeps. */
  lemma LastBlurRow(p: seq<Byte>, w: nat, h: nat)
    requires |p| == w * h && h >= 1
    ensures (h - 1) * w + w == w * h
    ensures Blur(p, w, h) == BlurRows(p, w, h, h - 1) + p[(h - 1) * w .. w * h]
  {
    RowsBefore(w, h, h - 1);
    assert (h - 1) * w + w == w * h;
    var line, last := BlurLine(p, w, h, h - 1), p[(h - 1) * w .. w * h];
    forall x | 0 <= x < w
      ensures line[x] == last[x]
    {
      BlurAtIndex(p, w, h, h - 1, x);
    }
  }
}
