/** Patches: the 9x9 bordered samples around a point of an image, their
    spatial gradients (Sobel kernels) and their time difference, and the
    patch pyramid that holds one patch per feature and pyramid level. Only
    patches at integer coordinates are modelled; there the bilinear weights
    are zero and every value is a copied image sample. */
module Patches {
  import opened Grid
  import opened Vectors
  import opened ImageTypes
  import opened Filters
  import opened Pyramid

  /** Side of the gather buffer of the patch constructor: the bordered patch
      with one more cell on every side. */
  const GATHER_SIZE: nat := PATCH_SIZE_WITH_BORDER + 2

  /** The sample the patch constructor reads for image coordinates (x, y):
      both coordinates are clamped into the image first. */
  function Sample(p: seq<Byte>, w: nat, h: nat, x: int, y: int): Byte
    requires |p| == w * h && w > 0 && h > 0
  {
    var xs, ys := Clamp(x, 0, w - 1), Clamp(y, 0, h - 1);
    IndexBound(w, h, ys, xs);
    p[ys * w + xs]
  }

  /** Flat index j * 9 + i of the bordered grid is row j, column i. */
  lemma BorderedCell(j: nat, i: nat)
    requires i < PATCH_SIZE_WITH_BORDER
    ensures (j * PATCH_SIZE_WITH_BORDER + i) / PATCH_SIZE_WITH_BORDER == j
    ensures (j * PATCH_SIZE_WITH_BORDER + i) % PATCH_SIZE_WITH_BORDER == i
  {
  }

  /** Flat index j * 11 + i of the gather buffer is row j, column i. */
  lemma GatherCell(j: nat, i: nat)
    requires i < GATHER_SIZE
    ensures (j * GATHER_SIZE + i) / GATHER_SIZE == j && (j * GATHER_SIZE + i) % GATHER_SIZE == i
  {
  }

  /** The 11x11 neighbourhood the patch constructor gathers at integer
      (x, y): cell k is the clamped sample two columns and two rows before
      its grid position relative to (x, y). */
  function Neighbourhood(p: seq<Byte>, w: nat, h: nat, x: int, y: int): (r: seq<Byte>)
    requires |p| == w * h && w > 0 && h > 0
    ensures |r| == GATHER_SIZE * GATHER_SIZE
  {
    seq(GATHER_SIZE * GATHER_SIZE, k requires 0 <= k < GATHER_SIZE * GATHER_SIZE =>
      Sample(p, w, h, x + k % GATHER_SIZE - 2, y + k / GATHER_SIZE - 2))
  }

  /** The stored values of the patch built at integer (x, y): cell (j, i)
      of the bordered grid holds the sample at (x + i - 1, y + j - 1). */
  function Gathered(p: seq<Byte>, w: nat, h: nat, x: int, y: int): (r: PatchData)
    requires |p| == w * h && w > 0 && h > 0
  {
    seq(PATCH_CELLS, k requires 0 <= k < PATCH_CELLS =>
      Sample(p, w, h, x + k % PATCH_SIZE_WITH_BORDER - 1, y + k / PATCH_SIZE_WITH_BORDER - 1) as int)
  }

  /** Cell (j, i) of the gathered patch is the sample at (x + i - 1, y + j - 1). */
  lemma GatheredCell(p: seq<Byte>, w: nat, h: nat, x: int, y: int, j: nat, i: nat)
    requires |p| == w * h && w > 0 && h > 0
    requires j < PATCH_SIZE_WITH_BORDER && i < PATCH_SIZE_WITH_BORDER
    ensures j * PATCH_SIZE_WITH_BORDER + i < PATCH_CELLS
    ensures Gathered(p, w, h, x, y)[j * PATCH_SIZE_WITH_BORDER + i] == Sample(p, w, h, x + i - 1, y + j - 1)
  {
    BorderedCell(j, i);
  }

  /** Cell (j + 1, i + 1) of the neighbourhood is cell (j, i) of the patch. */
  lemma CroppedCell(p: seq<Byte>, w: nat, h: nat, x: int, y: int, j: nat, i: nat)
    requires |p| == w * h && w > 0 && h > 0
    requires j < PATCH_SIZE_WITH_BORDER && i < PATCH_SIZE_WITH_BORDER
    ensures (j + 1) * GATHER_SIZE + i + 1 < GATHER_SIZE * GATHER_SIZE && j * PATCH_SIZE_WITH_BORDER + i < PATCH_CELLS
    ensures Neighbourhood(p, w, h, x, y)[(j + 1) * GATHER_SIZE + i + 1] == Gathered(p, w, h, x, y)[j * PATCH_SIZE_WITH_BORDER + i]
  {
    GatherCell(j + 1, i + 1);
    GatheredCell(p, w, h, x, y, j, i);
  }

  /** The patch `Patch(x, y, image)` builds at integer (x, y). */
  function PatchOf(image: Image, x: int, y: int): (patch: Patch)
    reads image.data
    requires image.data != null && ValidImage(image) && image.width > 0 && image.height > 0
    ensures patch.origin.x == x as real && patch.origin.y == y as real
  {
    Patch(Gathered(Pixels(image), image.width, image.height, x, y), Vec2(x as real, y as real))
  }

  /** `Patch(x, y, image)` at integer coordinates. The 11x11 neighbourhood
      starting two samples up and left of (x, y) is gathered with clamped
      coordinates; with integer coordinates both bilinear weights are zero,
      so every stored value is the gathered sample one cell down and right. */
  method PatchAt(x: int, y: int, image: Image) returns (patch: Patch)
    requires image.data != null && ValidImage(image) && image.width > 0 && image.height > 0
    ensures patch == PatchOf(image, x, y)
  {
    ghost var p := Pixels(image);
    var buffer := GatherNeighbourhood(x, y, image);
    ghost var n, g := buffer[..], Gathered(p, image.width, image.height, x, y);
    var data := new int[PATCH_CELLS];
    for j := 0 to PATCH_SIZE_WITH_BORDER
      invariant buffer[..] == n
      invariant forall k :: 0 <= k < j * PATCH_SIZE_WITH_BORDER ==> data[k] == g[k]
    {
      for i := 0 to PATCH_SIZE_WITH_BORDER
        invariant buffer[..] == n
        invariant forall k :: 0 <= k < j * PATCH_SIZE_WITH_BORDER + i ==> data[k] == g[k]
      {
        CroppedCell(p, image.width, image.height, x, y, j, i);
        data[j * PATCH_SIZE_WITH_BORDER + i] := buffer[(j + 1) * GATHER_SIZE + i + 1];
      }
    }
    patch := Patch(data[..], Vec2(x as real, y as real));
  }

  /** The first loop of the patch constructor: the clamped 11x11
      neighbourhood, row by row. */
  method GatherNeighbourhood(x: int, y: int, image: Image) returns (buffer: array<int>)
    requires image.data != null && ValidImage(image) && image.width > 0 && image.height > 0
    ensures buffer[..] == Neighbourhood(Pixels(image), image.width, image.height, x, y)
  {
    var w, h := image.width, image.height;
    ghost var p := Pixels(image);
    ghost var n := Neighbourhood(p, w, h, x, y);
    buffer := new int[GATHER_SIZE * GATHER_SIZE];
    for j := 0 to GATHER_SIZE
      invariant forall k :: 0 <= k < j * GATHER_SIZE ==> buffer[k] == n[k]
    {
      var ys := Clamp(y + j - 2, 0, h - 1);
      for i := 0 to GATHER_SIZE
        invariant forall k :: 0 <= k < j * GATHER_SIZE + i ==> buffer[k] == n[k]
      {
        var xs := Clamp(x + i - 2, 0, w - 1);
        GatherCell(j, i);
        buffer[j * GATHER_SIZE + i] := ReadSample(image, xs, ys, p, x + i - 2, y + j - 2);
      }
    }
  }

  /** `image.data[ys * image.width + xs]` at clamped coordinates. */
  method ReadSample(image: Image, xs: int, ys: int, ghost p: seq<Byte>, ghost x: int, ghost y: int) returns (v: Byte)
    requires image.data != null && ValidImage(image) && image.width > 0 && image.height > 0
    requires p == Pixels(image)
    requires xs == Clamp(x, 0, image.width - 1) && ys == Clamp(y, 0, image.height - 1)
    ensures v == Sample(p, image.width, image.height, x, y)
  {
    IndexBound(image.width, image.height, ys, xs);
    v := image.data[image.offset + ys * image.width + xs];
  }

  /** Every read of the constructor is inside the image. */
  lemma GatherInBounds(w: nat, h: nat, x: int, y: int)
    requires w > 0 && h > 0
    ensures 0 <= Clamp(y, 0, h - 1) * w + Clamp(x, 0, w - 1) < w * h
  {
    IndexBound(w, h, Clamp(y, 0, h - 1), Clamp(x, 0, w - 1));
  }

  /** `row(j)[i]` of a patch built at integer (x, y) is the image sample at
      (x + i, y + j), clamped into the image. */
  lemma RowOfGathered(p: seq<Byte>, w: nat, h: nat, x: int, y: int, j: nat, i: nat)
    requires |p| == w * h && w > 0 && h > 0 && j < PATCH_SIZE && i < PATCH_SIZE
    ensures Row(Patch(Gathered(p, w, h, x, y), Vec2(x as real, y as real)), j)[i] == Sample(p, w, h, x + i, y + j)
  {
    GatheredCell(p, w, h, x, y, j + 1, i + 1);
    assert (j + 1) * PATCH_SIZE_WITH_BORDER + 1 + i == (j + 1) * PATCH_SIZE_WITH_BORDER + (i + 1);
  }

  // ------------------------------------------------------------- gradients

  /** Cell (j, i) of the bordered grid is inside the 7x7 patch. */
  predicate Inner(k: nat)
  {
    1 <= k / PATCH_SIZE_WITH_BORDER <= PATCH_SIZE && 1 <= k % PATCH_SIZE_WITH_BORDER <= PATCH_SIZE
  }

  /** The value of cell (j, i) of a bordered grid. */
  function At(s: PatchData, j: nat, i: nat): int
    requires j < PATCH_SIZE_WITH_BORDER && i < PATCH_SIZE_WITH_BORDER
  {
    s[j * PATCH_SIZE_WITH_BORDER + i]
  }

  /** The x Sobel kernel {{-1, 0, 1}, {-2, 0, 2}, {-1, 0, 1}} at an inner
      cell. */
  function SobelX(s: PatchData, j: nat, i: nat): int
    requires 1 <= j <= PATCH_SIZE && 1 <= i <= PATCH_SIZE
  {
    - At(s, j - 1, i - 1) + At(s, j - 1, i + 1)
    - 2 * At(s, j, i - 1) + 2 * At(s, j, i + 1)
    - At(s, j + 1, i - 1) + At(s, j + 1, i + 1)
  }

  /** The y Sobel kernel {{-1, -2, -1}, {0, 0, 0}, {1, 2, 1}} at an inner
      cell. */
  function SobelY(s: PatchData, j: nat, i: nat): int
    requires 1 <= j <= PATCH_SIZE && 1 <= i <= PATCH_SIZE
  {
    - At(s, j - 1, i - 1) - 2 * At(s, j - 1, i) - At(s, j - 1, i + 1)
    + At(s, j + 1, i - 1) + 2 * At(s, j + 1, i) + At(s, j + 1, i + 1)
  }

  /** The values `dx(source, destination)` leaves in the destination: the x
      gradient of the source at the inner cells, the destination's old
      values on the border. */
  function GradientX(s: PatchData, d: PatchData): (r: PatchData)
  {
    seq(PATCH_CELLS, k requires 0 <= k < PATCH_CELLS =>
      if Inner(k) then SobelX(s, k / PATCH_SIZE_WITH_BORDER, k % PATCH_SIZE_WITH_BORDER) else d[k])
  }

  /** The values `dy(source, destination)` leaves in the destination. */
  function GradientY(s: PatchData, d: PatchData): (r: PatchData)
  {
    seq(PATCH_CELLS, k requires 0 <= k < PATCH_CELLS =>
      if Inner(k) then SobelY(s, k / PATCH_SIZE_WITH_BORDER, k % PATCH_SIZE_WITH_BORDER) else d[k])
  }

  /** The values `dt(first, second, destination)` writes: every cell of the
      second patch minus the same cell of the first. */
  function Difference(first: PatchData, second: PatchData): (r: PatchData)
  {
    seq(PATCH_CELLS, k requires 0 <= k < PATCH_CELLS => second[k] - first[k])
  }

  /** `dx(source, destination)`: the origin is copied from the source, the
      inner cells get the x gradient and the border keeps its values. */
  method Dx(source: Patch, destination: Patch) returns (result: Patch)
    ensures result == Patch(GradientX(source.data, destination.data), source.origin)
  {
    var data := new int[PATCH_CELLS](k requires 0 <= k < PATCH_CELLS => destination.data[k]);
    ghost var g := GradientX(source.data, destination.data);
    for j := 1 to PATCH_SIZE + 1
      invariant forall k :: 0 <= k < PATCH_CELLS ==>
        data[k] == if k < j * PATCH_SIZE_WITH_BORDER then g[k] else destination.data[k]
    {
      GradientXRow(source.data, destination.data, data, j);
    }
    result := Patch(data[..], source.origin);
  }

  /** Row j of the loop of `dx`: its inner cells get the x gradient. */
  method GradientXRow(s: PatchData, d: PatchData, data: array<int>, j: nat)
    requires data.Length == PATCH_CELLS && 1 <= j <= PATCH_SIZE
    requires forall k :: 0 <= k < PATCH_CELLS ==>
      data[k] == if k < j * PATCH_SIZE_WITH_BORDER then GradientX(s, d)[k] else d[k]
    modifies data
    ensures forall k :: 0 <= k < PATCH_CELLS ==>
      data[k] == if k < (j + 1) * PATCH_SIZE_WITH_BORDER then GradientX(s, d)[k] else d[k]
  {
    ghost var g := GradientX(s, d);
    GradientXCell(s, d, j, 0);
    for i := 1 to PATCH_SIZE + 1
      invariant forall k :: 0 <= k < PATCH_CELLS ==>
        data[k] == if k < j * PATCH_SIZE_WITH_BORDER + i then g[k] else d[k]
    {
      GradientXCell(s, d, j, i);
      data[j * PATCH_SIZE_WITH_BORDER + i] := SobelX(s, j, i);
    }
    GradientXCell(s, d, j, PATCH_SIZE + 1);
  }

  /** `dy(source, destination)`: as `dx`, with the y kernel. */
  method Dy(source: Patch, destination: Patch) returns (result: Patch)
    ensures result == Patch(GradientY(source.data, destination.data), source.origin)
  {
    var data := new int[PATCH_CELLS](k requires 0 <= k < PATCH_CELLS => destination.data[k]);
    ghost var g := GradientY(source.data, destination.data);
    for j := 1 to PATCH_SIZE + 1
      invariant forall k :: 0 <= k < PATCH_CELLS ==>
        data[k] == if k < j * PATCH_SIZE_WITH_BORDER then g[k] else destination.data[k]
    {
      GradientYRow(source.data, destination.data, data, j);
    }
    result := Patch(data[..], source.origin);
  }

  /** Row j of the loop of `dy`: its inner cells get the y gradient. */
  method GradientYRow(s: PatchData, d: PatchData, data: array<int>, j: nat)
    requires data.Length == PATCH_CELLS && 1 <= j <= PATCH_SIZE
    requires forall k :: 0 <= k < PATCH_CELLS ==>
      data[k] == if k < j * PATCH_SIZE_WITH_BORDER then GradientY(s, d)[k] else d[k]
    modifies data
    ensures forall k :: 0 <= k < PATCH_CELLS ==>
      data[k] == if k < (j + 1) * PATCH_SIZE_WITH_BORDER then GradientY(s, d)[k] else d[k]
  {
    ghost var g := GradientY(s, d);
    GradientYCell(s, d, j, 0);
    for i := 1 to PATCH_SIZE + 1
      invariant forall k :: 0 <= k < PATCH_CELLS ==>
        data[k] == if k < j * PATCH_SIZE_WITH_BORDER + i then g[k] else d[k]
    {
      GradientYCell(s, d, j, i);
      data[j * PATCH_SIZE_WITH_BORDER + i] := SobelY(s, j, i);
    }
    GradientYCell(s, d, j, PATCH_SIZE + 1);
  }

  /** `dt(first, second, destination)`: every cell is overwritten with the
      difference and the origin is copied from the first patch. */
  method Dt(first: Patch, second: Patch, destination: Patch) returns (result: Patch)
    ensures result == Patch(Difference(first.data, second.data), first.origin)
  {
    var data := new int[PATCH_CELLS](k requires 0 <= k < PATCH_CELLS => destination.data[k]);
    for j := 0 to PATCH_SIZE_WITH_BORDER
      invariant forall k :: 0 <= k < j * PATCH_SIZE_WITH_BORDER ==> data[k] == second.data[k] - first.data[k]
    {
      for i := 0 to PATCH_SIZE_WITH_BORDER
        invariant forall k :: 0 <= k < j * PATCH_SIZE_WITH_BORDER + i ==> data[k] == second.data[k] - first.data[k]
      {
        data[j * PATCH_SIZE_WITH_BORDER + i] := second.data[j * PATCH_SIZE_WITH_BORDER + i] - first.data[j * PATCH_SIZE_WITH_BORDER + i];
      }
    }
    result := Patch(data[..], first.origin);
  }

  // ------------------------------------------------- properties of patches

  /** Inside the image no coordinate is clamped: cell (j, i) of a patch
      whose bordered grid lies in the image is the pixel at
      (x + i - 1, y + j - 1). */
  lemma GatheredInside(p: seq<Byte>, w: nat, h: nat, x: int, y: int, j: nat, i: nat)
    requires |p| == w * h && w > 0 && h > 0
    requires j < PATCH_SIZE_WITH_BORDER && i < PATCH_SIZE_WITH_BORDER
    requires 1 <= x && x + PATCH_SIZE < w && 1 <= y && y + PATCH_SIZE < h
    ensures j * PATCH_SIZE_WITH_BORDER + i < PATCH_CELLS && (y + j - 1) * w + (x + i - 1) < |p|
    ensures Gathered(p, w, h, x, y)[j * PATCH_SIZE_WITH_BORDER + i] == p[(y + j - 1) * w + (x + i - 1)]
  {
    GatheredCell(p, w, h, x, y, j, i);
    IndexBound(w, h, y + j - 1, x + i - 1);
  }

  /** A patch's cell holds the x gradient at inner cells and the
      destination's old value on the border. */
  lemma GradientXCell(s: PatchData, d: PatchData, j: nat, i: nat)
    requires j < PATCH_SIZE_WITH_BORDER && i < PATCH_SIZE_WITH_BORDER
    ensures j * PATCH_SIZE_WITH_BORDER + i < PATCH_CELLS
    ensures 1 <= j <= PATCH_SIZE && 1 <= i <= PATCH_SIZE ==>
      GradientX(s, d)[j * PATCH_SIZE_WITH_BORDER + i] == SobelX(s, j, i)
    ensures !(1 <= j <= PATCH_SIZE && 1 <= i <= PATCH_SIZE) ==>
      GradientX(s, d)[j * PATCH_SIZE_WITH_BORDER + i] == d[j * PATCH_SIZE_WITH_BORDER + i]
  {
    BorderedCell(j, i);
  }

  /** As `GradientXCell`, for the y gradient. */
  lemma GradientYCell(s: PatchData, d: PatchData, j: nat, i: nat)
    requires j < PATCH_SIZE_WITH_BORDER && i < PATCH_SIZE_WITH_BORDER
    ensures j * PATCH_SIZE_WITH_BORDER + i < PATCH_CELLS
    ensures 1 <= j <= PATCH_SIZE && 1 <= i <= PATCH_SIZE ==>
      GradientY(s, d)[j * PATCH_SIZE_WITH_BORDER + i] == SobelY(s, j, i)
    ensures !(1 <= j <= PATCH_SIZE && 1 <= i <= PATCH_SIZE) ==>
      GradientY(s, d)[j * PATCH_SIZE_WITH_BORDER + i] == d[j * PATCH_SIZE_WITH_BORDER + i]
  {
    BorderedCell(j, i);
  }

  /** The kernels are exact on a plane: where the stored values are
      a * column + b * row + c, the x gradient is 8a and the y gradient 8b
      at every inner cell. A constant patch (a = b = 0) has no gradient. */
  lemma GradientOfPlane(s: PatchData, d: PatchData, a: int, b: int, c: int, j: nat, i: nat)
    requires forall jj, ii :: 0 <= jj < PATCH_SIZE_WITH_BORDER && 0 <= ii < PATCH_SIZE_WITH_BORDER ==>
      At(s, jj, ii) == a * ii + b * jj + c
    requires 1 <= j <= PATCH_SIZE && 1 <= i <= PATCH_SIZE
    ensures GradientX(s, d)[j * PATCH_SIZE_WITH_BORDER + i] == 8 * a
    ensures GradientY(s, d)[j * PATCH_SIZE_WITH_BORDER + i] == 8 * b
  {
    GradientXCell(s, d, j, i);
    GradientYCell(s, d, j, i);
    assert At(s, j - 1, i - 1) == a * (i - 1) + b * (j - 1) + c;
    assert At(s, j - 1, i) == a * i + b * (j - 1) + c;
    assert At(s, j - 1, i + 1) == a * (i + 1) + b * (j - 1) + c;
    assert At(s, j, i - 1) == a * (i - 1) + b * j + c;
    assert At(s, j, i + 1) == a * (i + 1) + b * j + c;
    assert At(s, j + 1, i - 1) == a * (i - 1) + b * (j + 1) + c;
    assert At(s, j + 1, i) == a * i + b * (j + 1) + c;
    assert At(s, j + 1, i + 1) == a * (i + 1) + b * (j + 1) + c;
  }

  /** The bordered grid mirrored on its diagonal. */
  function Transposed(s: PatchData): (t: PatchData)
  {
    seq(PATCH_CELLS, k requires 0 <= k < PATCH_CELLS =>
      s[(k % PATCH_SIZE_WITH_BORDER) * PATCH_SIZE_WITH_BORDER + k / PATCH_SIZE_WITH_BORDER])
  }

  /** Cell (j, i) of the mirrored grid is cell (i, j) of the grid. */
  lemma TransposedCell(s: PatchData, j: nat, i: nat)
    requires j < PATCH_SIZE_WITH_BORDER && i < PATCH_SIZE_WITH_BORDER
    ensures At(Transposed(s), j, i) == At(s, i, j)
  {
    BorderedCell(j, i);
  }

  /** The y kernel is the x kernel on the transposed grid: `dy` of a patch
      is `dx` of its mirror image, read back mirrored. */
  lemma GradientYIsTransposedX(s: PatchData, d: PatchData, j: nat, i: nat)
    requires 1 <= j <= PATCH_SIZE && 1 <= i <= PATCH_SIZE
    ensures GradientY(s, d)[j * PATCH_SIZE_WITH_BORDER + i]
         == GradientX(Transposed(s), d)[i * PATCH_SIZE_WITH_BORDER + j]
  {
    GradientYCell(s, d, j, i);
    GradientXCell(Transposed(s), d, i, j);
    KernelsTransposed(s, j, i);
  }

  /** The y kernel at (j, i) is the x kernel at (i, j) of the mirror. */
  lemma KernelsTransposed(s: PatchData, j: nat, i: nat)
    requires 1 <= j <= PATCH_SIZE && 1 <= i <= PATCH_SIZE
    ensures SobelY(s, j, i) == SobelX(Transposed(s), i, j)
  {
    TransposedCell(s, i - 1, j - 1);
    TransposedCell(s, i - 1, j + 1);
    TransposedCell(s, i, j - 1);
    TransposedCell(s, i, j + 1);
    TransposedCell(s, i + 1, j - 1);
    TransposedCell(s, i + 1, j + 1);
  }

  /** `dt` is the difference that, added to the first patch, gives the
      second; the difference of a patch with itself is zero. */
  lemma DifferenceRestores(first: PatchData, second: PatchData, k: nat)
    requires k < PATCH_CELLS
    ensures first[k] + Difference(first, second)[k] == second[k]
    ensures first == second ==> Difference(first, second)[k] == 0
  {
  }
}
