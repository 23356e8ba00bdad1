/** The layout constants and value types of the image header: 8-bit image
    views, bordered patches and keypoints. */
module ImageTypes {
  import opened Vectors

  const PYRAMID_LEVELS: nat := 5
  const PATCH_SIZE: nat := 7
  const PATCH_SIZE_WITH_BORDER: nat := PATCH_SIZE + 2
  const MAX_NUMBER_OF_PATCHES_IN_PYRAMID_LEVEL: nat := 74

  /** Number of stored values of a bordered patch (9 * 9). */
  const PATCH_CELLS: nat := PATCH_SIZE_WITH_BORDER * PATCH_SIZE_WITH_BORDER

  /** A `uint8_t` sample. */
  type Byte = x: int | 0 <= x < 256

  /** A non-owning view of `width * height` row-major samples that start at
      `data[offset]`; the offset stands for the address arithmetic by which
      the pyramid places its levels inside one buffer. */
  datatype Image = Image(data: array?<Byte>, offset: nat, width: nat, height: nat)

  predicate ValidImage(img: Image)
    reads img.data
  {
    if img.data == null then img.offset == 0 && img.width * img.height == 0
    else img.offset + img.width * img.height <= img.data.Length
  }

  /** The samples the view covers, in row-major order. */
  function Pixels(img: Image): (p: seq<Byte>)
    reads img.data
    requires ValidImage(img)
    ensures |p| == img.width * img.height
  {
    if img.data == null then [] else img.data[img.offset .. img.offset + img.width * img.height]
  }

  /** `Image()`: no buffer and no samples. */
  function EmptyImage(): (img: Image)
    ensures img.data == null && img.width == 0 && img.height == 0
    ensures ValidImage(img) && Pixels(img) == []
  {
    Image(null, 0, 0, 0)
  }

  /** `Image(data, w, h)`: the view shares `buffer`, nothing is copied. */
  function ImageOf(buffer: array<Byte>, width: nat, height: nat): (img: Image)
    reads buffer
    requires width * height <= buffer.Length
    ensures img.data == buffer && img.offset == 0 && img.width == width && img.height == height
    ensures ValidImage(img) && Pixels(img) == buffer[..width * height]
  {
    Image(buffer, 0, width, height)
  }

  /** The 81 stored values of a bordered patch. */
  type PatchData = s: seq<int> | |s| == PATCH_CELLS witness seq(81, k => 0)

  /** A bordered 9x9 patch: `origin` is the top-left corner of the inner 7x7
      patch. Patches built at integer coordinates hold integer values; that is
      the only case this model covers, so the values are `int`. */
  datatype Patch = Patch(data: PatchData, origin: Vec2)

  /** `Patch()`: every value zero and the origin at (0, 0). */
  function EmptyPatch(): (p: Patch)
    ensures forall k :: 0 <= k < PATCH_CELLS ==> p.data[k] == 0
    ensures p.origin == Vec2(0.0, 0.0)
  {
    Patch(seq(PATCH_CELLS, k => 0), Zero())
  }

  /** `row(index)`: row `index` of the inner 7x7 patch, that is, row
      `index + 1` of the bordered grid without its first and last column. */
  function Row(p: Patch, index: nat): (r: seq<int>)
    requires index < PATCH_SIZE
    ensures |r| == PATCH_SIZE
    ensures forall i :: 0 <= i < PATCH_SIZE ==>
      r[i] == p.data[(index + 1) * PATCH_SIZE_WITH_BORDER + 1 + i]
  {
    var start := (index + 1) * PATCH_SIZE_WITH_BORDER + 1;
    p.data[start .. start + PATCH_SIZE]
  }

  datatype KeyPoint = KeyPoint(point: Vec2, stale: bool)

  /** `KeyPoint()`: at (0, 0) and not stale. */
  function DefaultKeyPoint(): (k: KeyPoint)
    ensures k.point == Vec2(0.0, 0.0) && !k.stale
  {
    KeyPoint(Zero(), false)
  }

  /** `KeyPoint(x, y)`: at (x, y) and not stale. */
  function KeyPointAt(x: real, y: real): (k: KeyPoint)
    ensures k.point.x == x && k.point.y == y && !k.stale
  {
    KeyPoint(Vec2(x, y), false)
  }
}
