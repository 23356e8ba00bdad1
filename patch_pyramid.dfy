/** The patch pyramid: one patch per feature and pyramid level, cut from
    the levels of an image pyramid around each feature's scaled position. */
module PatchPyramids {
  import opened Grid
  import opened Vectors
  import opened ImageTypes
  import opened Pyramid
  import opened Patches

  /** 2^n. */
  function Pow2(n: nat): (r: nat)
    ensures r >= 1
  {
    if n == 0 then 1 else 2 * Pow2(n - 1)
  }

  /** The conversion of a float to a signed integer: truncation toward
      zero. The conversion of values beyond 32 bits is not modelled. */
  function Trunc(r: real): (t: int)
    ensures r >= 0.0 ==> t as real <= r < t as real + 1.0
    ensures r < 0.0 ==> t as real - 1.0 < r <= t as real
  {
    if r >= 0.0 then r.Floor else -((-r).Floor)
  }

  /** `(int)(c - PATCH_SIZE / 2) >> level`: the top-left coordinate of a
      feature's patch at a level. An arithmetic right shift by k is the
      division by 2^k rounding down, which is Dafny's division by a
      positive divisor. */
  function Start(c: real, level: nat): int
  {
    Trunc(c - (PATCH_SIZE / 2) as real) / Pow2(level)
  }

  /** An image a patch can be gathered from. */
  predicate Usable(image: Image)
    reads image.data
  {
    image.data != null && ValidImage(image) && image.width > 0 && image.height > 0
  }

  /** The patch `construct` stores for a feature at a level. */
  function LevelPatch(image: Image, point: KeyPoint, level: nat): (patch: Patch)
    reads image.data
    requires Usable(image)
    ensures patch.origin == Vec2(Start(point.point.x, level) as real, Start(point.point.y, level) as real)
  {
    PatchOf(image, Start(point.point.x, level), Start(point.point.y, level))
  }

  /** `PatchPyramid`: a fixed table of 74 features by 5 levels. */
  class PatchPyramid {
    const patches: array2<Patch>

    ghost predicate Valid()
      reads this
    {
      patches.Length0 == MAX_NUMBER_OF_PATCHES_IN_PYRAMID_LEVEL && patches.Length1 == PYRAMID_LEVELS
    }

    /** Every entry starts as the empty patch. */
    constructor ()
      ensures Valid() && fresh(patches)
      ensures forall i, level | 0 <= i < patches.Length0 && 0 <= level < patches.Length1 ::
        patches[i, level] == EmptyPatch()
    {
      patches := new Patch[MAX_NUMBER_OF_PATCHES_IN_PYRAMID_LEVEL, PYRAMID_LEVELS]((i, level) => EmptyPatch());
    }

    /** `construct(image_pyramid, points, size)`. More points than the table
        holds end the program before anything is written; `exited` stands for
        that exit. Otherwise, level by level, the entry of every fresh point
        is the patch at its scaled start coordinates; the entries of stale
        points and of unused rows keep their patches. */
    method Construct(pyramid: ImagePyramid, points: seq<KeyPoint>) returns (exited: bool)
      requires Valid() && pyramid.Valid()
      requires forall level | 0 <= level < PYRAMID_LEVELS :: Usable(pyramid.At(level))
      modifies patches
      ensures exited <==> |points| > MAX_NUMBER_OF_PATCHES_IN_PYRAMID_LEVEL
      ensures exited ==> unchanged(patches)
      ensures !exited ==> forall i, level | 0 <= i < patches.Length0 && 0 <= level < PYRAMID_LEVELS ::
        patches[i, level] == if i < |points| && !points[i].stale
                             then LevelPatch(pyramid.At(level), points[i], level)
                             else old(patches[i, level])
    {
      if |points| > MAX_NUMBER_OF_PATCHES_IN_PYRAMID_LEVEL {
        return true;
      }
      exited := false;
      for level := 0 to PYRAMID_LEVELS
        invariant forall i, l | 0 <= i < patches.Length0 && 0 <= l < PYRAMID_LEVELS ::
          patches[i, l] == if l < level && i < |points| && !points[i].stale
                           then LevelPatch(pyramid.At(l), points[i], l)
                           else old(patches[i, l])
      {
        ConstructLevel(pyramid, points, level);
      }
    }

    /** One round of the level loop of `construct`: the entry of every fresh
        point at `level` gets its patch, every other entry is kept. */
    method ConstructLevel(pyramid: ImagePyramid, points: seq<KeyPoint>, level: nat)
      requires Valid() && pyramid.Valid() && level < PYRAMID_LEVELS
      requires Usable(pyramid.At(level)) && |points| <= patches.Length0
      modifies patches
      ensures forall i, l | 0 <= i < patches.Length0 && 0 <= l < PYRAMID_LEVELS ::
        patches[i, l] == if l == level && i < |points| && !points[i].stale
                         then LevelPatch(pyramid.At(level), points[i], level)
                         else old(patches[i, l])
    {
      var image := pyramid.At(level);
      for i := 0 to |points|
        invariant forall ii, l | 0 <= ii < patches.Length0 && 0 <= l < PYRAMID_LEVELS ::
          patches[ii, l] == if l == level && ii < i && !points[ii].stale
                            then LevelPatch(image, points[ii], level)
                            else old(patches[ii, l])
      {
        if points[i].stale {
          continue;
        }
        var x := Start(points[i].point.x, level);
        var y := Start(points[i].point.y, level);
        var patch := PatchAt(x, y, image);
        patches[i, level] := patch;
      }
    }
  }

  // ------------------------------------------------------------ properties

  /** Euclidean division is determined by its quotient-remainder form. */
  lemma DivUnique(a: int, d: nat, q: int, r: int)
    requires d > 0 && a == d * q + r && 0 <= r < d
    ensures a / d == q
  {
    var q0, r0 := a / d, a % d;
    assert a == d * q0 + r0 && 0 <= r0 < d;
    if q0 < q {
      MulMonotone(1, q - q0, d);
      assert false;
    } else if q0 > q {
      MulMonotone(1, q0 - q, d);
      assert false;
    }
  }

  /** Shifting right by k + 1 is shifting right by k and then by one. */
  lemma DivHalf(a: int, d: nat)
    requires d > 0
    ensures a / (d * 2) == (a / d) / 2
  {
    var q, r := a / d, a % d;
    var q2, r2 := q / 2, q % 2;
    assert a == (d * 2) * q2 + (d * r2 + r) by {
      assert d * q == d * (2 * q2) + d * r2;
      assert d * (2 * q2) == (d * 2) * q2;
    }
    assert 0 <= d * r2 + r < d * 2 by {
      assert r2 == 0 || r2 == 1;
    }
    DivUnique(a, d * 2, q2, d * r2 + r);
  }

  /** A patch's start coordinate at the next level is half the coordinate
      at this level, rounded down, as the level's image is half the size. */
  lemma StartHalves(c: real, level: nat)
    ensures Start(c, level + 1) == Start(c, level) / 2
  {
    assert Pow2(level + 1) == Pow2(level) * 2;
    DivHalf(Trunc(c - (PATCH_SIZE / 2) as real), Pow2(level));
  }

  /** Column i of row j of the patch a fresh feature gets at a level is the
      level's pixel at (Start(x) + i, Start(y) + j), clamped into the
      image, with (x, y) the feature's point. */
  lemma LevelPatchRow(image: Image, point: KeyPoint, level: nat, j: nat, i: nat)
    requires Usable(image) && j < PATCH_SIZE && i < PATCH_SIZE
    ensures
      var x, y := Start(point.point.x, level), Start(point.point.y, level);
      Row(LevelPatch(image, point, level), j)[i]
        == Sample(Pixels(image), image.width, image.height, x + i, y + j)
  {
    RowOfGathered(Pixels(image), image.width, image.height,
                  Start(point.point.x, level), Start(point.point.y, level), j, i);
  }
}
