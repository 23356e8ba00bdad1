/** The image pyramid: level 0 is the source image itself, levels 1 to 4
    lie one after another in a caller-provided buffer. Every level is first
    downsampled from its unblurred parent, then every level is blurred in
    place. */
module Pyramid {
  import opened Grid
  import opened ImageTypes
  import opened Filters
  import opened Downsampling

  /** `n >> k`: n halved k times, rounding down each time. */
  function Halved(n: nat, k: nat): (r: nat)
    ensures r <= n
  {
    if k == 0 then n else Halved(n, k - 1) / 2
  }

  /** Number of samples of level k of a pyramid over a w-by-h image. */
  function LevelSize(w: nat, h: nat, k: nat): nat
  {
    Halved(w, k) * Halved(h, k)
  }

  /** Where level k >= 1 starts in the pyramid buffer: after the samples
      of levels 1 to k - 1. */
  function LevelOffset(w: nat, h: nat, k: nat): (r: nat)
  {
    if k <= 1 then 0 else LevelOffset(w, h, k - 1) + LevelSize(w, h, k - 1)
  }

  /** The number of samples the pyramid buffer must hold. */
  function BufferSize(w: nat, h: nat): nat
  {
    LevelOffset(w, h, PYRAMID_LEVELS)
  }

  /** Level k before blurring: the source downsampled k times. */
  function Level(p: seq<Byte>, w: nat, h: nat, k: nat): (r: seq<Byte>)
    requires |p| == w * h
    ensures |r| == LevelSize(w, h, k)
  {
    if k == 0 then p
    else Down(Level(p, w, h, k - 1), Halved(w, k - 1), Halved(h, k - 1))
  }

  /** Level k as the finished pyramid holds it: downsampled k times, then
      blurred. */
  function BlurredLevelOf(p: seq<Byte>, w: nat, h: nat, k: nat): (r: seq<Byte>)
    requires |p| == w * h
    ensures |r| == LevelSize(w, h, k)
  {
    Blur(Level(p, w, h, k), Halved(w, k), Halved(h, k))
  }

  /** Contents for the five levels, each of its level's size. */
  ghost predicate Sized(ls: seq<seq<Byte>>, w: nat, h: nat)
  {
    |ls| == PYRAMID_LEVELS && forall k | 0 <= k < PYRAMID_LEVELS :: |ls[k]| == LevelSize(w, h, k)
  }

  /** The five levels as downsampled. */
  ghost function Levels(p: seq<Byte>, w: nat, h: nat): (ls: seq<seq<Byte>>)
    requires |p| == w * h
    ensures Sized(ls, w, h)
  {
    seq(PYRAMID_LEVELS, k requires 0 <= k < PYRAMID_LEVELS => Level(p, w, h, k))
  }

  /** The five levels as blurred. */
  ghost function BlurredLevels(p: seq<Byte>, w: nat, h: nat): (ls: seq<seq<Byte>>)
    requires |p| == w * h
    ensures Sized(ls, w, h)
  {
    seq(PYRAMID_LEVELS, k requires 0 <= k < PYRAMID_LEVELS => BlurredLevelOf(p, w, h, k))
  }

  /** The pyramid buffer that started as `b0` once levels 1 to n - 1 have
      been written into it with the contents `ls`. */
  ghost function Written(b0: seq<Byte>, ls: seq<seq<Byte>>, w: nat, h: nat, n: nat): (r: seq<Byte>)
    requires Sized(ls, w, h) && n <= PYRAMID_LEVELS && LevelOffset(w, h, n) <= |b0|
    ensures |r| == |b0|
  {
    if n <= 1 then b0
    else Splice(Written(b0, ls, w, h, n - 1), LevelOffset(w, h, n - 1), ls[n - 1])
  }

  /** The final contents of the pyramid buffer that started as `b0`: every
      level downsampled, then every level blurred. */
  ghost function Built(b0: seq<Byte>, p: seq<Byte>, w: nat, h: nat): (r: seq<Byte>)
    requires |p| == w * h && BufferSize(w, h) <= |b0|
    ensures |r| == |b0|
  {
    Written(Written(b0, Levels(p, w, h), w, h, PYRAMID_LEVELS), BlurredLevels(p, w, h), w, h, PYRAMID_LEVELS)
  }

  /** Levels start no earlier than one another. */
  lemma {:induction false} OffsetMonotone(w: nat, h: nat, i: nat, k: nat)
    requires i <= k
    ensures LevelOffset(w, h, i) <= LevelOffset(w, h, k)
  {
    if i < k {
      OffsetMonotone(w, h, i, k - 1);
    }
  }

  /** The levels in the buffer do not overlap: level i ends before level k
      starts. */
  lemma LevelsApart(w: nat, h: nat, i: nat, k: nat)
    requires 1 <= i < k
    ensures LevelOffset(w, h, i) + LevelSize(w, h, i) <= LevelOffset(w, h, k)
  {
    OffsetMonotone(w, h, i + 1, k);
    assert LevelOffset(w, h, i + 1) == LevelOffset(w, h, i) + LevelSize(w, h, i);
  }

  /** Levels only get smaller. */
  lemma {:induction false} HalvedMonotone(n: nat, i: nat, k: nat)
    requires i <= k
    ensures Halved(n, k) <= Halved(n, i)
  {
    if i < k {
      HalvedMonotone(n, i, k - 1);
    }
  }

  /** Writing levels 1 to n - 1 leaves the buffer from level n on alone. */
  lemma {:induction false} WrittenBeyond(b0: seq<Byte>, ls: seq<seq<Byte>>, w: nat, h: nat, n: nat, lo: nat, hi: nat)
    requires Sized(ls, w, h) && n <= PYRAMID_LEVELS && LevelOffset(w, h, n) <= lo <= hi <= |b0|
    ensures Written(b0, ls, w, h, n)[lo .. hi] == b0[lo .. hi]
  {
    if n > 1 {
      WrittenBeyond(b0, ls, w, h, n - 1, lo, hi);
      SpliceOutside(Written(b0, ls, w, h, n - 1), LevelOffset(w, h, n - 1), ls[n - 1], lo, hi);
    }
  }

  /** After writing levels 1 to n - 1, level k < n holds its contents. */
  lemma {:induction false} WrittenLevel(b0: seq<Byte>, ls: seq<seq<Byte>>, w: nat, h: nat, n: nat, k: nat)
    requires Sized(ls, w, h) && n <= PYRAMID_LEVELS && LevelOffset(w, h, n) <= |b0| && 1 <= k < n
    ensures LevelOffset(w, h, k) + LevelSize(w, h, k) <= LevelOffset(w, h, n)
    ensures Written(b0, ls, w, h, n)[LevelOffset(w, h, k) .. LevelOffset(w, h, k) + LevelSize(w, h, k)] == ls[k]
  {
    LevelsApart(w, h, k, n);
    if k == n - 1 {
      WrittenLast(b0, ls, w, h, n, k);
    } else {
      WrittenLevel(b0, ls, w, h, n - 1, k);
      WrittenEarlier(b0, ls, w, h, n, k);
    }
  }

  /** Writing level n - 1 puts it in place. */
  lemma WrittenLast(b0: seq<Byte>, ls: seq<seq<Byte>>, w: nat, h: nat, n: nat, k: nat)
    requires Sized(ls, w, h) && n <= PYRAMID_LEVELS && LevelOffset(w, h, n) <= |b0| && 1 <= k && k + 1 == n
    ensures LevelOffset(w, h, k) + LevelSize(w, h, k) <= |b0|
    ensures Written(b0, ls, w, h, n)[LevelOffset(w, h, k) .. LevelOffset(w, h, k) + LevelSize(w, h, k)] == ls[k]
  {
    SplicedRun(Written(b0, ls, w, h, k), LevelOffset(w, h, k), ls[k], Written(b0, ls, w, h, n));
  }

  /** Writing level n - 1 keeps an earlier level k. */
  lemma WrittenEarlier(b0: seq<Byte>, ls: seq<seq<Byte>>, w: nat, h: nat, n: nat, k: nat)
    requires Sized(ls, w, h) && n <= PYRAMID_LEVELS && LevelOffset(w, h, n) <= |b0| && 1 <= k < n - 1
    requires LevelOffset(w, h, k) + LevelSize(w, h, k) <= LevelOffset(w, h, n - 1)
    requires Written(b0, ls, w, h, n - 1)[LevelOffset(w, h, k) .. LevelOffset(w, h, k) + LevelSize(w, h, k)] == ls[k]
    ensures Written(b0, ls, w, h, n)[LevelOffset(w, h, k) .. LevelOffset(w, h, k) + LevelSize(w, h, k)] == ls[k]
  {
    RunKept(Written(b0, ls, w, h, n - 1), LevelOffset(w, h, n - 1), ls[n - 1],
            LevelOffset(w, h, k), LevelOffset(w, h, k) + LevelSize(w, h, k), ls[k], Written(b0, ls, w, h, n));
  }

  /** In the built pyramid buffer, level k (1 <= k < 5) holds the source
      downsampled k times and then blurred. */
  lemma BuiltLevel(b0: seq<Byte>, p: seq<Byte>, w: nat, h: nat, k: nat)
    requires |p| == w * h && BufferSize(w, h) <= |b0| && 1 <= k < PYRAMID_LEVELS
    ensures LevelOffset(w, h, k) + LevelSize(w, h, k) <= BufferSize(w, h)
    ensures Built(b0, p, w, h)[LevelOffset(w, h, k) .. LevelOffset(w, h, k) + LevelSize(w, h, k)]
         == Blur(Level(p, w, h, k), Halved(w, k), Halved(h, k))
  {
    var f := Written(b0, Levels(p, w, h), w, h, PYRAMID_LEVELS);
    WrittenLevel(f, BlurredLevels(p, w, h), w, h, PYRAMID_LEVELS, k);
  }

  /** Building the pyramid writes nothing past its last level. */
  lemma BuiltBeyond(b0: seq<Byte>, p: seq<Byte>, w: nat, h: nat)
    requires |p| == w * h && BufferSize(w, h) <= |b0|
    ensures Built(b0, p, w, h)[BufferSize(w, h) ..] == b0[BufferSize(w, h) ..]
  {
    var n := BufferSize(w, h);
    var f := Written(b0, Levels(p, w, h), w, h, PYRAMID_LEVELS);
    WrittenBeyond(f, BlurredLevels(p, w, h), w, h, PYRAMID_LEVELS, n, |b0|);
    WrittenBeyond(b0, Levels(p, w, h), w, h, PYRAMID_LEVELS, n, |b0|);
    SuffixesEqual(Built(b0, p, w, h), b0, n);
  }

  /** `ImagePyramid`: the five levels of a pyramid. Level 0 views the source
      image, level k >= 1 views `Halved(w, k)` by `Halved(h, k)` samples at
      `LevelOffset(w, h, k)` in the pyramid buffer. */
  class ImagePyramid {
    var images: seq<Image>

    /** The width, height, buffer and offset relations between the levels. */
    ghost predicate Valid()
      reads this
    {
      |images| == PYRAMID_LEVELS
      && forall k | 1 <= k < PYRAMID_LEVELS ::
           images[k].data == images[1].data
           && images[k].width == Halved(images[0].width, k)
           && images[k].height == Halved(images[0].height, k)
           && images[k].offset == LevelOffset(images[0].width, images[0].height, k)
    }

    /** `ImagePyramid(source, pyramid_buffer)`: downsamples level k - 1,
        still unblurred, into level k for k = 1 to 4, then blurs every level
        in place, level 0 (the source samples) included. Every level must
        have at least two rows, as `blur_inplace` requires, and the buffer
        must be large enough for levels 1 to 4. */
    constructor (source: Image, pyramidBuffer: array<Byte>)
      requires source.data != null && ValidImage(source) && source.data != pyramidBuffer
      requires BufferSize(source.width, source.height) <= pyramidBuffer.Length
      requires Halved(source.height, PYRAMID_LEVELS - 1) >= 2
      modifies source.data, pyramidBuffer
      ensures Valid() && images[0] == source
      ensures forall k | 1 <= k < PYRAMID_LEVELS :: images[k].data == pyramidBuffer
      ensures source.data[..]
           == Splice(old(source.data[..]), source.offset, Blur(old(Pixels(source)), source.width, source.height))
      ensures pyramidBuffer[..] == Built(old(pyramidBuffer[..]), old(Pixels(source)), source.width, source.height)
    {
      ghost var w, h := source.width, source.height;
      ghost var p, b0 := Pixels(source), pyramidBuffer[..];
      var levels := DownsampleLevels(source, pyramidBuffer, p, b0);
      BlurLevels(source, levels, pyramidBuffer, p, source.data[..], b0, pyramidBuffer[..]);
      images := levels;
    }

    /** `at(pyramid_level)`: the view of one level. */
    function At(level: nat): (img: Image)
      reads this
      requires Valid() && level < PYRAMID_LEVELS
      ensures img.width == Halved(images[0].width, level) && img.height == Halved(images[0].height, level)
      ensures level == 0 ==> img == images[0]
      ensures level > 0 ==> img.data == images[1].data && img.offset == LevelOffset(images[0].width, images[0].height, level)
    {
      images[level]
    }
  }

  /** The views the downsampling loop leaves: the source at level 0, level
      k >= 1 in the buffer at its offset. */
  ghost predicate Views(levels: seq<Image>, source: Image, buffer: array<Byte>, n: nat)
  {
    |levels| == n >= 1 && levels[0] == source
    && forall k | 1 <= k < n ::
         levels[k] == Image(buffer, LevelOffset(source.width, source.height, k),
                            Halved(source.width, k), Halved(source.height, k))
  }

  /** The downsampling loop of the pyramid constructor: level i is
      downsampled from level i - 1 into the buffer, for i = 1 to 4. */
  method DownsampleLevels(source: Image, buffer: array<Byte>, ghost p: seq<Byte>, ghost b0: seq<Byte>)
    returns (levels: seq<Image>)
    requires source.data != null && ValidImage(source) && source.data != buffer
    requires p == Pixels(source) && |p| == source.width * source.height
    requires b0 == buffer[..] && BufferSize(source.width, source.height) <= |b0|
    modifies buffer
    ensures Views(levels, source, buffer, PYRAMID_LEVELS)
    ensures buffer[..] == Written(b0, Levels(p, source.width, source.height), source.width, source.height, PYRAMID_LEVELS)
  {
    ghost var w, h := source.width, source.height;
    ghost var ls := Levels(p, w, h);
    levels := [source];
    var offset: nat := 0;
    for i := 1 to PYRAMID_LEVELS
      invariant Views(levels, source, buffer, i)
      invariant offset == LevelOffset(w, h, i) <= BufferSize(w, h)
      invariant buffer[..] == Written(b0, ls, w, h, i)
    {
      var next := DownsampleLevel(levels, source, buffer, offset, i, p, ls, b0);
      levels := levels + [next];
      offset := offset + next.width * next.height;
    }
  }

  /** One step of the downsampling loop: level i is downsampled from level
      i - 1 into the buffer at `offset`. */
  method DownsampleLevel(levels: seq<Image>, source: Image, buffer: array<Byte>, offset: nat, i: nat,
                         ghost p: seq<Byte>, ghost ls: seq<seq<Byte>>, ghost b0: seq<Byte>)
    returns (next: Image)
    requires 1 <= i < PYRAMID_LEVELS && Views(levels, source, buffer, i)
    requires source.data != null && source.data != buffer && ValidImage(source)
    requires |p| == source.width * source.height && Pixels(source) == p
    requires ls == Levels(p, source.width, source.height)
    requires |b0| == buffer.Length && BufferSize(source.width, source.height) <= |b0|
    requires offset == LevelOffset(source.width, source.height, i) <= BufferSize(source.width, source.height)
    requires buffer[..] == Written(b0, ls, source.width, source.height, i)
    modifies buffer
    ensures next == Image(buffer, offset, Halved(source.width, i), Halved(source.height, i))
    ensures LevelOffset(source.width, source.height, i + 1) <= BufferSize(source.width, source.height)
    ensures buffer[..] == Written(b0, ls, source.width, source.height, i + 1)
  {
    ghost var w, h := source.width, source.height;
    var parent := levels[i - 1];
    if i > 1 {
      WrittenLevel(b0, ls, w, h, i, i - 1);
    }
    assert Pixels(parent) == ls[i - 1];
    OffsetMonotone(w, h, i + 1, PYRAMID_LEVELS);
    ghost var before := buffer[..];
    next := Downsample(parent, Image(buffer, offset, 0, 0));
    DownsampledNext(b0, ls, p, w, h, i, before, buffer[..]);
  }

  /** Downsampling level i - 1 into level i after levels 1 to i - 1 gives
      the buffer with levels 1 to i written. */
  lemma DownsampledNext(b0: seq<Byte>, ls: seq<seq<Byte>>, p: seq<Byte>, w: nat, h: nat, i: nat,
                        before: seq<Byte>, after: seq<Byte>)
    requires |p| == w * h && ls == Levels(p, w, h) && 1 <= i < PYRAMID_LEVELS
    requires LevelOffset(w, h, i + 1) <= |b0| && before == Written(b0, ls, w, h, i)
    requires after == Splice(before, LevelOffset(w, h, i), Down(ls[i - 1], Halved(w, i - 1), Halved(h, i - 1)))
    ensures after == Written(b0, ls, w, h, i + 1)
  {
    assert Down(ls[i - 1], Halved(w, i - 1), Halved(h, i - 1)) == ls[i];
  }

  /** The blur loop of the pyramid constructor: every level, the source
      included, is blurred in place. */
  method BlurLevels(source: Image, levels: seq<Image>, buffer: array<Byte>,
                    ghost p: seq<Byte>, ghost s0: seq<Byte>, ghost b0: seq<Byte>, ghost f: seq<Byte>)
    requires Views(levels, source, buffer, PYRAMID_LEVELS)
    requires source.data != null && ValidImage(source) && source.data != buffer
    requires Halved(source.height, PYRAMID_LEVELS - 1) >= 2
    requires p == Pixels(source) && |p| == source.width * source.height
    requires s0 == source.data[..] && f == buffer[..] && |b0| == |f|
    requires BufferSize(source.width, source.height) <= |f|
    requires f == Written(b0, Levels(p, source.width, source.height), source.width, source.height, PYRAMID_LEVELS)
    modifies source.data, buffer
    ensures source.data[..] == Splice(s0, source.offset, Blur(p, source.width, source.height))
    ensures buffer[..] == Written(f, BlurredLevels(p, source.width, source.height),
                                  source.width, source.height, PYRAMID_LEVELS)
  {
    ghost var w, h := source.width, source.height;
    ghost var ls, bs := Levels(p, w, h), BlurredLevels(p, w, h);
    HalvedMonotone(h, 0, PYRAMID_LEVELS - 1);
    BlurImage(source);
    ghost var s1 := source.data[..];
    LevelsBlurred(p, w, h);
    for i := 1 to PYRAMID_LEVELS
      invariant LevelOffset(w, h, i) <= BufferSize(w, h)
      invariant buffer[..] == Written(f, bs, w, h, i)
      invariant source.data[..] == s1
    {
      HalvedMonotone(h, i, PYRAMID_LEVELS - 1);
      OffsetMonotone(w, h, i + 1, PYRAMID_LEVELS);
      WrittenLevel(b0, ls, w, h, PYRAMID_LEVELS, i);
      BlurLevel(levels[i], buffer, i, w, h, ls, bs, f);
    }
  }

  /** Blurred level contents `bs` for the downsampled contents `ls`. */
  ghost predicate BlurredOf(ls: seq<seq<Byte>>, bs: seq<seq<Byte>>, w: nat, h: nat)
    requires Sized(ls, w, h) && Sized(bs, w, h)
  {
    forall k | 0 <= k < PYRAMID_LEVELS :: bs[k] == Blur(ls[k], Halved(w, k), Halved(h, k))
  }

  /** The levels as blurred are the levels as downsampled, blurred. */
  lemma LevelsBlurred(p: seq<Byte>, w: nat, h: nat)
    requires |p| == w * h
    ensures BlurredOf(Levels(p, w, h), BlurredLevels(p, w, h), w, h)
  {
  }

  /** One step of the blur loop for a level i >= 1: the level, still as
      downsampled, is blurred in place. */
  method BlurLevel(level: Image, buffer: array<Byte>, i: nat, ghost w: nat, ghost h: nat,
                   ghost ls: seq<seq<Byte>>, ghost bs: seq<seq<Byte>>, ghost f: seq<Byte>)
    requires 1 <= i < PYRAMID_LEVELS && Halved(h, i) >= 2
    requires level == Image(buffer, LevelOffset(w, h, i), Halved(w, i), Halved(h, i))
    requires Sized(ls, w, h) && Sized(bs, w, h) && BlurredOf(ls, bs, w, h)
    requires |f| == buffer.Length && BufferSize(w, h) <= |f|
    requires LevelOffset(w, h, i + 1) <= BufferSize(w, h)
    requires LevelOffset(w, h, i) + LevelSize(w, h, i) <= |f|
    requires f[LevelOffset(w, h, i) .. LevelOffset(w, h, i) + LevelSize(w, h, i)] == ls[i]
    requires buffer[..] == Written(f, bs, w, h, i)
    modifies buffer
    ensures buffer[..] == Written(f, bs, w, h, i + 1)
  {
    ghost var before := buffer[..];
    ghost var lo := LevelOffset(w, h, i);
    WrittenBeyond(f, bs, w, h, i, lo, lo + LevelSize(w, h, i));
    ghost var q := Pixels(level);
    assert q == ls[i];
    BlurImage(level);
    BlurredNext(f, ls, bs, w, h, i, before, q, buffer[..]);
  }

  /** Blurring level i in place after levels 1 to i - 1 gives the buffer
      with levels 1 to i blurred. */
  lemma BlurredNext(f: seq<Byte>, ls: seq<seq<Byte>>, bs: seq<seq<Byte>>, w: nat, h: nat, i: nat,
                    before: seq<Byte>, q: seq<Byte>, after: seq<Byte>)
    requires Sized(ls, w, h) && Sized(bs, w, h) && BlurredOf(ls, bs, w, h) && 1 <= i < PYRAMID_LEVELS
    requires LevelOffset(w, h, i + 1) <= |f| && before == Written(f, bs, w, h, i) && q == ls[i]
    requires after == Splice(before, LevelOffset(w, h, i), Blur(q, Halved(w, i), Halved(h, i)))
    ensures after == Written(f, bs, w, h, i + 1)
  {
    assert Blur(q, Halved(w, i), Halved(h, i)) == bs[i];
  }
}
