# Image pyramids, patches and pyramidal Lucas-Kanade tracking

This project models the image-processing core of a visual-inertial
odometry front end written in C++ for a microcontroller:

- 8-bit greyscale image views;
- the in-place Gaussian blur;
- the 2x2 box downsampling, into another view or in place;
- the five-level image pyramid built in one caller-supplied buffer;
- 7x7 feature patches with a one-sample border, and their Sobel
  gradients and time difference;
- the patch pyramid;
- the control flow of the pyramidal Lucas-Kanade feature tracker;
- the shortlex quicksort of C strings from the utility library.

Each part of the model has the form of the code it stands for.

- **Buffers are arrays.** An image view is a value holding a reference to
  a sample `array`, an offset into it, a width and a height. The offset
  stands for the address arithmetic `pyramid_buffer + offset`.
- **Loops are loops.** The blur, the two downsampling routines, the patch
  gather, `dx`/`dy`/`dt`, the pyramid constructor, `construct`, the
  tracker and the quicksort are methods with the loops of the source.
- **Each method is proved against a specification function.** The
  specification functions are written out of place, on `seq` values:
  `Blur`, `Down`, `Built`, `Gathered`, `GradientX`/`GradientY`,
  `Difference`, `LevelPatch`, `Tracked` and `Sorted`/`multiset`. Lemmas
  then state what those functions mean.

The modules are:

- `ImageTypes`: the constants and structs of `image.h`.
- `Filters`: `clamp` and `blur_inplace`. Its three-row ring buffer is
  proved to give the out-of-place blur of the original image.
- `Downsampling`: `downsample` and `downsample_inplace`. The views of
  `downsample` may share one buffer, as long as they do not overlap.
- `Pyramid`: the `ImagePyramid` class.
- `Patches`: the `Patch` gather at integer coordinates, `row`, `dx`, `dy`
  and `dt`.
- `PatchPyramids`: the `PatchPyramid` class and `construct`.
- `Tracking`: `track_features`.
- `Algorithm`: `swap` and `quicksort`.
- `Grid`, `Buffers` and `Vectors`: shared layout lemmas, `memcpy`, and
  the part of `linalg::Vec2` that the tracker uses.

Design choices:

- Samples have the type `Byte` (0 to 255). The type, together with the
  guard that proves no stored value needs more than eight bits, shows that
  the `uint8_t` stores of the blur and the averages never truncate.
- The numeric step of the tracker is a pair of function parameters:
  - `step(level, feature, flow)` gives the summed absolute error of the
    time difference and the increment that the inverted structure tensor
    gives;
  - `singular(level, feature)` says whether the determinant of the
    structure tensor is NaN or infinite.

  The loop structure and the bookkeeping around them are modelled
  exactly: the flow table, the acceptance test, the iteration count, the
  break, stale features, the hand-down of twice the displacement, and
  the rounding and bounds check of the output keypoint.

## Model

| member | source | states |
|---|---|---|
| ImageTypes.EmptyImage | src/vio/image.h:45 | the empty image has no buffer, zero width and height, and covers no samples |
| ImageTypes.ImageOf | src/vio/image.h:56-59 | the view shares the given buffer without copying; its samples are the first width*height entries of the buffer |
| ImageTypes.EmptyPatch | src/vio/image.h:174 | every one of the 81 cells is zero and the origin is (0, 0) |
| ImageTypes.Row | src/vio/image.cpp:266-268 | `row(j)` has seven entries; entry i is cell (j + 1, i + 1) of the bordered 9x9 grid |
| ImageTypes.DefaultKeyPoint | src/vio/image.h:205-209 | the point is (0, 0) and the keypoint is not stale |
| ImageTypes.KeyPointAt | src/vio/image.h:211-215 | the point is (x, y) and the keypoint is not stale |
| Filters.Clamp | src/vio/image.cpp:16-29 | a value below min gives min; otherwise a value above max gives max; otherwise the value. When min <= max the result lies in [min, max], and it equals the value exactly when the value is in range |
| Filters.Horizontal | src/vio/image.cpp:91-107 | three samples each shifted right by 2, 1 and 2 add up to at most 253, so the sum fits in a byte |
| Buffers.Memcpy | src/vio/image.cpp:70-71 | `memcpy` between two distinct buffers writes the n samples from the source run over the destination from its offset on, changes nothing else there and leaves the source alone; every copy of the blur and of the in-place downsampling is this member |
| Filters.BlurKeepsBorder | src/vio/image.cpp:73-110 | the blur does not change the first and last rows or the first and last columns |
| Filters.BlurIsLocal | src/vio/image.cpp:84-109 | an interior pixel of the blur is the shift kernel applied to its original 3x3 neighbourhood; two images with the same neighbourhood there blur to the same value |
| Filters.BlurKernelBounded | src/vio/image.cpp:91-109 | the blurred value never exceeds the brightest of its nine samples |
| Filters.BlurRow | src/vio/image.cpp:84-110 | the column loop writes the kernel over the three buffered rows into columns 1 to width - 2 and writes nothing else |
| Filters.BlurStep | src/vio/image.cpp:73-111 | one row of the row loop: the original row y + 1 goes into the ring slot of row y - 2, row y comes out blurred, and the ring slots of rows y and y + 1 still hold the original rows |
| Filters.CopyNextRow | src/vio/image.cpp:80-82 | the original row y + 1 is copied over the slot of row y - 2; the slots then hold the original rows y - 1, y and y + 1 |
| Filters.BlurMiddleRow | src/vio/image.cpp:84-110 | blurring row y from the three buffered original rows takes the image from the state with rows 1 to y - 1 blurred to the state with row y blurred too |
| Filters.StartRing | src/vio/image.cpp:55-71 | the slot of row i is (i % 3) * width, and rows 0 and 1 are copied into their slots |
| Filters.CopyFirstRows | src/vio/image.cpp:70-71 | after the two copies, the ring slots of rows 0 and 1 hold those original rows |
| Filters.CopyRow | src/vio/image.cpp:70-71 | one copy of image row k into its ring slot writes that slot and nothing else, and the slot then holds row k |
| Filters.BlurAllRows | src/vio/image.cpp:73-111 | the row loop over the filled ring buffer leaves the out-of-place blur of the original image and nothing else changed |
| Filters.BlurInPlace | src/vio/image.cpp:31-112 | the image at `offset` is replaced by the out-of-place blur of its original samples; the rest of the buffer is unchanged |
| Filters.BlurImage | src/vio/image.cpp:114-116 | the samples of the view are replaced by their blur; the rest of the buffer is unchanged |
| Downsampling.BlockMean | src/vio/image.cpp:139-145 | the stored average r of four samples satisfies 4r <= sum < 4r + 4 |
| Downsampling.DownIndex | src/vio/image.cpp:161-173 | output pixel (j, i) is the floor of a quarter of the sum of the four samples at the flat indices the loop reads |
| Downsampling.DownOfConstantBlock | src/vio/image.cpp:161-173 | a block of four equal samples c gives c |
| Downsampling.DownWithinRange | src/vio/image.cpp:161-173 | if every sample lies in [lo, hi], so does every sample of the downsampled image |
| Downsampling.DownRowFromRows | src/vio/image.cpp:137-146 | output row j depends only on source rows 2j and 2j + 1 |
| Downsampling.DownRow | src/vio/image.cpp:137-146 | the column loop writes the averaged row from `start` on and changes nothing else |
| Downsampling.Downsample | src/vio/image.cpp:153-176 | the destination gets half the width and half the height, rounded down; its samples become the downsampled source; the rest of its buffer and the source samples are unchanged, also when both views lie in one buffer and do not overlap |
| Downsampling.DownApart | src/vio/image.cpp:161-175 | the row loop into a different buffer writes exactly the downsampled image at the destination offset |
| Downsampling.DownShared | src/vio/image.cpp:161-175 | the row loop with both views in one buffer writes the downsampled image and leaves the source view as it was |
| Downsampling.DownStep | src/vio/image.cpp:161-175 | one row of the loop into another buffer extends the written rows of the downsampled image by row j |
| Downsampling.DownSharedStep | src/vio/image.cpp:161-175 | one row of the loop with both views in one buffer extends the written rows by row j, which is computed from the still original source rows 2j and 2j + 1 |
| Downsampling.RowsStillOriginal | src/vio/image.cpp:128-135 | when output row j is due, the rows written so far have not reached source rows 2j and 2j + 1, so the two copies read original samples |
| Downsampling.CopyTwoRows | src/vio/image.cpp:130-135 | the two copies fill the row buffer with source rows 2j and 2j + 1, one after the other |
| Downsampling.DownInPlaceStep | src/vio/image.cpp:128-146 | one round of the in-place row loop extends the written rows of the downsampled image by row j |
| Downsampling.DownInPlaceRows | src/vio/image.cpp:128-147 | the in-place row loop leaves the downsampled original image at the start of the view |
| Downsampling.DownsampleInPlace | src/vio/image.cpp:118-151 | the view keeps its buffer and offset and gets the halved dimensions; its first (w/2)*(h/2) samples are the downsampled original and the rest of the buffer is unchanged |
| Pyramid.LevelsApart | src/vio/image.cpp:185-193 | levels 1 to 4 lie one after the other in the buffer without overlapping |
| Pyramid.DownsampleLevels | src/vio/image.cpp:185-193 | level k >= 1 is a view into the buffer at the summed sizes of levels 1 to k - 1, and holds the source downsampled k times |
| Pyramid.DownsampleLevel | src/vio/image.cpp:188-192 | level i becomes the view at the summed sizes of levels 1 to i - 1 with the halved dimensions, and the buffer holds levels 1 to i downsampled |
| Pyramid.BlurLevels | src/vio/image.cpp:196-199 | every level is blurred in place: the source samples, and each level of the buffer with nothing else written |
| Pyramid.BlurLevel | src/vio/image.cpp:196-199 | blurring level i in place adds its blur to the blurred levels 1 to i - 1 and writes nothing else |
| Pyramid.ImagePyramid.constructor | src/vio/image.cpp:179-200 | level 0 is the source view, blurred in place; levels 1 to 4 are views into the buffer with the halved dimensions, and the buffer is `Built` |
| Pyramid.BuiltLevel | src/vio/image.cpp:185-199 | in the finished buffer, level k holds the source downsampled k times and then blurred, not a blur of an already blurred level |
| Pyramid.BuiltBeyond | src/vio/image.cpp:185-199 | nothing past the last level is written |
| Pyramid.ImagePyramid.At | src/vio/image.cpp:202-204 | level k has the level-0 width and height halved k times; level 0 is the source, and every other level lies in the pyramid buffer at its offset |
| Patches.GatherNeighbourhood | src/vio/image.cpp:211-236 | the 11x11 gather buffer holds, for every cell, the sample at clamped coordinates two columns and two rows up and left of the start point |
| Patches.GatherInBounds | src/vio/image.cpp:225-234 | every index the gather reads lies inside the image |
| Patches.PatchAt | src/vio/image.cpp:208-264 | at integer coordinates the patch stores the gathered sample one cell down and right for each of the 81 cells, and its origin is (x, y) |
| Patches.RowOfGathered | src/vio/image.cpp:208-268 | `row(j)[i]` of a patch built at (x, y) is the image sample at (x + i, y + j), clamped into the image |
| Patches.GatheredInside | src/vio/image.cpp:208-264 | when the bordered patch lies inside the image, no coordinate is clamped and cell (j, i) is the pixel at (x + i - 1, y + j - 1) |
| Patches.GradientXCell | src/vio/image.cpp:282-311 | an inner cell gets the x Sobel kernel of the source and a border cell keeps its old value |
| Patches.GradientXRow | src/vio/image.cpp:282-311 | one row j of the loop of `dx` gives the inner cells of row j their x gradient and leaves the later cells as they were |
| Patches.GradientYCell | src/vio/image.cpp:313-341 | an inner cell gets the y Sobel kernel of the source and a border cell keeps its old value |
| Patches.GradientYRow | src/vio/image.cpp:313-341 | one row j of the loop of `dy` gives the inner cells of row j their y gradient and leaves the later cells as they were |
| Patches.Dx | src/vio/image.cpp:282-311 | the destination gets the origin of the source and the x gradient at the inner cells; the border is unchanged |
| Patches.Dy | src/vio/image.cpp:313-341 | the destination gets the origin of the source and the y gradient at the inner cells; the border is unchanged |
| Patches.Dt | src/vio/image.cpp:343-354 | every cell becomes second minus first, and the origin is that of the first patch |
| Patches.GradientOfPlane | src/vio/image.cpp:282-341 | on a patch a*column + b*row + c, the x gradient is 8a and the y gradient 8b at every inner cell, so a constant patch has no gradient |
| Patches.GradientYIsTransposedX | src/vio/image.cpp:282-341 | the y gradient at (j, i) is the x gradient of the transposed patch at (i, j) |
| Patches.DifferenceRestores | src/vio/image.cpp:343-354 | the first patch plus the difference gives the second; the difference of a patch with itself is zero |
| PatchPyramids.Trunc | src/vio/image.cpp:378-386 | the conversion to an integer truncates toward zero |
| PatchPyramids.LevelPatch | src/vio/image.cpp:378-391 | the patch of a feature at level l has its origin at the truncated point minus 3, shifted right by l |
| PatchPyramids.StartHalves | src/vio/image.cpp:378-386 | the start coordinate at level l + 1 is half the one at level l, rounded down |
| PatchPyramids.LevelPatchRow | src/vio/image.cpp:378-391 | row j, column i of a feature's patch at a level is the level pixel at (start x + i, start y + j), clamped into the image |
| PatchPyramids.PatchPyramid.constructor | src/vio/image.h:226-227 | the 74x5 table starts with every entry the empty patch |
| PatchPyramids.PatchPyramid.ConstructLevel | src/vio/image.cpp:370-398 | at one level every fresh point gets its patch and every other entry is kept |
| PatchPyramids.PatchPyramid.Construct | src/vio/image.cpp:356-400 | more than 74 points exit before anything is written, and exactly then; otherwise every fresh point gets its patch at every level, and stale points and unused rows keep theirs |
| Tracking.RefinementStep | src/vio/feature_tracking.cpp:141-178 | an error not below the best so far leaves the flow unchanged; an accepted increment is added, and the loop goes on only while the increment is longer than 0.01 and fewer than 50 rounds have been counted |
| Tracking.RefinementBounds | src/vio/feature_tracking.cpp:130-178 | the loop body runs between 1 and 51 times; the accepted errors fall strictly and stay below FLT_MAX; only the last round can be rejected; the flow is the sum of the accepted increments |
| Tracking.Refine | src/vio/feature_tracking.cpp:130-178 | the do-while loop returns the flow the refinement specification gives |
| Tracking.ZeroEnds | src/vio/feature_tracking.cpp:177-178 | a zero increment ends the loop |
| Tracking.RefinementStill | src/vio/feature_tracking.cpp:141-178 | a refinement whose first increment is zero ends with the flow it started from |
| Tracking.CutFrom | src/vio/feature_tracking.cpp:31-128 | the feature loop of a level breaks at the first fresh feature whose structure tensor is singular; every feature before that is stale or regular |
| Tracking.Round | src/vio/feature_tracking.cpp:192-198 | `round` gives the nearest integer, halves away from zero |
| Tracking.Output | src/vio/feature_tracking.cpp:188-209 | the output point is the rounded centre of the previous patch moved by the displacement; it is stale exactly when it lies outside the level-0 image |
| Tracking.NothingSingular | src/vio/feature_tracking.cpp:25-212 | with no singular tensor no level breaks: a stale feature comes out marked stale with its point untouched, and a fresh one gets its tracked keypoint |
| Tracking.StandingStill | src/vio/feature_tracking.cpp:22-187 | when the solve never moves a feature, the table hands no flow down and every displacement is zero |
| Tracking.MarkStale | src/vio/feature_tracking.cpp:35-38 | a stale feature's output is marked stale, its point is kept, and it hands no flow on |
| Tracking.HandDown | src/vio/feature_tracking.cpp:180-187 | above level 0 the entry of the level below becomes twice the displacement, and no other entry changes |
| Tracking.WriteOutput | src/vio/feature_tracking.cpp:188-209 | at level 0 the feature's keypoint becomes `Output`; no other keypoint changes |
| Tracking.TrackFeature | src/vio/feature_tracking.cpp:40-209 | a fresh feature reached by the loop is refined from its inherited flow and then handed down, or written out at level 0 |
| Tracking.TrackLevel | src/vio/feature_tracking.cpp:31-210 | the feature loop of one level breaks at `Cut` and fills the flow table of the level below and the keypoints as the level specification says |
| Tracking.TrackFeatures | src/vio/feature_tracking.cpp:13-212 | with the levels running from coarsest to finest and the flow table starting at zero, each of the first `size` output keypoints is `Tracked`; the output buffer may be longer than the feature count, and its entries past the count are unchanged |
| Algorithm.LessIsStrictTotalOrder | src/util/algorithm.cpp:24-29 | the shortlex comparison (by length, then by `strcmp`) is irreflexive, transitive, asymmetric and total on different strings |
| Algorithm.Swapped | src/util/algorithm.cpp:6-10 | the two entries are exchanged and every other entry is kept |
| Algorithm.Swap | src/util/algorithm.cpp:6-10 | the array becomes `Swapped` of the old array |
| Algorithm.SwapPermutes | src/util/algorithm.cpp:6-10 | a swap inside a range permutes that range and keeps everything outside it |
| Algorithm.PartitionStep | src/util/algorithm.cpp:22-32 | one round of the partition loop keeps the lower segment below the pivot and the upper segment not below it, and keeps the range a permutation |
| Algorithm.PlacePivot | src/util/algorithm.cpp:37 | the final swap puts the pivot between the segment below it and the segment not below it |
| Algorithm.Partition | src/util/algorithm.cpp:18-37 | the pivot, taken from the last entry, ends at the returned index; the entries before it are less and the entries after it are not; the range is a permutation and the rest of the array is kept |
| Algorithm.SortedJoin | src/util/algorithm.cpp:37-41 | a sorted lower segment, the pivot and a sorted upper segment together form a sorted range |
| Algorithm.Quicksort | src/util/algorithm.cpp:12-42 | the range ends sorted in shortlex order and is a permutation of itself; the rest of the array is kept; a range of length at most one is left untouched |

## Left out

- Patches.PatchAt: the bilinear blend at fractional coordinates is out of scope because it is floating-point arithmetic. The model gathers at integer coordinates, where both weights are zero, and that is the only way `construct` calls the constructor.
- The tracker calls the patch constructor at fractional coordinates, so the tracker takes the result of its numeric step as the parameter `step`. For the same reason, the tensor test is the parameter `singular`, standing for the NaN and infinity check of its determinant. The linear algebra itself is not part of this model: the gradients, `AT`, `S`, `inverse`, `determinant` and `multiply`.
- Floating point: patch values, flows, errors and the squared norm are real numbers. `FLT_MAX` is a constant.
- Tracking.Round: `round` and the `(int)` casts are exact on reals. Overflow of the conversion is not modelled.
- PatchPyramids.Trunc: the 32-bit range of the `int_fast32_t` conversion is not modelled.
- PatchPyramids.PatchPyramid.Construct: the error message and `exit(1)` are modelled as the result `exited`. Nothing after it runs.
- Printing is not modelled: `printf`, the logger, and `Patch::print`.
- Filters.BlurInPlace: requires a height of at least two. The source copies row 1 before looping, so a one-row image would read past its end. The pyramid constructor therefore requires that level 4 has at least two rows.
- Pyramid.ImagePyramid.constructor: requires that the source samples and the pyramid buffer are different arrays. In the source they are separate buffers.
- Pyramid.ImagePyramid.constructor: requires a buffer large enough for levels 1 to 4. The source cannot check this.
- Tracking.TrackFeatures: the previous keypoints are a sequence and the next keypoints a separate array. The callers pass distinct buffers, so aliasing of the two is not modelled.
- Tracking.TrackFeatures: requires a level-0 image with at least one row and one column, which the bounds check of the output uses.
- The variable-length arrays on the stack are allocated in the model: `row_buffer`, `row_buffer_ptr` and the flow table. Their sizes are not bounded.
- The doc comment of `construct` in `image.h` (lines 233-238) says that construction downsamples the image in place and that only the first level is blurred. The code does neither, and the model follows the code: the pyramid constructor blurs every level, and `construct` only reads the pyramid.
- Algorithm.Quicksort: the array of `char*` entries is modelled by the strings they refer to. The strings never change, and a swap only exchanges two of them.
