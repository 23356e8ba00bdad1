/** The control skeleton of the pyramidal Lucas-Kanade tracker. The numeric
    part of one refinement step (sampling the next image at the current
    flow, the time difference, the summed absolute error and the increment
    from the inverted structure tensor) is the parameter `step`; whether a
    feature's structure tensor has a NaN or infinite determinant at a level
    is the parameter `singular`. Flows and errors are real numbers. */
module Tracking {
  import opened Vectors
  import opened ImageTypes
  import opened Pyramid
  import opened PatchPyramids

  /** `FLT_MAX`, the error bound the minimisation starts from. */
  const FLT_MAX: real := 340282346638528859811704183484516925440.0

  /** The increment norm at or below which the refinement stops. */
  const THRESHOLD: real := 0.01

  /** The guard `iterations++ < 50` of the refinement loop. */
  const MAX_ITERATIONS: nat := 50

  /** One refinement step at a level for a feature: the summed absolute time
      difference of the patch sampled at the total flow, and the flow
      increment the normal equations give. */
  datatype Solve = Solve(error: real, increment: Vec2)

  /** The course of a refinement: the flow it ends with, the errors it
      accepted in order, the increments it added and how many times the loop
      body ran. */
  datatype Outcome = Outcome(flow: Vec2, accepted: seq<real>, increments: seq<Vec2>, bodies: nat)

  /** The sum of a sequence of increments. */
  function Total(increments: seq<Vec2>): Vec2
  {
    if increments == [] then Zero() else Add(increments[0], Total(increments[1..]))
  }

  predicate StrictlyDecreasing(s: seq<real>)
  {
    forall a, b :: 0 <= a < b < |s| ==> s[a] > s[b]
  }

  /** The refinement loop from `flow`, best error `norm` and iteration
      count `iterations` on. A step whose error is not below the best so far
      ends the loop with the flow unchanged; otherwise its increment is
      added, and the loop goes on while the increment is longer than the
      threshold and fewer than 50 rounds have been counted. */
  function Refinement(step: (nat, nat, Vec2) -> Solve, level: nat, feature: nat,
                      inherited: Vec2, flow: Vec2, norm: real, iterations: nat): Outcome
    requires iterations <= MAX_ITERATIONS
    decreases MAX_ITERATIONS - iterations
  {
    var s := step(level, feature, Add(flow, inherited));
    if !(s.error < norm) then
      Outcome(flow, [], [], 1)
    else if Continues(s.increment, iterations) then
      var rest := Refinement(step, level, feature, inherited, Add(flow, s.increment), s.error, iterations + 1);
      Outcome(rest.flow, [s.error] + rest.accepted, [s.increment] + rest.increments, rest.bodies + 1)
    else
      Outcome(Add(flow, s.increment), [s.error], [s.increment], 1)
  }

  /** The loop condition after an accepted increment. */
  predicate Continues(increment: Vec2, iterations: nat)
  {
    SquaredNorm(increment) > THRESHOLD * THRESHOLD && iterations < MAX_ITERATIONS
  }

  /** The body of the refinement loop runs at least once and at most 51
      times in all; the accepted errors fall strictly and stay below the
      bound the loop started from; only the last round can be rejected; and
      the flow changes only by the accepted increments. */
  lemma {:induction false} RefinementBounds(step: (nat, nat, Vec2) -> Solve, level: nat, feature: nat,
                                            inherited: Vec2, flow: Vec2, norm: real, iterations: nat)
    requires iterations <= MAX_ITERATIONS
    ensures var r := Refinement(step, level, feature, inherited, flow, norm, iterations);
      && 1 <= r.bodies <= MAX_ITERATIONS + 1 - iterations
      && |r.accepted| == |r.increments| && r.bodies - 1 <= |r.accepted| <= r.bodies
      && StrictlyDecreasing(r.accepted)
      && (forall k :: 0 <= k < |r.accepted| ==> r.accepted[k] < norm)
      && r.flow == Add(flow, Total(r.increments))
    decreases MAX_ITERATIONS - iterations
  {
    var s := step(level, feature, Add(flow, inherited));
    if s.error < norm && Continues(s.increment, iterations) {
      RefinementBounds(step, level, feature, inherited, Add(flow, s.increment), s.error, iterations + 1);
    }
  }

  /** One round of the refinement loop: rejected, accepted as the last
      round, or accepted with the loop going on. */
  lemma RefinementStep(step: (nat, nat, Vec2) -> Solve, level: nat, feature: nat,
                       inherited: Vec2, flow: Vec2, norm: real, iterations: nat)
    requires iterations <= MAX_ITERATIONS
    ensures var s := step(level, feature, Add(flow, inherited));
      var r := Refinement(step, level, feature, inherited, flow, norm, iterations);
      && (!(s.error < norm) ==> r.flow == flow)
      && (s.error < norm && !Continues(s.increment, iterations) ==> r.flow == Add(flow, s.increment))
      && (s.error < norm && Continues(s.increment, iterations) ==>
            r.flow == Refinement(step, level, feature, inherited, Add(flow, s.increment), s.error, iterations + 1).flow)
  {
  }

  /** The refinement a feature runs at a level, from a zero flow and the
      bound `FLT_MAX`. */
  function Refined(step: (nat, nat, Vec2) -> Solve, level: nat, feature: nat, inherited: Vec2): Outcome
  {
    Refinement(step, level, feature, inherited, Zero(), FLT_MAX, 0)
  }

  /** The `do { ... } while (norm(increment) > threshold && iterations++ < 50)`
      loop of one feature at one level; `norm(v) > 0.01` is compared on the
      squared length. It returns the accumulated flow. */
  method Refine(step: (nat, nat, Vec2) -> Solve, level: nat, feature: nat, inherited: Vec2) returns (flow: Vec2)
    ensures flow == Refined(step, level, feature, inherited).flow
  {
    ghost var goal := Refined(step, level, feature, inherited).flow;
    flow := Zero();
    var norm := FLT_MAX;
    var iterations: nat := 0;
    var running := true;
    while running
      invariant iterations <= MAX_ITERATIONS + 1
      invariant running ==> iterations <= MAX_ITERATIONS
      invariant running ==> Refinement(step, level, feature, inherited, flow, norm, iterations).flow == goal
      invariant !running ==> flow == goal
      decreases MAX_ITERATIONS + 1 - iterations, running
    {
      RefinementStep(step, level, feature, inherited, flow, norm, iterations);
      var s := step(level, feature, Add(flow, inherited));
      if s.error < norm {
        norm := s.error;
        flow := Add(flow, s.increment);
        if SquaredNorm(s.increment) > THRESHOLD * THRESHOLD {
          running := iterations < MAX_ITERATIONS;
          iterations := iterations + 1;
        } else {
          running := false;
        }
      } else {
        running := false;
      }
    }
  }

  // ------------------------------------------------------------ one frame

  /** The index at which the feature loop of a level breaks: the first fresh
      feature from `j` on whose structure tensor is singular there, or the
      number of features when there is none. */
  function CutFrom(previous: seq<KeyPoint>, singular: (nat, nat) -> bool, level: nat, j: nat): (r: nat)
    requires j <= |previous|
    ensures j <= r <= |previous|
    ensures r < |previous| ==> !previous[r].stale && singular(level, r)
    ensures forall k :: j <= k < r ==> previous[k].stale || !singular(level, k)
    decreases |previous| - j
  {
    if j == |previous| then j
    else if !previous[j].stale && singular(level, j) then j
    else CutFrom(previous, singular, level, j + 1)
  }

  function Cut(previous: seq<KeyPoint>, singular: (nat, nat) -> bool, level: nat): nat
  {
    CutFrom(previous, singular, level, 0)
  }

  /** A fresh feature the loop of a level reaches, and so refines. */
  predicate Processed(previous: seq<KeyPoint>, singular: (nat, nat) -> bool, i: nat, level: nat)
    requires i < |previous|
  {
    i < Cut(previous, singular, level) && !previous[i].stale
  }

  /** `pyramid_level_flow[i][level]` when level `level` is processed: zero
      at the coarsest level and for a feature the level above did not
      process, otherwise twice the displacement found a level above. */
  function FlowAt(previous: seq<KeyPoint>, singular: (nat, nat) -> bool, step: (nat, nat, Vec2) -> Solve,
                  i: nat, level: nat): Vec2
    requires i < |previous| && level < PYRAMID_LEVELS
    decreases PYRAMID_LEVELS - level, 0
  {
    if level == PYRAMID_LEVELS - 1 then Zero()
    else if Processed(previous, singular, i, level + 1) then
      Scale(2.0, Displacement(previous, singular, step, i, level + 1))
    else Zero()
  }

  /** `pyramid_level_displacement`: the refined flow plus the inherited one. */
  function Displacement(previous: seq<KeyPoint>, singular: (nat, nat) -> bool, step: (nat, nat, Vec2) -> Solve,
                        i: nat, level: nat): Vec2
    requires i < |previous| && level < PYRAMID_LEVELS
    decreases PYRAMID_LEVELS - level, 1
  {
    var inherited := FlowAt(previous, singular, step, i, level);
    Add(Refined(step, level, i, inherited).flow, inherited)
  }

  /** `(int)round(v)`: to the nearest integer, halves away from zero. */
  function Round(v: real): (r: int)
    ensures v - 0.5 <= r as real <= v + 0.5
    ensures v >= 0.0 ==> r as real <= v + 0.5 && v - 0.5 < r as real
    ensures v < 0.0 ==> v - 0.5 <= r as real && r as real < v + 0.5
  {
    if v >= 0.0 then (v + 0.5).Floor else -((-v + 0.5).Floor)
  }

  /** The keypoint written at level 0: the patch centre (origin plus half
      the patch size) moved by the displacement and rounded, stale when it
      falls outside the level-0 image. */
  function Output(origin: Vec2, displacement: Vec2, width: nat, height: nat): (k: KeyPoint)
    requires width > 0 && height > 0
    ensures k.point.x == Round(origin.x + (PATCH_SIZE / 2) as real + displacement.x) as real
    ensures k.point.y == Round(origin.y + (PATCH_SIZE / 2) as real + displacement.y) as real
    ensures !k.stale <==> 0.0 <= k.point.x <= (width - 1) as real && 0.0 <= k.point.y <= (height - 1) as real
  {
    var x := Round(origin.x + (PATCH_SIZE / 2) as real + displacement.x);
    var y := Round(origin.y + (PATCH_SIZE / 2) as real + displacement.y);
    KeyPoint(Vec2(x as real, y as real), x < 0 || y < 0 || x > width - 1 || y > height - 1)
  }

  /** Feature i is reached by the loop of some level from `level` up. */
  predicate ReachedFrom(previous: seq<KeyPoint>, singular: (nat, nat) -> bool, i: nat, level: nat)
    decreases PYRAMID_LEVELS - level
  {
    level < PYRAMID_LEVELS
    && (i < Cut(previous, singular, level) || ReachedFrom(previous, singular, i, level + 1))
  }

  /** `next_keypoints[i]` once the levels above `level` are done and the
      loop of `level` has looked at the features below `upto`. */
  function Progress(previous: seq<KeyPoint>, singular: (nat, nat) -> bool, step: (nat, nat, Vec2) -> Solve,
                    origin: Vec2, width: nat, height: nat, i: nat, level: nat, upto: nat, before: KeyPoint): KeyPoint
    requires i < |previous| && level < PYRAMID_LEVELS && width > 0 && height > 0
  {
    if previous[i].stale then
      if i < upto || ReachedFrom(previous, singular, i, level + 1) then before.(stale := true) else before
    else if level == 0 && i < upto then
      Output(origin, Displacement(previous, singular, step, i, 0), width, height)
    else before
  }

  /** `next_keypoints[i]` after `track_features`: a stale feature is marked
      stale if any level reached it and is otherwise untouched; a fresh
      feature reached at level 0 gets its tracked point; a fresh feature the
      level-0 loop broke off before keeps its old keypoint. */
  function Tracked(previous: seq<KeyPoint>, singular: (nat, nat) -> bool, step: (nat, nat, Vec2) -> Solve,
                   origin: Vec2, width: nat, height: nat, i: nat, before: KeyPoint): KeyPoint
    requires i < |previous| && width > 0 && height > 0
  {
    if previous[i].stale then
      if ReachedFrom(previous, singular, i, 0) then before.(stale := true) else before
    else if i < Cut(previous, singular, 0) then
      Output(origin, Displacement(previous, singular, step, i, 0), width, height)
    else before
  }

  /** With no singular structure tensor no level breaks off: a stale
      feature always comes out marked stale with its point untouched, and a
      fresh one always gets its tracked keypoint. */
  lemma NothingSingular(previous: seq<KeyPoint>, singular: (nat, nat) -> bool, step: (nat, nat, Vec2) -> Solve,
                        origin: Vec2, width: nat, height: nat, i: nat, before: KeyPoint)
    requires i < |previous| && width > 0 && height > 0
    requires forall level: nat, j: nat :: !singular(level, j)
    ensures forall level :: Cut(previous, singular, level) == |previous|
    ensures Tracked(previous, singular, step, origin, width, height, i, before)
         == if previous[i].stale then before.(stale := true)
            else Output(origin, Displacement(previous, singular, step, i, 0), width, height)
  {
    forall level: nat
      ensures Cut(previous, singular, level) == |previous|
    {
    }
    assert i < Cut(previous, singular, 0);
  }

  /** A zero increment ends the refinement loop. */
  lemma ZeroEnds(iterations: nat)
    ensures !Continues(Zero(), iterations)
  {
  }

  /** A refinement whose first increment is zero ends with the flow it
      started from. */
  lemma RefinementStill(step: (nat, nat, Vec2) -> Solve, level: nat, feature: nat,
                        inherited: Vec2, flow: Vec2, norm: real, iterations: nat)
    requires iterations <= MAX_ITERATIONS
    requires step(level, feature, Add(flow, inherited)).increment == Zero()
    ensures Refinement(step, level, feature, inherited, flow, norm, iterations).flow == flow
  {
    RefinementStep(step, level, feature, inherited, flow, norm, iterations);
    ZeroEnds(iterations);
  }

  /** When the solve never moves a feature, no level hands any flow down and
      every displacement is zero, so a tracked keypoint is the rounded centre
      of its previous patch. */
  lemma {:induction false} StandingStill(previous: seq<KeyPoint>, singular: (nat, nat) -> bool,
                                         step: (nat, nat, Vec2) -> Solve, i: nat, level: nat)
    requires i < |previous| && level < PYRAMID_LEVELS
    requires forall l: nat, f: nat, v: Vec2 :: step(l, f, v).increment == Zero()
    ensures FlowAt(previous, singular, step, i, level) == Zero()
    ensures Displacement(previous, singular, step, i, level) == Zero()
    decreases PYRAMID_LEVELS - level
  {
    if level < PYRAMID_LEVELS - 1 && Processed(previous, singular, i, level + 1) {
      StandingStill(previous, singular, step, i, level + 1);
    }
    RefinementStill(step, level, i, FlowAt(previous, singular, step, i, level), Zero(), FLT_MAX, 0);
  }

  /** `track_features(previous_patch_pyramid, next_image_pyramid,
      previous_keypoints, next_keypoints, size)`. Levels run from the
      coarsest to the finest; the flow table starts at zero. Only the first
      `size` entries of the output buffer are written, so it may be longer. */
  method TrackFeatures(previousPatches: PatchPyramid, nextPyramid: ImagePyramid,
                       previous: seq<KeyPoint>, next: array<KeyPoint>,
                       singular: (nat, nat) -> bool, step: (nat, nat, Vec2) -> Solve)
    requires previousPatches.Valid() && nextPyramid.Valid()
    requires |previous| <= next.Length && |previous| <= MAX_NUMBER_OF_PATCHES_IN_PYRAMID_LEVEL
    requires nextPyramid.At(0).width > 0 && nextPyramid.At(0).height > 0
    modifies next
    ensures forall i | 0 <= i < |previous| ::
      next[i] == Tracked(previous, singular, step, previousPatches.patches[i, 0].origin,
                         nextPyramid.At(0).width, nextPyramid.At(0).height, i, old(next[i]))
    ensures forall i | |previous| <= i < next.Length :: next[i] == old(next[i])
  {
    var n := |previous|;
    var width, height := nextPyramid.At(0).width, nextPyramid.At(0).height;
    var flows := new Vec2[n, PYRAMID_LEVELS]((i, l) => Zero());
    ghost var before := next[..];
    var level: nat := PYRAMID_LEVELS;
    while level > 0
      invariant level <= PYRAMID_LEVELS
      invariant forall i, l | 0 <= i < n && 0 <= l < PYRAMID_LEVELS ::
        flows[i, l] == if l + 1 >= level then FlowAt(previous, singular, step, i, l) else Zero()
      invariant forall i | n <= i < next.Length :: next[i] == before[i]
      invariant forall i | 0 <= i < n ::
        next[i] == if level == PYRAMID_LEVELS then before[i]
                   else Progress(previous, singular, step, previousPatches.patches[i, 0].origin, width, height,
                                 i, level, Cut(previous, singular, level), before[i])
    {
      level := level - 1;
      TrackLevel(previousPatches, previous, next, flows, singular, step, width, height, level, before);
    }
  }

  /** The flow table once the levels above `level` are done and the loop
      of `level` has passed the features below `upto`. */
  ghost predicate FlowTable(flows: array2<Vec2>, previous: seq<KeyPoint>, singular: (nat, nat) -> bool,
                            step: (nat, nat, Vec2) -> Solve, level: nat, upto: nat)
    reads flows
    requires flows.Length0 == |previous| && flows.Length1 == PYRAMID_LEVELS
  {
    forall ii, l | 0 <= ii < flows.Length0 && 0 <= l < PYRAMID_LEVELS ::
      flows[ii, l] == if l >= level || (l + 1 == level && ii < upto) then FlowAt(previous, singular, step, ii, l) else Zero()
  }

  /** The output keypoints at the same point. */
  ghost predicate Outputs(next: array<KeyPoint>, previousPatches: PatchPyramid, previous: seq<KeyPoint>,
                          singular: (nat, nat) -> bool, step: (nat, nat, Vec2) -> Solve,
                          width: nat, height: nat, level: nat, upto: nat, before: seq<KeyPoint>)
    reads next, previousPatches, previousPatches.patches
    requires previousPatches.Valid() && |previous| <= next.Length == |before|
    requires |previous| <= MAX_NUMBER_OF_PATCHES_IN_PYRAMID_LEVEL
    requires width > 0 && height > 0 && level < PYRAMID_LEVELS
  {
    && (forall ii | 0 <= ii < |previous| ::
          next[ii] == Progress(previous, singular, step, previousPatches.patches[ii, 0].origin, width, height,
                               ii, level, upto, before[ii]))
    && (forall ii | |previous| <= ii < next.Length :: next[ii] == before[ii])
  }

  /** The feature loop of one level. */
  method TrackLevel(previousPatches: PatchPyramid, previous: seq<KeyPoint>, next: array<KeyPoint>,
                    flows: array2<Vec2>, singular: (nat, nat) -> bool, step: (nat, nat, Vec2) -> Solve,
                    width: nat, height: nat, level: nat, ghost before: seq<KeyPoint>)
    requires previousPatches.Valid() && |previous| <= next.Length == |before| && flows.Length0 == |previous|
    requires |previous| <= MAX_NUMBER_OF_PATCHES_IN_PYRAMID_LEVEL && flows.Length1 == PYRAMID_LEVELS
    requires width > 0 && height > 0 && level < PYRAMID_LEVELS
    requires forall i, l | 0 <= i < flows.Length0 && 0 <= l < PYRAMID_LEVELS ::
      flows[i, l] == if l >= level then FlowAt(previous, singular, step, i, l) else Zero()
    requires forall i | |previous| <= i < next.Length :: next[i] == before[i]
    requires forall i | 0 <= i < |previous| ::
      next[i] == if level == PYRAMID_LEVELS - 1 then before[i]
                 else Progress(previous, singular, step, previousPatches.patches[i, 0].origin, width, height,
                               i, level + 1, Cut(previous, singular, level + 1), before[i])
    modifies next, flows
    ensures forall i, l | 0 <= i < flows.Length0 && 0 <= l < PYRAMID_LEVELS ::
      flows[i, l] == if l + 1 >= level then FlowAt(previous, singular, step, i, l) else Zero()
    ensures forall i | |previous| <= i < next.Length :: next[i] == before[i]
    ensures forall i | 0 <= i < |previous| ::
      next[i] == Progress(previous, singular, step, previousPatches.patches[i, 0].origin, width, height,
                          i, level, Cut(previous, singular, level), before[i])
  {
    var n := |previous|;
    var i := 0;
    LevelStarts(next, previousPatches, previous, singular, step, width, height, level, before);
    while i < n
      invariant i <= n && i <= CutFrom(previous, singular, level, i) == Cut(previous, singular, level)
      invariant FlowTable(flows, previous, singular, step, level, i)
      invariant Outputs(next, previousPatches, previous, singular, step, width, height, level, i, before)
    {
      if previous[i].stale {
        MarkStale(next, previousPatches, previous, flows, singular, step, width, height, level, i, before);
        i := i + 1;
        continue;
      }
      if singular(level, i) {
        break;
      }
      TrackFeature(previousPatches, previous, next, flows, singular, step, width, height, level, i, before);
      i := i + 1;
    }
    LevelEnds(flows, previous, singular, step, level, i);
  }

  /** Before the loop of a level, the keypoints are as the level above left them. */
  lemma LevelStarts(next: array<KeyPoint>, previousPatches: PatchPyramid, previous: seq<KeyPoint>,
                    singular: (nat, nat) -> bool, step: (nat, nat, Vec2) -> Solve,
                    width: nat, height: nat, level: nat, before: seq<KeyPoint>)
    requires previousPatches.Valid() && |previous| <= next.Length == |before|
    requires |previous| <= MAX_NUMBER_OF_PATCHES_IN_PYRAMID_LEVEL
    requires width > 0 && height > 0 && level < PYRAMID_LEVELS
    requires forall i | |previous| <= i < next.Length :: next[i] == before[i]
    requires forall i | 0 <= i < |previous| ::
      next[i] == if level == PYRAMID_LEVELS - 1 then before[i]
                 else Progress(previous, singular, step, previousPatches.patches[i, 0].origin, width, height,
                               i, level + 1, Cut(previous, singular, level + 1), before[i])
    ensures Outputs(next, previousPatches, previous, singular, step, width, height, level, 0, before)
  {
  }

  /** Once the loop of a level stops, at its break index, the features from
      there on have handed no flow to the level below. */
  lemma LevelEnds(flows: array2<Vec2>, previous: seq<KeyPoint>, singular: (nat, nat) -> bool,
                  step: (nat, nat, Vec2) -> Solve, level: nat, upto: nat)
    requires flows.Length0 == |previous| && flows.Length1 == PYRAMID_LEVELS && level < PYRAMID_LEVELS
    requires upto == Cut(previous, singular, level)
    requires FlowTable(flows, previous, singular, step, level, upto)
    ensures forall i, l | 0 <= i < flows.Length0 && 0 <= l < PYRAMID_LEVELS ::
      flows[i, l] == if l + 1 >= level then FlowAt(previous, singular, step, i, l) else Zero()
  {
  }

  /** A stale feature: its output is marked stale and it hands no flow on. */
  method MarkStale(next: array<KeyPoint>, previousPatches: PatchPyramid, previous: seq<KeyPoint>, flows: array2<Vec2>,
                   singular: (nat, nat) -> bool, step: (nat, nat, Vec2) -> Solve,
                   width: nat, height: nat, level: nat, i: nat, ghost before: seq<KeyPoint>)
    requires previousPatches.Valid() && |previous| <= next.Length == |before| && flows.Length0 == |previous|
    requires |previous| <= MAX_NUMBER_OF_PATCHES_IN_PYRAMID_LEVEL && flows.Length1 == PYRAMID_LEVELS
    requires width > 0 && height > 0 && level < PYRAMID_LEVELS && i < |previous| && previous[i].stale
    requires FlowTable(flows, previous, singular, step, level, i)
    requires Outputs(next, previousPatches, previous, singular, step, width, height, level, i, before)
    modifies next
    ensures FlowTable(flows, previous, singular, step, level, i + 1)
    ensures Outputs(next, previousPatches, previous, singular, step, width, height, level, i + 1, before)
  {
    next[i] := next[i].(stale := true);
    forall ii | 0 <= ii < |previous|
      ensures next[ii] == Progress(previous, singular, step, previousPatches.patches[ii, 0].origin, width, height,
                                   ii, level, i + 1, before[ii])
    {
      if ii != i {
        ProgressPast(previous, singular, step, previousPatches.patches[ii, 0].origin, width, height, ii, level, i, before[ii]);
      }
    }
  }

  /** A fresh feature the loop reaches: refined, then handed down as twice
      its displacement, or at level 0 written out as a keypoint. */
  method TrackFeature(previousPatches: PatchPyramid, previous: seq<KeyPoint>, next: array<KeyPoint>, flows: array2<Vec2>,
                      singular: (nat, nat) -> bool, step: (nat, nat, Vec2) -> Solve,
                      width: nat, height: nat, level: nat, i: nat, ghost before: seq<KeyPoint>)
    requires previousPatches.Valid() && |previous| <= next.Length == |before| && flows.Length0 == |previous|
    requires |previous| <= MAX_NUMBER_OF_PATCHES_IN_PYRAMID_LEVEL && flows.Length1 == PYRAMID_LEVELS
    requires width > 0 && height > 0 && level < PYRAMID_LEVELS && i < |previous|
    requires i < Cut(previous, singular, level) && !previous[i].stale
    requires FlowTable(flows, previous, singular, step, level, i)
    requires Outputs(next, previousPatches, previous, singular, step, width, height, level, i, before)
    modifies next, flows
    ensures FlowTable(flows, previous, singular, step, level, i + 1)
    ensures Outputs(next, previousPatches, previous, singular, step, width, height, level, i + 1, before)
  {
    var inherited := flows[i, level];
    assert inherited == FlowAt(previous, singular, step, i, level);
    var flow := Refine(step, level, i, inherited);
    var displacement := Add(flow, inherited);
    if level > 0 {
      HandDown(flows, previous, singular, step, level, i, Scale(2.0, displacement));
      OutputsAbove(next, previousPatches, previous, singular, step, width, height, level, i, before);
    } else {
      var origin := previousPatches.patches[i, 0].origin;
      WriteOutput(next, previousPatches, previous, singular, step, width, height, i, before,
                  Output(origin, displacement, width, height));
    }
  }

  /** `pyramid_level_flow[i][level - 1] = 2 * displacement`. */
  method HandDown(flows: array2<Vec2>, previous: seq<KeyPoint>, singular: (nat, nat) -> bool,
                  step: (nat, nat, Vec2) -> Solve, level: nat, i: nat, value: Vec2)
    requires flows.Length0 == |previous| && flows.Length1 == PYRAMID_LEVELS && 0 < level < PYRAMID_LEVELS
    requires i < Cut(previous, singular, level) && !previous[i].stale
    requires value == Scale(2.0, Displacement(previous, singular, step, i, level))
    requires FlowTable(flows, previous, singular, step, level, i)
    modifies flows
    ensures FlowTable(flows, previous, singular, step, level, i + 1)
  {
    assert value == FlowAt(previous, singular, step, i, level - 1);
    flows[i, level - 1] := value;
  }

  /** Above level 0 the keypoint of a fresh feature is not written. */
  lemma OutputsAbove(next: array<KeyPoint>, previousPatches: PatchPyramid, previous: seq<KeyPoint>,
                     singular: (nat, nat) -> bool, step: (nat, nat, Vec2) -> Solve,
                     width: nat, height: nat, level: nat, i: nat, before: seq<KeyPoint>)
    requires previousPatches.Valid() && |previous| <= next.Length == |before|
    requires |previous| <= MAX_NUMBER_OF_PATCHES_IN_PYRAMID_LEVEL
    requires width > 0 && height > 0 && 0 < level < PYRAMID_LEVELS && i < |previous| && !previous[i].stale
    requires Outputs(next, previousPatches, previous, singular, step, width, height, level, i, before)
    ensures Outputs(next, previousPatches, previous, singular, step, width, height, level, i + 1, before)
  {
  }

  /** At level 0 a fresh feature's keypoint is written from its displacement. */
  method WriteOutput(next: array<KeyPoint>, previousPatches: PatchPyramid, previous: seq<KeyPoint>,
                     singular: (nat, nat) -> bool, step: (nat, nat, Vec2) -> Solve,
                     width: nat, height: nat, i: nat, ghost before: seq<KeyPoint>, k: KeyPoint)
    requires previousPatches.Valid() && |previous| <= next.Length == |before|
    requires |previous| <= MAX_NUMBER_OF_PATCHES_IN_PYRAMID_LEVEL
    requires width > 0 && height > 0 && i < |previous| && !previous[i].stale
    requires k == Output(previousPatches.patches[i, 0].origin, Displacement(previous, singular, step, i, 0), width, height)
    requires Outputs(next, previousPatches, previous, singular, step, width, height, 0, i, before)
    modifies next
    ensures Outputs(next, previousPatches, previous, singular, step, width, height, 0, i + 1, before)
  {
    next[i] := k;
    forall ii | 0 <= ii < |previous|
      ensures next[ii] == Progress(previous, singular, step, previousPatches.patches[ii, 0].origin, width, height,
                                   ii, 0, i + 1, before[ii])
    {
      if ii != i {
        ProgressPast(previous, singular, step, previousPatches.patches[ii, 0].origin, width, height, ii, 0, i, before[ii]);
      }
    }
  }

  /** Moving the loop past feature `upto` changes the progress of no other
      feature. */
  lemma ProgressPast(previous: seq<KeyPoint>, singular: (nat, nat) -> bool, step: (nat, nat, Vec2) -> Solve,
                     origin: Vec2, width: nat, height: nat, i: nat, level: nat, upto: nat, before: KeyPoint)
    requires i < |previous| && level < PYRAMID_LEVELS && width > 0 && height > 0 && i != upto
    ensures Progress(previous, singular, step, origin, width, height, i, level, upto + 1, before)
         == Progress(previous, singular, step, origin, width, height, i, level, upto, before)
  {
  }
}
