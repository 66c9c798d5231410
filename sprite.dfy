/** Flipbook sprites: a sprite sheet cut into frames, named animations that list frame
    numbers and per-frame durations, and an animation state advanced frame by frame. */
module Sprite {
  import opened Vectors
  import opened Options

  // ---------------------------------------------------------------------------
  // Loading

  /** An animation as described in the sprite file: 1-based frame numbers into the sheet,
      per-frame durations in milliseconds, and the frame index of each named active frame. */
  datatype AnimationDesc = AnimationDesc(frames: seq<int>, frameMs: seq<real>, activeFrames: map<string, int>)

  /** A loaded animation: its frames taken from the sheet and its total duration. */
  datatype Animation<F> = Animation(frames: seq<F>, durationMs: real)

  /** A loaded sprite: the frame size and centre offset, the normalised descriptions and
      the loaded animations, both by name. */
  datatype SpriteData<F> = SpriteData(width: int, height: int, centreOffset: Vec2,
                                     descs: map<string, AnimationDesc>, animations: map<string, Animation<F>>)

  /** The durations after loading: an empty list becomes `[100]`, and the list is then
      padded with its last value until it is as long as the frame list. */
  function PaddedMs(ms: seq<real>, numFrames: int): (r: seq<real>)
    ensures |r| >= 1 && |r| >= numFrames
  {
    var base := if |ms| == 0 then [100.0] else ms;
    var last := base[|base| - 1];
    if |base| >= numFrames then base else base + seq(numFrames - |base|, _ => last)
  }

  /** The padding loop of `Sprite::load`. */
  method PadFrameMs(ms: seq<real>, numFrames: int) returns (r: seq<real>)
    ensures r == PaddedMs(ms, numFrames)
  {
    r := ms;
    if |r| == 0 {
      r := r + [100.0];
    }
    ghost var base := r;
    while |r| < numFrames
      invariant |r| >= |base| && r[..|base|] == base
      invariant forall k :: |base| <= k < |r| ==> r[k] == base[|base| - 1]
      invariant if |base| < numFrames then |r| <= numFrames else r == base
      decreases numFrames - |r|
    {
      r := r + [r[|r| - 1]];
    }
    if |base| < numFrames {
      var pad := seq(numFrames - |base|, _ => base[|base| - 1]);
      assert forall k :: 0 <= k < |r| ==> r[k] == (base + pad)[k];
    }
  }

  /** Padding keeps the given durations, fills with the last one (100 when there were
      none), and never shortens. */
  lemma PaddedKeeps(ms: seq<real>, numFrames: int)
    ensures |ms| > 0 ==> PaddedMs(ms, numFrames)[..|ms|] == ms
    ensures |ms| == 0 ==> PaddedMs(ms, numFrames)[0] == 100.0
    ensures |PaddedMs(ms, numFrames)| == if |ms| == 0 then (if numFrames > 1 then numFrames else 1)
                                         else (if numFrames > |ms| then numFrames else |ms|)
    ensures var base := if |ms| == 0 then [100.0] else ms;
            forall k :: |base| <= k < |PaddedMs(ms, numFrames)| ==> PaddedMs(ms, numFrames)[k] == base[|base| - 1]
  {
  }

  function Sum(ms: seq<real>): real
  {
    if |ms| == 0 then 0.0 else Sum(ms[..|ms| - 1]) + ms[|ms| - 1]
  }

  /** Every frame number names a frame of the sheet (frame numbers start at 1). */
  predicate FramesIn(frames: seq<int>, numFrames: int)
  {
    forall i :: 0 <= i < |frames| ==> 1 <= frames[i] <= numFrames
  }

  /** The "Default" animation added when the file has none: every frame of the sheet in
      order, numbered from 1, with no durations and no active frames. */
  function DefaultDesc(numFrames: nat): (r: AnimationDesc)
    ensures |r.frames| == numFrames && FramesIn(r.frames, numFrames)
    ensures forall i :: 0 <= i < numFrames ==> r.frames[i] == i + 1
  {
    AnimationDesc(seq(numFrames, i => i + 1), [], map[])
  }

  function WithDefault(descs: map<string, AnimationDesc>, numFrames: nat): (r: map<string, AnimationDesc>)
    ensures "Default" in r && r.Keys == descs.Keys + {"Default"}
    ensures forall name :: name in descs ==> r[name] == descs[name]
    ensures "Default" !in descs ==> r["Default"] == DefaultDesc(numFrames)
  {
    if "Default" in descs then descs else descs["Default" := DefaultDesc(numFrames)]
  }

  /** What loading makes of a description, when its frames are in the sheet. */
  ghost predicate LoadedFrom<F>(d: AnimationDesc, a: Animation<F>, desc: AnimationDesc, sheet: seq<F>)
  {
    && d == desc.(frameMs := PaddedMs(desc.frameMs, |desc.frames|))
    && |a.frames| == |desc.frames| && FramesIn(desc.frames, |sheet|)
    && (forall i :: 0 <= i < |desc.frames| ==> a.frames[i] == sheet[desc.frames[i] - 1])
    && a.durationMs == Sum(d.frameMs)
  }

  /** One animation of `Sprite::load`: durations padded, frames looked up in the sheet (a
      frame number outside it panics), duration the sum of the durations. */
  method LoadAnimation<F>(desc: AnimationDesc, sheet: seq<F>) returns (r: Option<(AnimationDesc, Animation<F>)>)
    ensures r.Some? <==> FramesIn(desc.frames, |sheet|)
    ensures r.Some? ==> LoadedFrom(r.value.0, r.value.1, desc, sheet)
  {
    var ms := PadFrameMs(desc.frameMs, |desc.frames|);
    var frames: seq<F> := [];
    for i := 0 to |desc.frames|
      invariant |frames| == i && FramesIn(desc.frames[..i], |sheet|)
      invariant forall h :: 0 <= h < i ==> frames[h] == sheet[desc.frames[h] - 1]
    {
      var n := desc.frames[i];
      if !(1 <= n <= |sheet|) {
        return None;
      }
      frames := frames + [sheet[n - 1]];
    }
    assert desc.frames[..|desc.frames|] == desc.frames;
    r := Some((desc.(frameMs := ms), Animation(frames, Sum(ms))));
  }

  /** `Sprite::load` once the file is read and the sheet cut into frames (the frame size is
      the one after a zero width or height was replaced by the bitmap's): the "Default" animation is added when missing, then
      every animation is loaded; any frame number outside the sheet panics. */
  method Load<F>(descs: map<string, AnimationDesc>, sheet: seq<F>, width: int, height: int, centreOffset: Vec2)
    returns (r: Option<SpriteData<F>>)
    ensures var all := WithDefault(descs, |sheet|);
            && (r.Some? <==> forall name :: name in all ==> FramesIn(all[name].frames, |sheet|))
            && (r.Some? ==> r.value.descs.Keys == all.Keys && r.value.animations.Keys == all.Keys
                            && r.value.width == width && r.value.height == height && r.value.centreOffset == centreOffset
                            && forall name :: name in all ==>
                                 LoadedFrom(r.value.descs[name], r.value.animations[name], all[name], sheet))
  {
    var all := WithDefault(descs, |sheet|);
    var outDescs: map<string, AnimationDesc> := map[];
    var outAnims: map<string, Animation<F>> := map[];
    var todo := all.Keys;
    while todo != {}
      invariant todo <= all.Keys
      invariant outDescs.Keys == all.Keys - todo && outAnims.Keys == all.Keys - todo
      invariant forall name :: name in outDescs ==> LoadedFrom(outDescs[name], outAnims[name], all[name], sheet)
      decreases todo
    {
      var name :| name in todo;
      var loaded := LoadAnimation(all[name], sheet);
      if loaded.None? {
        return None;
      }
      outDescs := outDescs[name := loaded.value.0];
      outAnims := outAnims[name := loaded.value.1];
      todo := todo - {name};
    }
    r := Some(SpriteData(width, height, centreOffset, outDescs, outAnims));
  }

  /** The added "Default" animation always loads: its frame numbers are the sheet's. */
  lemma DefaultLoads(numFrames: nat)
    ensures FramesIn(DefaultDesc(numFrames).frames, numFrames)
    ensures PaddedMs(DefaultDesc(numFrames).frameMs, numFrames) == seq(if numFrames > 1 then numFrames else 1, _ => 100.0)
  {
  }

  /** After loading, every animation has a duration for each frame and at least one. */
  ghost predicate Loaded(descs: map<string, AnimationDesc>)
  {
    forall name :: name in descs ==> |descs[name].frameMs| >= 1 && |descs[name].frameMs| >= |descs[name].frames|
  }

  /** A loaded sprite has a duration for every frame and a frame for every frame number,
      and its durations are positive when the file's were (the added 100 is). */
  lemma LoadIsLoaded<F>(s: SpriteData<F>, descs: map<string, AnimationDesc>, sheet: seq<F>)
    requires forall name :: name in WithDefault(descs, |sheet|) ==>
               name in s.descs && name in s.animations
               && LoadedFrom(s.descs[name], s.animations[name], WithDefault(descs, |sheet|)[name], sheet)
    requires s.descs.Keys == WithDefault(descs, |sheet|).Keys
    ensures Loaded(s.descs) && Matches(s)
    ensures (forall name :: name in descs ==> forall k :: 0 <= k < |descs[name].frameMs| ==> descs[name].frameMs[k] > 0.0)
            ==> PositiveMs(s.descs)
  {
    var all := WithDefault(descs, |sheet|);
    if forall name :: name in descs ==> forall k :: 0 <= k < |descs[name].frameMs| ==> descs[name].frameMs[k] > 0.0 {
      forall name | name in s.descs
        ensures forall k :: 0 <= k < |s.descs[name].frameMs| ==> s.descs[name].frameMs[k] > 0.0
      {
        PaddedPositive(all[name].frameMs, |all[name].frames|);
      }
    }
  }

  /** Padding keeps durations positive. */
  lemma PaddedPositive(ms: seq<real>, numFrames: int)
    requires forall k :: 0 <= k < |ms| ==> ms[k] > 0.0
    ensures forall k :: 0 <= k < |PaddedMs(ms, numFrames)| ==> PaddedMs(ms, numFrames)[k] > 0.0
  {
  }

  /** Every duration is positive, which the frame loop of `advance_state` needs to end. */
  ghost predicate PositiveMs(descs: map<string, AnimationDesc>)
  {
    forall name :: name in descs ==> forall k :: 0 <= k < |descs[name].frameMs| ==> descs[name].frameMs[k] > 0.0
  }

  /** Each loaded animation has one frame per frame number of its description. */
  ghost predicate Matches<F>(s: SpriteData<F>)
  {
    forall name :: name in s.descs ==> name in s.animations && |s.animations[name].frames| == |s.descs[name].frames|
  }

  // ---------------------------------------------------------------------------
  // `get_frame`

  /** `Sprite::get_frame`: the frame at the cursor of the named animation, and the offset
      that centres it; a missing animation or a cursor outside its frames panics. */
  function GetFrame<F>(s: SpriteData<F>, name: string, frameIdx: int): (r: Option<(F, Vec2)>)
    ensures r.Some? <==> name in s.animations && 0 <= frameIdx < |s.animations[name].frames|
    ensures r.Some? ==> r.value.0 == s.animations[name].frames[frameIdx]
                        && Add2(r.value.1, Vec2(s.width as real / 2.0, s.height as real / 2.0)) == Scale2(-1.0, s.centreOffset)
  {
    if name in s.animations && 0 <= frameIdx < |s.animations[name].frames| then
      Some((s.animations[name].frames[frameIdx],
            Vec2(-(s.width as real) / 2.0 - s.centreOffset.x, -(s.height as real) / 2.0 - s.centreOffset.y)))
    else None
  }

  // ---------------------------------------------------------------------------
  // The animation state

  class AnimationState {
    var animationName: string
    var newAnimationName: string
    var frameProgress: real
    var frameIdx: int
    var numActivations: map<string, int>
    var numLoops: int

    /** `AnimationState::new`: both names set, no progress, on frame 0, nothing counted. */
    constructor (name: string)
      ensures animationName == name && newAnimationName == name
      ensures frameProgress == 0.0 && frameIdx == 0 && numActivations == map[] && numLoops == 0
    {
      animationName := name;
      newAnimationName := name;
      frameProgress := 0.0;
      frameIdx := 0;
      numActivations := map[];
      numLoops := 0;
    }

    /** `set_new_animation`: only records the name, which the next advance switches to. */
    method SetNewAnimation(name: string)
      modifies this
      ensures newAnimationName == name && animationName == old(animationName)
      ensures frameProgress == old(frameProgress) && frameIdx == old(frameIdx)
      ensures numActivations == old(numActivations) && numLoops == old(numLoops)
    {
      newAnimationName := name;
    }

    /** `get_num_activations`: the count of an active frame, 0 for one not tracked. */
    function GetNumActivations(activeFrame: string): (r: int)
      reads this
      ensures activeFrame in numActivations ==> r == numActivations[activeFrame]
      ensures activeFrame !in numActivations ==> r == 0
    {
      if activeFrame in numActivations then numActivations[activeFrame] else 0
    }

    /** Writes the results of one advance back to the fields. */
    method SetPlayback(name: string, progress: real, idx: int, acts: map<string, int>, loops: int)
      modifies this
      ensures animationName == name && frameProgress == progress && frameIdx == idx
      ensures numActivations == acts && numLoops == loops && newAnimationName == old(newAnimationName)
    {
      animationName, frameProgress, frameIdx := name, progress, idx;
      numActivations, numLoops := acts, loops;
    }
  }

  // ---------------------------------------------------------------------------
  // The frame loop of `advance_state`, on values

  /** The cursor after `k` moves from `idx0`: each move is `(idx + 1) % n`. */
  function Idx(idx0: int, k: nat, n: int): int
    requires k == 0 || n > 0
  {
    if k == 0 then idx0 else (Idx(idx0, k - 1, n) + 1) % n
  }

  /** The cursor's positions while moving can index the durations. */
  predicate CanMove(ms: seq<real>, idx0: int, n: int)
  {
    0 <= idx0 < |ms| && n <= |ms|
  }

  /** The time the first `k` moves take off the progress: the durations of the frames the
      cursor leaves. */
  function Elapsed(ms: seq<real>, idx0: int, k: nat, n: int): real
    requires CanMove(ms, idx0, n) && (k == 0 || n > 0)
  {
    if k == 0 then 0.0 else Elapsed(ms, idx0, k - 1, n) + ms[Idx(idx0, k - 1, n)]
  }

  /** Each of the first `k` moves was made because the progress left was past the duration
      of the frame under the cursor. */
  predicate Warranted(ms: seq<real>, idx0: int, p0: real, k: nat, n: int)
    requires CanMove(ms, idx0, n) && (k == 0 || n > 0)
  {
    k == 0 || (Warranted(ms, idx0, p0, k - 1, n) && p0 - Elapsed(ms, idx0, k - 1, n) > ms[Idx(idx0, k - 1, n)])
  }

  /** How many of the first `k` moves land the cursor on `target`. */
  function Landings(idx0: int, k: nat, target: int, n: int): nat
    requires k == 0 || n > 0
  {
    if k == 0 then 0 else Landings(idx0, k - 1, target, n) + (if Idx(idx0, k, n) == target then 1 else 0)
  }

  /** The loop ends after `steps` warranted moves, when the progress left is not past the
      duration of the frame under the cursor. */
  ghost predicate RunOutcome(d: AnimationDesc, idx0: int, p0: real, acts0: map<string, int>, steps: nat,
                             idx: int, progress: real, acts: map<string, int>, loops: int)
    requires CanMove(d.frameMs, idx0, |d.frames|)
  {
    RunSoFar(d, idx0, p0, acts0, steps, idx, progress, acts, loops) && progress <= d.frameMs[idx]
  }

  /** The loop panics when the cursor cannot index the durations, and when it has to move
      while the animation has no frames (`% 0`) or while an active frame is tracked that
      this animation does not define. */
  predicate RunPanics(d: AnimationDesc, idx0: int, p0: real, acts0: map<string, int>)
  {
    !(0 <= idx0 < |d.frameMs|)
    || (p0 > d.frameMs[idx0] && (|d.frames| == 0 || !(acts0.Keys <= d.activeFrames.Keys)))
  }

  /** One move's update of the active-frame counts. */
  function Bump(acts: map<string, int>, active: map<string, int>, idx: int): (r: map<string, int>)
    requires acts.Keys <= active.Keys
    ensures r.Keys == acts.Keys
    ensures forall key :: key in r ==> r[key] == acts[key] + (if active[key] == idx then 1 else 0)
  {
    map key | key in acts :: acts[key] + (if active[key] == idx then 1 else 0)
  }

  /** The `while` loop of `advance_state`, with its panics. */
  method RunFrames(d: AnimationDesc, idx0: int, p0: real, acts0: map<string, int>)
    returns (panicked: bool, idx: int, progress: real, acts: map<string, int>, loops: int, ghost steps: nat)
    requires |d.frameMs| >= |d.frames| && forall k :: 0 <= k < |d.frameMs| ==> d.frameMs[k] > 0.0
    ensures panicked <==> RunPanics(d, idx0, p0, acts0)
    ensures !panicked ==> RunOutcome(d, idx0, p0, acts0, steps, idx, progress, acts, loops)
  {
    if RunPanics(d, idx0, p0, acts0) {
      return true, idx0, p0, acts0, 0, 0;
    }
    panicked := false;
    idx, progress, acts, loops, steps := FrameLoop(d, idx0, p0, acts0);
  }

  /** The `while` loop of `advance_state` where it does not panic. */
  method FrameLoop(d: AnimationDesc, idx0: int, p0: real, acts0: map<string, int>)
    returns (idx: int, progress: real, acts: map<string, int>, loops: int, ghost steps: nat)
    requires |d.frameMs| >= |d.frames| && forall k :: 0 <= k < |d.frameMs| ==> d.frameMs[k] > 0.0
    requires !RunPanics(d, idx0, p0, acts0)
    ensures RunOutcome(d, idx0, p0, acts0, steps, idx, progress, acts, loops)
  {
    var ms, n := d.frameMs, |d.frames|;
    idx, progress, acts, loops, steps := idx0, p0, acts0, 0, 0;
    ghost var lo := MinMs(ms);
    while progress > ms[idx]
      invariant RunSoFar(d, idx0, p0, acts0, steps, idx, progress, acts, loops)
      decreases (progress / lo).Floor
    {
      FloorDecreases(progress, ms[idx], lo);
      RunStep(d, idx0, p0, acts0, steps, idx, progress, acts, loops);
      idx, progress, acts, loops := MoveFrame(d, idx, progress, acts, loops);
      steps := steps + 1;
    }
  }

  /** One pass of the loop body: the progress loses the current frame's duration, the cursor
      moves on, and the counts of the frame it lands on go up. */
  method MoveFrame(d: AnimationDesc, idx: int, progress: real, acts: map<string, int>, loops: int)
    returns (idx': int, progress': real, acts': map<string, int>, loops': int)
    requires 0 <= idx < |d.frameMs| && |d.frames| > 0 && acts.Keys <= d.activeFrames.Keys
    ensures idx' == (idx + 1) % |d.frames| && progress' == progress - d.frameMs[idx]
    ensures acts' == Bump(acts, d.activeFrames, idx')
    ensures loops' == if idx' == |d.frames| - 1 then loops + 1 else loops
  {
    progress' := progress - d.frameMs[idx];
    idx' := (idx + 1) % |d.frames|;
    acts' := Bump(acts, d.activeFrames, idx');
    loops' := loops;
    if idx' == |d.frames| - 1 {
      loops' := loops + 1;
    }
  }

  /** The state after `steps` warranted moves: the cursor, the progress, the loop count
      (moves landing on the last frame) and each active frame's count (moves landing on it). */
  ghost predicate RunSoFar(d: AnimationDesc, idx0: int, p0: real, acts0: map<string, int>, steps: nat,
                           idx: int, progress: real, acts: map<string, int>, loops: int)
    requires CanMove(d.frameMs, idx0, |d.frames|)
  {
    var n := |d.frames|;
    && (steps == 0 || n > 0)
    && Warranted(d.frameMs, idx0, p0, steps, n)
    && idx == Idx(idx0, steps, n) && 0 <= idx < |d.frameMs|
    && progress == p0 - Elapsed(d.frameMs, idx0, steps, n)
    && loops == Landings(idx0, steps, n - 1, n)
    && acts.Keys == acts0.Keys
    && (steps > 0 ==> acts0.Keys <= d.activeFrames.Keys)
    && (forall key :: key in acts ==> acts[key] == acts0[key] + (if steps == 0 then 0 else Landings(idx0, steps, d.activeFrames[key], n)))
  }

  /** One warranted move keeps `RunSoFar`. */
  lemma RunStep(d: AnimationDesc, idx0: int, p0: real, acts0: map<string, int>, steps: nat,
                idx: int, progress: real, acts: map<string, int>, loops: int)
    requires CanMove(d.frameMs, idx0, |d.frames|) && |d.frames| > 0 && acts0.Keys <= d.activeFrames.Keys
    requires RunSoFar(d, idx0, p0, acts0, steps, idx, progress, acts, loops)
    requires progress > d.frameMs[idx]
    ensures var n := |d.frames|; var idx' := (idx + 1) % n;
            RunSoFar(d, idx0, p0, acts0, steps + 1, idx', progress - d.frameMs[idx],
                     Bump(acts, d.activeFrames, idx'), if idx' == n - 1 then loops + 1 else loops)
  {
    var n, ms := |d.frames|, d.frameMs;
    var idx' := (idx + 1) % n;
    assert Idx(idx0, steps + 1, n) == idx';
    assert Elapsed(ms, idx0, steps + 1, n) == Elapsed(ms, idx0, steps, n) + ms[idx];
    assert Landings(idx0, steps + 1, n - 1, n) == Landings(idx0, steps, n - 1, n) + (if idx' == n - 1 then 1 else 0);
    var acts' := Bump(acts, d.activeFrames, idx');
    forall key | key in acts'
      ensures acts'[key] == acts0[key] + Landings(idx0, steps + 1, d.activeFrames[key], n)
    {
      assert Landings(idx0, steps + 1, d.activeFrames[key], n)
          == Landings(idx0, steps, d.activeFrames[key], n) + (if idx' == d.activeFrames[key] then 1 else 0);
    }
  }

  /** The shortest duration, which bounds the number of moves. */
  function MinMs(ms: seq<real>): (lo: real)
    requires |ms| > 0
    ensures lo in ms && forall k :: 0 <= k < |ms| ==> lo <= ms[k]
  {
    if |ms| == 1 then ms[0]
    else
      var rest := MinMs(ms[1..]);
      assert forall k :: 1 <= k < |ms| ==> ms[k] == ms[1..][k - 1];
      if ms[0] <= rest then ms[0] else rest
  }

  /** Taking off a duration of at least `lo` lowers the whole number of `lo`s the progress holds. */
  lemma FloorDecreases(p: real, m: real, lo: real)
    requires lo > 0.0 && m >= lo && p > m
    ensures 0 <= ((p - m) / lo).Floor < (p / lo).Floor
  {
    var x, y := p / lo, (p - m) / lo;
    assert y == x - m / lo;
    assert m / lo >= 1.0;
    assert y > 0.0;
  }

  // ---------------------------------------------------------------------------
  // `advance_state`

  /** Every listed active frame with a count of 0. */
  function ZeroCounts(keys: set<string>): (r: map<string, int>)
    ensures r.Keys == keys && forall key :: key in r ==> r[key] == 0
  {
    map key | key in keys :: 0
  }

  /** `Sprite::advance_state`: the counts and the loop count start again from 0; when a new
      animation was set the state switches to it, onto frame 0 but keeping its progress, and
      starts tracking the new animation's active frames; the animation is looked up under the
      name now current (a missing one panics); the progress grows by the elapsed seconds in
      milliseconds and the frame loop runs. */
  method AdvanceState<F>(s: SpriteData<F>, state: AnimationState, amount: real) returns (panicked: bool, ghost steps: nat)
    requires Loaded(s.descs) && PositiveMs(s.descs)
    modifies state
    ensures var name := old(state.newAnimationName);
            var reset := old(state.animationName) != name;
            && (name !in s.descs ==> panicked)
            && (name in s.descs ==>
                  var d := s.descs[name];
                  var idx0 := if reset then 0 else old(state.frameIdx);
                  var p0 := old(state.frameProgress) + amount * 1000.0;
                  var acts0 := ZeroCounts(old(state.numActivations).Keys + (if reset then d.activeFrames.Keys else {}));
                  && (panicked <==> RunPanics(d, idx0, p0, acts0))
                  && (!panicked ==>
                        && state.animationName == name && state.newAnimationName == name
                        && RunOutcome(d, idx0, p0, acts0, steps, state.frameIdx, state.frameProgress,
                                      state.numActivations, state.numLoops)))
  {
    var acts := ZeroCounts(state.numActivations.Keys);
    var name := state.animationName;
    var idx := state.frameIdx;
    var reset := name != state.newAnimationName;
    if reset {
      name := state.newAnimationName;
      idx := 0;
    }
    if name !in s.descs {
      return true, 0;
    }
    var d := s.descs[name];
    if reset {
      acts := ZeroCounts(acts.Keys + d.activeFrames.Keys);
    }
    var progress := state.frameProgress + amount * 1000.0;
    var loops;
    panicked, idx, progress, acts, loops, steps := RunFrames(d, idx, progress, acts);
    if !panicked {
      state.SetPlayback(name, progress, idx, acts, loops);
    }
  }

  /** A warranted run of moves is warranted at each of its prefixes. */
  lemma {:induction false} WarrantedPrefix(ms: seq<real>, idx0: int, p0: real, j: nat, k: nat, n: int)
    requires CanMove(ms, idx0, n) && n > 0 && j <= k
    requires Warranted(ms, idx0, p0, k, n)
    ensures Warranted(ms, idx0, p0, j, n)
    decreases k
  {
    if j < k {
      WarrantedPrefix(ms, idx0, p0, j, k - 1, n);
    }
  }

  /** The frame loop has a single outcome: the number of moves, and with it the cursor, the
      progress and every count, is determined by where it starts. */
  lemma RunOutcomeUnique(d: AnimationDesc, idx0: int, p0: real, acts0: map<string, int>,
                         steps1: nat, idx1: int, progress1: real, acts1: map<string, int>, loops1: int,
                         steps2: nat, idx2: int, progress2: real, acts2: map<string, int>, loops2: int)
    requires CanMove(d.frameMs, idx0, |d.frames|)
    requires RunOutcome(d, idx0, p0, acts0, steps1, idx1, progress1, acts1, loops1)
    requires RunOutcome(d, idx0, p0, acts0, steps2, idx2, progress2, acts2, loops2)
    ensures steps1 == steps2 && idx1 == idx2 && progress1 == progress2 && acts1 == acts2 && loops1 == loops2
  {
    var ms, n := d.frameMs, |d.frames|;
    forall a: nat, b: nat, ia: int, pa: real, aa: map<string, int>, la: int,
           ib: int, pb: real, ab: map<string, int>, lb: int |
        a < b && RunOutcome(d, idx0, p0, acts0, a, ia, pa, aa, la) && RunOutcome(d, idx0, p0, acts0, b, ib, pb, ab, lb)
      ensures false
    {
      WarrantedPrefix(ms, idx0, p0, a + 1, b, n);
    }
    assert steps1 == steps2;
    assert acts1.Keys == acts2.Keys;
    forall key | key in acts1
      ensures acts1[key] == acts2[key]
    {
    }
  }

  /** No move is made while the progress stays within the current frame: the cursor and the
      progress are as they started and nothing is counted. */
  lemma WithinFrameStays(d: AnimationDesc, idx0: int, p0: real, acts0: map<string, int>,
                         steps: nat, idx: int, progress: real, acts: map<string, int>, loops: int)
    requires CanMove(d.frameMs, idx0, |d.frames|) && p0 <= d.frameMs[idx0]
    requires RunOutcome(d, idx0, p0, acts0, steps, idx, progress, acts, loops)
    ensures steps == 0 && idx == idx0 && progress == p0 && acts == acts0 && loops == 0
  {
    if steps > 0 {
      WarrantedPrefix(d.frameMs, idx0, p0, 1, steps, |d.frames|);
    }
    assert acts.Keys == acts0.Keys;
    forall key | key in acts
      ensures acts[key] == acts0[key]
    {
    }
  }

  /** From the first frame, the first `k` moves of a cycle visit frames 1 to `k` in order, so
      each frame among them is landed on once. */
  lemma {:induction false} FirstMoves(k: nat, t: int, n: int)
    requires 0 < n && k < n
    ensures Idx(0, k, n) == k
    ensures Landings(0, k, t, n) == if 1 <= t <= k then 1 else 0
  {
    if k > 0 {
      FirstMoves(k - 1, t, n);
      SmallMod(Idx(0, k - 1, n) + 1, n);
    }
  }

  lemma SmallMod(k: int, n: int)
    requires 0 <= k < n
    ensures k % n == k
  {
  }

  /** A whole cycle of moves from the first frame comes back to it, counts one loop and lands
      once on every frame, so every active frame is counted once. */
  lemma FullCycle(t: int, n: int)
    requires 0 <= t < n
    ensures Idx(0, n, n) == 0
    ensures Landings(0, n, t, n) == 1
    ensures Landings(0, n, n - 1, n) == 1
  {
    FirstMoves(n - 1, t, n);
    FirstMoves(n - 1, n - 1, n);
    assert Idx(0, n, n) == n % n == 0;
  }

  /** After a run that moved, the cursor names a frame of the animation, so `get_frame`
      does not panic on a loaded sprite. */
  lemma MovedFrameExists<F>(s: SpriteData<F>, name: string, idx0: int, p0: real, acts0: map<string, int>,
                            steps: nat, idx: int, progress: real, acts: map<string, int>, loops: int)
    requires Matches(s) && name in s.descs && CanMove(s.descs[name].frameMs, idx0, |s.descs[name].frames|)
    requires RunOutcome(s.descs[name], idx0, p0, acts0, steps, idx, progress, acts, loops)
    requires steps > 0 || 0 <= idx0 < |s.descs[name].frames|
    ensures GetFrame(s, name, idx).Some?
  {
  }
}
