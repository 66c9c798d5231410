/** Keyframe animation of scene objects: an `Animation` is three keyframe tracks (position,
    rotation, scale) with a time range; an `AnimationState` is a cursor into one animation,
    advanced by `AdvanceState` and sampled by `GetAnimationPosition`. */
module SceneAnimation {
  import opened Vectors
  import opened Options

  /** `(time, value)`: one keyframe of a track. */
  datatype Keyframe<T> = Keyframe(time: real, value: T)

  datatype Tracks = Tracks(pos: seq<Keyframe<Vec3>>, rot: seq<Keyframe<Quat>>, scale: seq<Keyframe<Vec3>>)

  /** `f64::MAX`, the starting value of the running minimum of `compute_start_end`. */
  const F64Max: real := 179769313486231570814527423731704356798070567525844996598917476803157260780028538760589558632766878171540458953514382464234321326889464182768467546703537516986049910576551282076245490090389328944075868508455133942304583236903222948165808559332123348274797826204144723168738177180919299881250404026184124858368.0

  /** Every keyframe time is a finite `f64`. */
  predicate FiniteTimes<T>(track: seq<Keyframe<T>>)
  {
    forall i :: 0 <= i < |track| ==> -F64Max <= track[i].time <= F64Max
  }

  /** The first keyframe times of the non-empty tracks, in the order pos, rot, scale. */
  function FirstTimes(tr: Tracks): seq<real>
  {
    (if |tr.pos| > 0 then [tr.pos[0].time] else [])
    + (if |tr.rot| > 0 then [tr.rot[0].time] else [])
    + (if |tr.scale| > 0 then [tr.scale[0].time] else [])
  }

  /** The last keyframe times of the non-empty tracks, in the order pos, rot, scale. */
  function LastTimes(tr: Tracks): seq<real>
  {
    (if |tr.pos| > 0 then [tr.pos[|tr.pos| - 1].time] else [])
    + (if |tr.rot| > 0 then [tr.rot[|tr.rot| - 1].time] else [])
    + (if |tr.scale| > 0 then [tr.scale[|tr.scale| - 1].time] else [])
  }

  class Animation {
    var start: real
    var end: real
    const tracks: Tracks

    /** `Animation::new`: the tracks as given, `start` and `end` both 0. */
    constructor (pos: seq<Keyframe<Vec3>>, rot: seq<Keyframe<Quat>>, scale: seq<Keyframe<Vec3>>)
      ensures tracks == Tracks(pos, rot, scale) && start == 0.0 && end == 0.0
    {
      tracks := Tracks(pos, rot, scale);
      start := 0.0;
      end := 0.0;
    }

    /** `compute_start_end`: `start` becomes the smallest first keyframe time and `end` the
        largest last keyframe time over the non-empty tracks; with every track empty both
        keep their values. */
    method ComputeStartEnd()
      requires FiniteTimes(tracks.pos) && FiniteTimes(tracks.rot) && FiniteTimes(tracks.scale)
      modifies this
      ensures FirstTimes(tracks) == [] ==> start == old(start) && end == old(end)
      ensures FirstTimes(tracks) != [] ==> start in FirstTimes(tracks) && forall t :: t in FirstTimes(tracks) ==> start <= t
      ensures FirstTimes(tracks) != [] ==> end in LastTimes(tracks) && forall t :: t in LastTimes(tracks) ==> t <= end
    {
      var valid, min, max := TimeRange(tracks);
      if valid {
        start := min;
        end := max;
      }
    }
  }

  /** The running minimum and maximum of `compute_start_end`, from `f64::MAX` and `f64::MIN`,
      over the first and last times of the non-empty tracks; `valid` when there is one. */
  method TimeRange(tr: Tracks) returns (valid: bool, min: real, max: real)
    requires FiniteTimes(tr.pos) && FiniteTimes(tr.rot) && FiniteTimes(tr.scale)
    ensures valid <==> FirstTimes(tr) != []
    ensures valid ==> min in FirstTimes(tr) && forall t :: t in FirstTimes(tr) ==> min <= t
    ensures valid ==> max in LastTimes(tr) && forall t :: t in LastTimes(tr) ==> t <= max
  {
    valid, min, max := Include(tr.pos, false, F64Max, -F64Max, [], []);
    valid, min, max := Include(tr.rot, valid, min, max, Ends(tr.pos, true), Ends(tr.pos, false));
    valid, min, max := Include(tr.scale, valid, min, max,
                               Ends(tr.pos, true) + Ends(tr.rot, true), Ends(tr.pos, false) + Ends(tr.rot, false));
    assert FirstTimes(tr) == Ends(tr.pos, true) + Ends(tr.rot, true) + Ends(tr.scale, true);
    assert LastTimes(tr) == Ends(tr.pos, false) + Ends(tr.rot, false) + Ends(tr.scale, false);
  }

  /** The first (or last) keyframe time of a track, as a sequence of zero or one times. */
  function Ends<T>(track: seq<Keyframe<T>>, first: bool): seq<real>
  {
    if |track| == 0 then [] else if first then [track[0].time] else [track[|track| - 1].time]
  }

  /** One track's block of `compute_start_end`: a non-empty track takes its first time into
      the running minimum and its last time into the running maximum. */
  method Include<T>(track: seq<Keyframe<T>>, valid: bool, min: real, max: real, ghost firsts: seq<real>, ghost lasts: seq<real>)
    returns (valid': bool, min': real, max': real)
    requires FiniteTimes(track) && RangeOf(valid, min, max, firsts, lasts)
    ensures RangeOf(valid', min', max', firsts + Ends(track, true), lasts + Ends(track, false))
  {
    valid', min', max' := valid, min, max;
    if |track| > 0 {
      var first, last := track[0].time, track[|track| - 1].time;
      RangeStep(valid, min, max, firsts, lasts, first, last);
      min' := if first < min then first else min;
      max' := if last > max then last else max;
      valid' := true;
    } else {
      assert firsts + Ends(track, true) == firsts && lasts + Ends(track, false) == lasts;
    }
  }

  /** What the running minimum and maximum hold after the tracks seen so far. */
  ghost predicate RangeOf(valid: bool, min: real, max: real, firsts: seq<real>, lasts: seq<real>)
  {
    (valid <==> firsts != []) && (valid <==> lasts != [])
    && (valid ==> min in firsts && (forall t :: t in firsts ==> min <= t)
                  && max in lasts && (forall t :: t in lasts ==> t <= max))
    && (!valid ==> min == F64Max && max == -F64Max)
  }

  /** One more non-empty track with finite times keeps `RangeOf`. */
  lemma RangeStep(valid: bool, min: real, max: real, firsts: seq<real>, lasts: seq<real>, first: real, last: real)
    requires RangeOf(valid, min, max, firsts, lasts)
    requires -F64Max <= first <= F64Max && -F64Max <= last <= F64Max
    ensures RangeOf(true, if first < min then first else min, if last > max then last else max, firsts + [first], lasts + [last])
  {
    var min', max' := if first < min then first else min, if last > max then last else max;
    assert first in firsts + [first] && last in lasts + [last];
    forall t | t in firsts + [first]
      ensures min' <= t
    {
      if t != first {
        assert t in firsts;
      }
    }
    forall t | t in lasts + [last]
      ensures t <= max'
    {
      if t != last {
        assert t in lasts;
      }
    }
    assert min' in firsts + [first] by {
      if min' != first {
        assert min' == min && min in firsts;
      }
    }
    assert max' in lasts + [last] by {
      if max' != last {
        assert max' == max && max in lasts;
      }
    }
  }

  /** The playback state of one animation on one object. */
  class AnimationState {
    var animationName: string
    var newAnimationName: string
    var progress: real
    var posIdx: int
    var rotIdx: int
    var scaleIdx: int
    var once: bool
    var numLoops: int
    var needReset: bool
    var done: bool

    /** `AnimationState::new`: both names set, progress and every cursor 0, no loops, no
        pending reset, not done. */
    constructor (name: string, once: bool)
      ensures animationName == name && newAnimationName == name && this.once == once
      ensures progress == 0.0 && posIdx == 0 && rotIdx == 0 && scaleIdx == 0
      ensures numLoops == 0 && !needReset && !done
    {
      animationName := name;
      newAnimationName := name;
      progress := 0.0;
      this.once := once;
      posIdx, rotIdx, scaleIdx := 0, 0, 0;
      numLoops := 0;
      needReset := false;
      done := false;
    }

    /** `reset`: only requests a restart, which the next advance carries out. */
    method Reset()
      modifies this
      ensures needReset
      ensures Snap(this) == old(Snap(this)) && animationName == old(animationName) && newAnimationName == old(newAnimationName)
      ensures once == old(once)
    {
      needReset := true;
    }

    /** `set_new_animation`: only records the name, which the next advance switches to. */
    method SetNewAnimation(name: string)
      modifies this
      ensures newAnimationName == name
      ensures Snap(this) == old(Snap(this)) && animationName == old(animationName) && needReset == old(needReset)
      ensures once == old(once)
    {
      newAnimationName := name;
    }

    /** Writes the loop variables of `advance_state` back to the fields. */
    method SetCursors(c: Cursors)
      modifies this
      ensures Snap(this) == c
      ensures animationName == old(animationName) && newAnimationName == old(newAnimationName)
      ensures once == old(once) && needReset == old(needReset)
    {
      posIdx, rotIdx, scaleIdx := c.pos, c.rot, c.scale;
      progress, numLoops, done := c.progress, c.numLoops, c.done;
    }
  }

  // ---------------------------------------------------------------------------
  // One pass of the `advance_state` loop, on values

  /** The loop variables of `advance_state`: the three cursors, the progress, the loop count
      and the done flag. */
  datatype Cursors = Cursors(pos: int, rot: int, scale: int, progress: real, numLoops: int, done: bool)

  function Snap(s: AnimationState): Cursors
    reads s
  {
    Cursors(s.posIdx, s.rotIdx, s.scaleIdx, s.progress, s.numLoops, s.done)
  }

  /** `(idx + 1).min(len - 1)`. */
  function NextIdx(idx: int, len: int): int
  {
    if idx + 1 < len - 1 then idx + 1 else len - 1
  }

  /** A cursor can index its track: the track is empty (and never indexed) or the cursor is
      inside it. */
  predicate CursorOk<T>(track: seq<Keyframe<T>>, idx: int)
  {
    |track| == 0 || 0 <= idx < |track|
  }

  /** A cursor moves one keyframe on, up to the last, when the progress is past the keyframe
      under it. */
  function Advance<T>(track: seq<Keyframe<T>>, idx: int, progress: real): int
    requires CursorOk(track, idx)
  {
    if |track| > 0 && progress > track[idx].time then NextIdx(idx, |track|) else idx
  }

  /** The end-of-animation branch: past `end` the loop count grows unless done; a one-shot
      state becomes done, a looping one rewinds every cursor and takes `end` off the progress. */
  function Wrap(end: real, once: bool, c: Cursors): Cursors
  {
    if c.progress > end then
      var loops := if !c.done then c.numLoops + 1 else c.numLoops;
      if once then c.(numLoops := loops, done := true)
      else Cursors(0, 0, 0, c.progress - end, loops, c.done)
    else c
  }

  /** One pass of the loop body. A cursor into a non-empty track is used as an index, so one
      outside the track panics (`None`). The pos and rot cursors `Advance`; the scale branch
      repeats the test and the move on the pos cursor and the pos track, so with a scale track
      and no pos track it panics. Then `Wrap`. */
  function Step(tr: Tracks, end: real, once: bool, c: Cursors): (r: Option<Cursors>)
  {
    if !CursorOk(tr.pos, c.pos) || !CursorOk(tr.rot, c.rot) then None
    else
      var pos1 := Advance(tr.pos, c.pos, c.progress);
      var rot1 := Advance(tr.rot, c.rot, c.progress);
      if |tr.scale| > 0 && !(0 <= pos1 < |tr.pos|) then None
      else
        var pos2 := if |tr.scale| > 0 then Advance(tr.pos, pos1, c.progress) else pos1;
        Some(Wrap(end, once, Cursors(pos2, rot1, c.scale, c.progress, c.numLoops, c.done)))
  }

  predicate SameCursors(a: Cursors, b: Cursors)
  {
    a.pos == b.pos && a.rot == b.rot && a.scale == b.scale
  }

  /** 1 while a looping state is past `end` with a cursor off the first keyframe: the next
      pass rewinds, after which the loop stops or never rewinds again. */
  function WrapPending(end: real, once: bool, c: Cursors): nat
  {
    if !once && c.progress > end && !(c.pos == 0 && c.rot == 0 && c.scale == 0) then 1 else 0
  }

  /** How far a cursor inside a track is from its last keyframe. */
  function Dist(idx: int, len: int): nat
  {
    if 0 <= idx < len then len - 1 - idx else 0
  }

  /** A pass that moves a cursor either clears a pending rewind, or keeps none pending and
      moves the pos and rot cursors strictly closer to their last keyframes. */
  lemma StepDecreases(tr: Tracks, end: real, once: bool, c: Cursors)
    requires Step(tr, end, once, c).Some? && !SameCursors(c, Step(tr, end, once, c).value)
    ensures var c' := Step(tr, end, once, c).value;
            WrapPending(end, once, c') < WrapPending(end, once, c)
            || (WrapPending(end, once, c') == WrapPending(end, once, c)
                && Dist(c'.pos, |tr.pos|) + Dist(c'.rot, |tr.rot|) < Dist(c.pos, |tr.pos|) + Dist(c.rot, |tr.rot|))
  {
  }

  /** The whole `loop` of `advance_state`: passes until one leaves all three cursors as they
      were; `None` when a pass panics. */
  function Settle(tr: Tracks, end: real, once: bool, c: Cursors): Option<Cursors>
    decreases WrapPending(end, once, c), Dist(c.pos, |tr.pos|) + Dist(c.rot, |tr.rot|)
  {
    match Step(tr, end, once, c)
    case None => None
    case Some(c') =>
      if SameCursors(c, c') then Some(c')
      else
        StepDecreases(tr, end, once, c);
        Settle(tr, end, once, c')
  }

  // ---------------------------------------------------------------------------
  // Scene objects and `advance_state`

  /** The part of a scene `Object` the animation code reads: its base transform and its
      animations by name. */
  datatype Object = Object(name: string, pos: Vec3, rot: Quat, scale: Vec3, animations: map<string, Animation>)

  /** `Object::advance_state`: zeroes the loop count, looks the animation up under the name
      held before any switch (a missing one panics), then carries out a pending switch or
      reset (new name, cursors and progress 0, not done), adds `amount` to the progress and
      runs the loop. */
  method AdvanceState(obj: Object, state: AnimationState, amount: real) returns (panicked: bool)
    modifies state
    ensures old(state.animationName) !in obj.animations ==> panicked
    ensures old(state.animationName) in obj.animations ==>
              var anim := obj.animations[old(state.animationName)];
              var switch := old(state.animationName) != old(state.newAnimationName) || old(state.needReset);
              var c0 := if switch then Cursors(0, 0, 0, amount, 0, false)
                        else Cursors(old(state.posIdx), old(state.rotIdx), old(state.scaleIdx), old(state.progress) + amount, 0, old(state.done));
              (panicked <==> Settle(anim.tracks, anim.end, old(state.once), c0).None?)
              && (!panicked ==> Snap(state) == Settle(anim.tracks, anim.end, old(state.once), c0).value
                                && state.animationName == old(state.newAnimationName)
                                && state.newAnimationName == old(state.newAnimationName)
                                && !state.needReset && state.once == old(state.once))
  {
    state.numLoops := 0;
    var resetActivations := state.animationName != state.newAnimationName || state.needReset;
    if state.animationName !in obj.animations {
      return true;
    }
    var animation := obj.animations[state.animationName];
    var c0 := Snap(state);
    if resetActivations {
      state.animationName := state.newAnimationName;
      state.needReset := false;
      c0 := Cursors(0, 0, 0, 0.0, 0, false);
    }
    state.SetCursors(c0.(progress := c0.progress + amount));
    panicked := RunLoop(animation.tracks, animation.end, state);
  }

  /** The `loop` of `advance_state` on the state's fields: each pass is computed from the
      fields and written back; the loop ends on a panic or on a pass that leaves all three
      cursors as they were. */
  method RunLoop(tr: Tracks, end: real, state: AnimationState) returns (panicked: bool)
    modifies state
    ensures panicked <==> Settle(tr, end, old(state.once), old(Snap(state))).None?
    ensures !panicked ==> Snap(state) == Settle(tr, end, old(state.once), old(Snap(state))).value
    ensures state.animationName == old(state.animationName) && state.newAnimationName == old(state.newAnimationName)
    ensures state.once == old(state.once) && state.needReset == old(state.needReset)
  {
    ghost var c0 := Snap(state);
    panicked := false;
    while true
      invariant state.animationName == old(state.animationName) && state.newAnimationName == old(state.newAnimationName)
      invariant state.once == old(state.once) && state.needReset == old(state.needReset)
      invariant Settle(tr, end, state.once, Snap(state)) == Settle(tr, end, state.once, c0)
      decreases WrapPending(end, state.once, Snap(state)), Dist(state.posIdx, |tr.pos|) + Dist(state.rotIdx, |tr.rot|)
    {
      var c := Snap(state);
      var r := Pass(tr, end, state.once, c);
      if r.None? {
        return true;
      }
      var c' := r.value;
      state.SetCursors(c');
      if SameCursors(c, c') {
        return;
      }
      StepDecreases(tr, end, state.once, c);
    }
  }

  /** One pass of the loop body, on the loop variables. */
  method Pass(tr: Tracks, end: real, once: bool, c: Cursors) returns (r: Option<Cursors>)
    ensures r == Step(tr, end, once, c)
  {
    var pos, rot, progress, numLoops, done := c.pos, c.rot, c.progress, c.numLoops, c.done;
    var scale := c.scale;
    var panicked := false;
    if |tr.pos| > 0 {
      panicked, pos := MoveCursor(tr.pos, pos, progress);
      if panicked {
        return None;
      }
    }
    if |tr.rot| > 0 {
      panicked, rot := MoveCursor(tr.rot, rot, progress);
      if panicked {
        return None;
      }
    }
    if |tr.scale| > 0 {
      // The source tests and moves the pos cursor here.
      panicked, pos := MoveCursor(tr.pos, pos, progress);
      if panicked {
        return None;
      }
    }
    ghost var beforeWrap := Cursors(pos, rot, scale, progress, numLoops, done);
    if progress > end {
      if !done {
        numLoops := numLoops + 1;
      }
      if once {
        done := true;
      } else {
        pos, rot, scale := 0, 0, 0;
        progress := progress - end;
      }
    }
    assert Cursors(pos, rot, scale, progress, numLoops, done) == Wrap(end, once, beforeWrap);
    r := Some(Cursors(pos, rot, scale, progress, numLoops, done));
  }

  /** The cursor test-and-move of the loop body: indexing the track with the cursor panics
      when it is outside the track; otherwise the cursor moves one keyframe on, up to the
      last, when the progress is past the keyframe under it. */
  method MoveCursor<T>(track: seq<Keyframe<T>>, idx: int, progress: real) returns (panicked: bool, idx': int)
    ensures panicked <==> !(0 <= idx < |track|)
    ensures !panicked ==> idx' == Advance(track, idx, progress) && idx <= idx' < |track|
  {
    if !(0 <= idx < |track|) {
      return true, idx;
    }
    idx' := idx;
    if progress > track[idx].time {
      idx' := NextIdx(idx, |track|);
    }
    panicked := false;
  }

  // ---------------------------------------------------------------------------
  // Properties of one pass and of the whole loop

  /** A scale track without a pos track panics on the first pass: the scale branch indexes
      the empty pos track. */
  lemma ScaleWithoutPosPanics(tr: Tracks, end: real, once: bool, c: Cursors)
    requires |tr.pos| == 0 && |tr.scale| > 0
    ensures Step(tr, end, once, c).None?
  {
  }

  /** Past `end`, a one-shot pass sets `done` and keeps the progress; a looping pass puts
      every cursor on 0 and takes `end` off the progress. Either way the loop count grows by
      one exactly when the state was not done. At or before `end` only the pos and rot
      cursors change. */
  lemma StepAtEnd(tr: Tracks, end: real, once: bool, c: Cursors)
    requires Step(tr, end, once, c).Some?
    ensures var c' := Step(tr, end, once, c).value;
            && (c.progress > end && once ==> c'.done && c'.progress == c.progress && c'.scale == c.scale)
            && (c.progress > end && !once ==>
                  c'.pos == 0 && c'.rot == 0 && c'.scale == 0 && c'.progress == c.progress - end && c'.done == c.done)
            && (c.progress > end ==> c'.numLoops == if c.done then c.numLoops else c.numLoops + 1)
            && (c.progress <= end ==>
                  c'.progress == c.progress && c'.numLoops == c.numLoops && c'.done == c.done && c'.scale == c.scale)
  {
  }

  /** Without a wrap a pass never moves a cursor back: the rot cursor moves at most one
      keyframe, the pos cursor at most two (its own branch and the scale branch), and the
      scale cursor not at all. */
  lemma StepMovesForward(tr: Tracks, end: real, once: bool, c: Cursors)
    requires Step(tr, end, once, c).Some? && c.progress <= end
    ensures var c' := Step(tr, end, once, c).value;
            && c.pos <= c'.pos <= c.pos + 2 && c.rot <= c'.rot <= c.rot + 1 && c'.scale == c.scale
            && (|tr.scale| == 0 ==> c'.pos <= c.pos + 1)
            && (|tr.pos| > 0 ==> c'.pos <= |tr.pos| - 1 || c'.pos == c.pos)
  {
  }

  /** How many loop counts one `advance_state` can still add from `c`: a done one-shot state
      none, a one-shot state otherwise one, a looping state one plus a pending rewind. */
  function LoopBudget(end: real, once: bool, c: Cursors): nat
  {
    if once then (if c.done then 0 else 1) else 1 + WrapPending(end, once, c)
  }

  /** The loop count never falls, grows by at most `LoopBudget` (so by at most 2 in a call,
      which starts from 0), and a one-shot state whose count grew is done. */
  lemma {:induction false} SettleLoops(tr: Tracks, end: real, once: bool, c: Cursors)
    requires Settle(tr, end, once, c).Some?
    ensures var c' := Settle(tr, end, once, c).value;
            && c.numLoops <= c'.numLoops <= c.numLoops + LoopBudget(end, once, c)
            && (once && c'.numLoops > c.numLoops ==> c'.done)
            && (once && c.done ==> c'.done)
    decreases WrapPending(end, once, c), Dist(c.pos, |tr.pos|) + Dist(c.rot, |tr.rot|)
  {
    var c1 := Step(tr, end, once, c).value;
    StepAtEnd(tr, end, once, c);
    if !SameCursors(c, c1) {
      StepDecreases(tr, end, once, c);
      SettleLoops(tr, end, once, c1);
      if !once && c.progress > end {
        assert WrapPending(end, once, c1) == 0;
      }
    }
  }

  /** The scale cursor is never advanced: a call leaves it as it was or, after a rewind, on
      0; a one-shot state never changes it. */
  lemma {:induction false} SettleKeepsScale(tr: Tracks, end: real, once: bool, c: Cursors)
    requires Settle(tr, end, once, c).Some?
    ensures var c' := Settle(tr, end, once, c).value;
            (c'.scale == c.scale || c'.scale == 0) && (once ==> c'.scale == c.scale)
    decreases WrapPending(end, once, c), Dist(c.pos, |tr.pos|) + Dist(c.rot, |tr.rot|)
  {
    var c1 := Step(tr, end, once, c).value;
    StepAtEnd(tr, end, once, c);
    if !SameCursors(c, c1) {
      StepDecreases(tr, end, once, c);
      SettleKeepsScale(tr, end, once, c1);
    }
  }

  /** When the loop ends without a panic its pos and rot cursors can index their tracks, and
      with a scale track the pos cursor is inside the pos track. */
  lemma {:induction false} SettledCursorsInRange(tr: Tracks, end: real, once: bool, c: Cursors)
    requires Settle(tr, end, once, c).Some?
    ensures var c' := Settle(tr, end, once, c).value;
            CursorOk(tr.pos, c'.pos) && CursorOk(tr.rot, c'.rot)
            && (|tr.scale| > 0 ==> 0 <= c'.pos < |tr.pos|)
    decreases WrapPending(end, once, c), Dist(c.pos, |tr.pos|) + Dist(c.rot, |tr.rot|)
  {
    var c1 := Step(tr, end, once, c).value;
    if !SameCursors(c, c1) {
      StepDecreases(tr, end, once, c);
      SettledCursorsInRange(tr, end, once, c1);
    }
  }

  // ---------------------------------------------------------------------------
  // `get_animation_position`

  /** One track's part of the pose: the object's own component for an empty track, a panic
      for a cursor outside a non-empty track, the cursor's keyframe on the last keyframe,
      otherwise `interp(v0, v1, f)` with `f = (progress - t0) / (t1 - t0)`; two keyframes at
      the same time make that factor a division by zero, which is not a finite value. */
  datatype Sample<T> = Sampled(value: T) | NonFinite | BadCursor

  function SampleTrack<T>(track: seq<Keyframe<T>>, idx: int, progress: real, base: T, interp: (T, T, real) -> T): (r: Sample<T>)
    ensures |track| == 0 ==> r == Sampled(base)
    ensures r.BadCursor? <==> !CursorOk(track, idx)
    ensures r.NonFinite? <==> 0 <= idx && idx + 1 < |track| && track[idx + 1].time == track[idx].time
    ensures 0 <= idx && idx + 1 == |track| ==> r == Sampled(track[idx].value)
  {
    if |track| == 0 then Sampled(base)
    else if !(0 <= idx < |track|) then BadCursor
    else if idx + 1 >= |track| then Sampled(track[idx].value)
    else
      var t0, t1 := track[idx].time, track[idx + 1].time;
      if t1 == t0 then NonFinite
      else Sampled(interp(track[idx].value, track[idx + 1].value, (progress - t0) / (t1 - t0)))
  }

  /** Linear interpolation meets the keyframes: at the cursor keyframe's time the sample is
      its value and at the next keyframe's time the next value; between the two the factor
      lies in [0, 1]. */
  lemma SampleMeetsKeyframes(track: seq<Keyframe<Vec3>>, idx: int, progress: real, base: Vec3)
    requires 0 <= idx && idx + 1 < |track| && track[idx].time < track[idx + 1].time
    ensures progress == track[idx].time ==> SampleTrack(track, idx, progress, base, Lerp3) == Sampled(track[idx].value)
    ensures progress == track[idx + 1].time ==> SampleTrack(track, idx, progress, base, Lerp3) == Sampled(track[idx + 1].value)
    ensures track[idx].time <= progress <= track[idx + 1].time ==>
              0.0 <= (progress - track[idx].time) / (track[idx + 1].time - track[idx].time) <= 1.0
  {
    var t0, t1 := track[idx].time, track[idx + 1].time;
    var v0, v1 := track[idx].value, track[idx + 1].value;
    if progress == t1 {
      assert (progress - t0) / (t1 - t0) == 1.0;
      assert Lerp3(v0, v1, 1.0) == v1;
    }
    if t0 <= progress <= t1 {
      DivBetween(progress - t0, t1 - t0);
    }
  }

  lemma DivBetween(a: real, b: real)
    requires 0.0 <= a <= b && b > 0.0
    ensures 0.0 <= a / b <= 1.0
  {
    assert a / b * b == a;
  }

  datatype Pose = Pose(pos: Vec3, rot: Quat, scale: Vec3)

  /** A panic, a pose with a non-finite component, or the pose. */
  datatype PoseResult = Posed(pose: Pose) | PoseNonFinite | PosePanic

  /** The pose of an object under an animation at the given cursors; rotations interpolate
      through `slerp`, which the model does not interpret. */
  function PoseAt(tr: Tracks, obj: Object, c: Cursors, slerp: (Quat, Quat, real) -> Quat): (r: PoseResult)
    ensures r.PosePanic? <==> !CursorOk(tr.pos, c.pos) || !CursorOk(tr.rot, c.rot) || !CursorOk(tr.scale, c.scale)
    ensures |tr.pos| == 0 && |tr.rot| == 0 && |tr.scale| == 0 ==> r == Posed(Pose(obj.pos, obj.rot, obj.scale))
    ensures r.Posed? ==> (|tr.pos| == 0 ==> r.pose.pos == obj.pos) && (|tr.rot| == 0 ==> r.pose.rot == obj.rot)
                         && (|tr.scale| == 0 ==> r.pose.scale == obj.scale)
  {
    var p := SampleTrack(tr.pos, c.pos, c.progress, obj.pos, Lerp3);
    var q := SampleTrack(tr.rot, c.rot, c.progress, obj.rot, slerp);
    var s := SampleTrack(tr.scale, c.scale, c.progress, obj.scale, Lerp3);
    if p.BadCursor? || q.BadCursor? || s.BadCursor? then PosePanic
    else if p.NonFinite? || q.NonFinite? || s.NonFinite? then PoseNonFinite
    else Posed(Pose(p.value, q.value, s.value))
  }

  /** `Object::get_animation_position`: a missing animation panics; otherwise the pose at the
      state's cursors and progress. */
  function GetAnimationPosition(obj: Object, state: AnimationState, slerp: (Quat, Quat, real) -> Quat): (r: PoseResult)
    reads state
    ensures state.animationName !in obj.animations ==> r.PosePanic?
    ensures state.animationName in obj.animations ==> r == PoseAt(obj.animations[state.animationName].tracks, obj, Snap(state), slerp)
  {
    if state.animationName !in obj.animations then PosePanic
    else PoseAt(obj.animations[state.animationName].tracks, obj, Snap(state), slerp)
  }

  /** Sampling the animation the loop settled against, right after a loop that ended without
      a panic, does not panic, provided the scale cursor could index its track before the loop
      (it is 0 after every switch). This is the call without a switch: after a switch,
      `advance_state` settles against the old animation's tracks while the sample reads the
      new one's (see `SwitchedPoseCanPanic`). */
  lemma SettledPoseDoesNotPanic(tr: Tracks, end: real, once: bool, c: Cursors, obj: Object, slerp: (Quat, Quat, real) -> Quat)
    requires Settle(tr, end, once, c).Some? && (c.scale == 0 || CursorOk(tr.scale, c.scale))
    ensures !PoseAt(tr, obj, Settle(tr, end, once, c).value, slerp).PosePanic?
  {
    SettledCursorsInRange(tr, end, once, c);
    SettleKeepsScale(tr, end, once, c);
  }

  // ---------------------------------------------------------------------------
  // A worked example

  const HalfwayTracks := Tracks([Keyframe(0.0, Zero3), Keyframe(1.0, Vec3(2.0, 0.0, 0.0))], [], [])

  /** Half a second into a fresh looping animation with keyframes at 0 and 1 (and `end` 1):
      the first pass moves the pos cursor past the keyframe at 0, the second leaves it, so the
      cursor rests on the last keyframe and the sample is that keyframe, not the midpoint. */
  lemma HalfwayHoldsLastKeyframe(obj: Object, slerp: (Quat, Quat, real) -> Quat)
    ensures Settle(HalfwayTracks, 1.0, false, Cursors(0, 0, 0, 0.5, 0, false)) == Some(Cursors(1, 0, 0, 0.5, 0, false))
    ensures PoseAt(HalfwayTracks, obj, Cursors(1, 0, 0, 0.5, 0, false), slerp) == Posed(Pose(Vec3(2.0, 0.0, 0.0), obj.rot, obj.scale))
  {
    var c0 := Cursors(0, 0, 0, 0.5, 0, false);
    var c1 := Cursors(1, 0, 0, 0.5, 0, false);
    assert Step(HalfwayTracks, 1.0, false, c0) == Some(c1);
    assert Step(HalfwayTracks, 1.0, false, c1) == Some(c1);
  }

  // ---------------------------------------------------------------------------
  // A switch that panics

  /** Three pos keyframes at 0, 1 and 2. */
  const ThreeKeyTracks := Tracks([Keyframe(0.0, Zero3), Keyframe(1.0, Zero3), Keyframe(2.0, Zero3)], [], [])

  /** One pos keyframe at 0. */
  const OneKeyTracks := Tracks([Keyframe(0.0, Zero3)], [], [])

  /** `advance_state` settles the cursors against the animation held before the switch, but
      `get_animation_position` samples the new one. Switching with an `amount` of 1.5 from an
      animation with pos keyframes at 0, 1 and 2 (and `end` 2) leaves the pos cursor at 2,
      which the new animation's single pos keyframe cannot index, so the sample panics. */
  lemma SwitchedPoseCanPanic(obj: Object, state: AnimationState, slerp: (Quat, Quat, real) -> Quat)
    requires "walk" in obj.animations && obj.animations["walk"].tracks == OneKeyTracks
    requires state.animationName == "walk"
    ensures Settle(ThreeKeyTracks, 2.0, false, Cursors(0, 0, 0, 1.5, 0, false)) == Some(Cursors(2, 0, 0, 1.5, 0, false))
    ensures Snap(state) == Cursors(2, 0, 0, 1.5, 0, false) ==> GetAnimationPosition(obj, state, slerp) == PosePanic
  {
    var c0 := Cursors(0, 0, 0, 1.5, 0, false);
    var c1 := Cursors(1, 0, 0, 1.5, 0, false);
    var c2 := Cursors(2, 0, 0, 1.5, 0, false);
    assert Step(ThreeKeyTracks, 2.0, false, c0) == Some(c1);
    assert Step(ThreeKeyTracks, 2.0, false, c1) == Some(c2);
    assert Step(ThreeKeyTracks, 2.0, false, c2) == Some(c2);
    assert Settle(ThreeKeyTracks, 2.0, false, c2) == Some(c2);
    assert Settle(ThreeKeyTracks, 2.0, false, c1) == Some(c2);
    if Snap(state) == c2 {
      assert !CursorOk(OneKeyTracks.pos, 2);
    }
  }

  // ---------------------------------------------------------------------------
  // Where the cursor rests

  const RampTracks := Tracks([Keyframe(0.0, Zero3), Keyframe(1.0, Vec3(2.0, 0.0, 0.0)), Keyframe(2.0, Vec3(6.0, 0.0, 0.0))], [], [])

  /** The pos cursor rests on the first keyframe at or after the progress: at 0.5 on
      keyframes at 0, 1 and 2 it stops at 1. */
  lemma CursorRestsAfterProgress()
    ensures Settle(RampTracks, 2.0, false, Cursors(0, 0, 0, 0.5, 0, false)) == Some(Cursors(1, 0, 0, 0.5, 0, false))
  {
    var c0 := Cursors(0, 0, 0, 0.5, 0, false);
    var c1 := Cursors(1, 0, 0, 0.5, 0, false);
    assert Step(RampTracks, 2.0, false, c0) == Some(c1);
    assert Step(RampTracks, 2.0, false, c1) == Some(c1);
  }

  /** So between two keyframes that are not the last pair the sample extrapolates back from
      the later one: at cursor 1 and progress 0.5 the fraction is -0.5, which gives the
      origin, neither the midpoint (1, 0, 0) nor the keyframe (2, 0, 0). */
  lemma BetweenKeyframesExtrapolates(base: Vec3)
    ensures SampleTrack(RampTracks.pos, 1, 0.5, base, Lerp3) == Sampled(Zero3)
  {
    var tr := RampTracks.pos;
    assert tr[1] == Keyframe(1.0, Vec3(2.0, 0.0, 0.0)) && tr[2] == Keyframe(2.0, Vec3(6.0, 0.0, 0.0));
    assert SampleTrack(tr, 1, 0.5, base, Lerp3)
        == Sampled(Lerp3(Vec3(2.0, 0.0, 0.0), Vec3(6.0, 0.0, 0.0), (0.5 - 1.0) / (2.0 - 1.0))) by {
      SampleBetween(tr, 1, 0.5, base);
    }
    assert Lerp3(Vec3(2.0, 0.0, 0.0), Vec3(6.0, 0.0, 0.0), (0.5 - 1.0) / (2.0 - 1.0)) == Zero3 by {
      RampFraction();
      RampLerp();
    }
  }

  /** Between two keyframes with distinct times the sample is the interpolation at the
      fraction of the way from the cursor keyframe's time to the next one's. */
  lemma SampleBetween(track: seq<Keyframe<Vec3>>, idx: int, progress: real, base: Vec3)
    requires 0 <= idx && idx + 1 < |track| && track[idx].time != track[idx + 1].time
    ensures SampleTrack(track, idx, progress, base, Lerp3)
         == Sampled(Lerp3(track[idx].value, track[idx + 1].value,
                          (progress - track[idx].time) / (track[idx + 1].time - track[idx].time)))
  {
  }

  /** A step of `BetweenKeyframesExtrapolates`, kept apart so its real arithmetic stays
      small: the fraction at progress 0.5 between the keyframes at 1 and 2 is -0.5. */
  lemma RampFraction()
    ensures (0.5 - 1.0) / (2.0 - 1.0) == -0.5
  {
  }

  /** A step of `BetweenKeyframesExtrapolates`: (2, 0, 0) towards (6, 0, 0) at -0.5 is the origin. */
  lemma RampLerp()
    ensures Lerp3(Vec3(2.0, 0.0, 0.0), Vec3(6.0, 0.0, 0.0), -0.5) == Zero3
  {
    RampDelta();
    RampScaled();
  }

  /** A step of `RampLerp`: the difference of the two keyframe values. */
  lemma RampDelta()
    ensures Sub3(Vec3(6.0, 0.0, 0.0), Vec3(2.0, 0.0, 0.0)) == Vec3(4.0, 0.0, 0.0)
  {
  }

  /** A step of `RampLerp`: that difference scaled by the fraction. */
  lemma RampScaled()
    ensures Scale3(-0.5, Vec3(4.0, 0.0, 0.0)) == Vec3(-2.0, 0.0, 0.0)
  {
  }

  /** A rewind with the progress no longer past `end` lets the next pass move the cursors
      again: from the last of keyframes at 0, 1 and 2 with progress 2.5 and `end` 2, the pass
      rewinds to progress 0.5 with one loop, and the pass after it moves the pos cursor to 1. */
  lemma RewindThenMoves()
    ensures Step(RampTracks, 2.0, false, Cursors(2, 0, 0, 2.5, 0, false)) == Some(Cursors(0, 0, 0, 0.5, 1, false))
    ensures Step(RampTracks, 2.0, false, Cursors(0, 0, 0, 0.5, 1, false)) == Some(Cursors(1, 0, 0, 0.5, 1, false))
  {
  }
}
