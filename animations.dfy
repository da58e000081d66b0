/**
 * Animation: a clip of frames played one after another, each held for
 * `updateInterval` milliseconds of the device timer, looping or one-shot.
 *
 * The playback state (frame index, time of the last advance, finished flag)
 * is specified by pure functions on a `Playback` value; the class below
 * updates its fields in place and is proved to follow them.
 */
module Animations {
  import opened Sprites

  const TimerModulus := 0x1_0000_0000

  /** The device timer's u32 milliseconds. */
  type U32 = n: int | 0 <= n < 0x1_0000_0000

  /** `now - before` computed in u32 arithmetic, which wraps around modulo 2^32. */
  function Elapsed(now: U32, before: U32): (d: U32)
    ensures before <= now ==> d == now - before
    ensures now < before ==> d == now - before + TimerModulus
  {
    (now - before) % TimerModulus
  }

  /** The fields draw_next and reset change: imageIndex, previousTime, finished. */
  datatype Playback = Playback(imageIndex: int, previousTime: U32, finished: bool)

  /** The state reset() leaves: first frame, timer restarted at `now`, not finished. */
  function Restarted(now: U32): Playback
  {
    Playback(0, now, false)
  }

  /**
   * The state after draw_next at time `now` for a clip of `frames` frames.
   * A finished clip that loops is first restarted; a finished clip that does
   * not loop stays as it is.  Otherwise the frame advances when more than
   * `interval` milliseconds have passed since the last advance, and the clip
   * is marked finished once the frame shown is the last one (or beyond it).
   */
  function Next(p: Playback, frames: nat, loop: bool, interval: U32, now: U32): (q: Playback)
    // a finished one-shot clip is frozen
    ensures p.finished && !loop ==> q == p
    // a finished looping clip starts over and stays on its first frame this time
    ensures p.finished && loop ==> q == Playback(0, now, frames <= 1)
    // an unfinished clip advances by exactly one frame, recording now, iff the interval has passed
    ensures !p.finished ==>
      ((q.imageIndex == p.imageIndex + 1 && q.previousTime == now) <==> Elapsed(now, p.previousTime) > interval)
    ensures !p.finished && Elapsed(now, p.previousTime) <= interval ==>
      q.imageIndex == p.imageIndex && q.previousTime == p.previousTime
    // unless frozen, the flag afterwards says whether no frame follows the one shown
    ensures !(p.finished && !loop) ==> (q.finished <==> q.imageIndex + 1 >= frames)
    // only a restart clears the flag
    ensures p.finished && !q.finished ==> loop && q.imageIndex == 0
  {
    if p.finished && !loop then p
    else
      var start := if p.finished then Restarted(now) else p;
      var shown :=
        if Elapsed(now, start.previousTime) > interval
        then Playback(start.imageIndex + 1, now, start.finished)
        else start;
      if shown.imageIndex + 1 >= frames then shown.(finished := true) else shown
  }

  /**
   * The playback invariant: the index names a frame of the clip, and the
   * clip is finished exactly when that frame is its last one.
   */
  ghost predicate InBounds(p: Playback, frames: nat)
  {
    0 <= p.imageIndex < frames && (p.finished <==> p.imageIndex + 1 == frames)
  }

  /** Every draw_next keeps the invariant, whatever the clip's length. */
  lemma NextInBounds(p: Playback, frames: nat, loop: bool, interval: U32, now: U32)
    requires InBounds(p, frames)
    ensures InBounds(Next(p, frames, loop, interval, now), frames)
  {
  }

  /** reset() establishes the invariant exactly when the clip has two frames or more. */
  lemma RestartedInBounds(now: U32, frames: nat)
    ensures InBounds(Restarted(now), frames) <==> frames >= 2
  {
  }

  /** The state after a draw_next at each of the given times, in order. */
  function Run(p: Playback, frames: nat, loop: bool, interval: U32, times: seq<U32>): Playback
    decreases |times|
  {
    if times == [] then p
    else Next(Run(p, frames, loop, interval, Init(times)), frames, loop, interval, Last(times))
  }

  /** All ticks but the last. */
  function Init(times: seq<U32>): (init: seq<U32>)
    requires times != []
    ensures |init| == |times| - 1 && init + [times[|times| - 1]] == times
  {
    times[..|times| - 1]
  }

  /** The last tick. */
  function Last(times: seq<U32>): U32
    requires times != []
  {
    times[|times| - 1]
  }

  /** Every sequence of draw_next calls keeps the invariant. */
  lemma {:induction false} RunInBounds(p: Playback, frames: nat, loop: bool, interval: U32, times: seq<U32>)
    requires InBounds(p, frames)
    ensures InBounds(Run(p, frames, loop, interval, times), frames)
    decreases |times|
  {
    if times != [] {
      RunInBounds(p, frames, loop, interval, Init(times));
      NextInBounds(Run(p, frames, loop, interval, Init(times)), frames, loop, interval, Last(times));
    }
  }

  /**
   * After a reset() of a clip with at least two frames, the frame index stays
   * in range whatever times draw_next is called at.
   */
  lemma RunFromResetInBounds(start: U32, frames: nat, loop: bool, interval: U32, times: seq<U32>)
    requires frames >= 2
    ensures var p := Run(Restarted(start), frames, loop, interval, times);
      0 <= p.imageIndex < frames
  {
    RunInBounds(Restarted(start), frames, loop, interval, times);
  }

  /** Once a one-shot clip has finished, no sequence of draw_next calls changes it. */
  lemma {:induction false} FinishedOneShotFrozen(p: Playback, frames: nat, interval: U32, times: seq<U32>)
    requires p.finished
    ensures Run(p, frames, false, interval, times) == p
    decreases |times|
  {
    if times != [] {
      FinishedOneShotFrozen(p, frames, interval, Init(times));
    }
  }

  /** Each time in `times` comes more than `interval` after the one before it, the first after `start`. */
  ghost predicate Spaced(start: U32, interval: U32, times: seq<U32>)
  {
    forall k :: 0 <= k < |times| ==> Elapsed(times[k], Before(start, times, k)) > interval
  }

  /** The tick before tick k, or `start` before the first one. */
  function Before(start: U32, times: seq<U32>, k: nat): U32
    requires k <= |times|
  {
    if k == 0 then start else times[k - 1]
  }

  /** Dropping the last tick of a spaced schedule leaves a spaced schedule. */
  lemma SpacedInit(start: U32, interval: U32, times: seq<U32>)
    requires Spaced(start, interval, times) && times != []
    ensures Spaced(start, interval, Init(times))
    ensures Elapsed(Last(times), Before(start, Init(times), |times| - 1)) > interval
  {
    var init := Init(times);
    forall k | 0 <= k < |init|
      ensures Elapsed(init[k], Before(start, init, k)) > interval
    {
      assert init[k] == times[k];
      assert Before(start, init, k) == Before(start, times, k);
    }
    assert Before(start, init, |times| - 1) == Before(start, times, |times| - 1);
  }

  /** An unfinished one-shot frame whose interval has passed moves on by one. */
  lemma AdvanceOneShot(p: Playback, frames: nat, interval: U32, now: U32)
    requires !p.finished && Elapsed(now, p.previousTime) > interval
    ensures Next(p, frames, false, interval, now) == Playback(p.imageIndex + 1, now, p.imageIndex + 2 >= frames)
  {
  }

  /** While a spaced one-shot run is still short of its last frame, it is one frame per tick. */
  lemma {:induction false} PreviousTimeOfSchedule(start: U32, frames: nat, interval: U32, times: seq<U32>)
    requires frames >= 2
    requires Spaced(start, interval, times)
    requires |times| < frames
    ensures Run(Restarted(start), frames, false, interval, times) ==
      Playback(|times|, Before(start, times, |times|), |times| == frames - 1)
    decreases |times|
  {
    if times != [] {
      SpacedInit(start, interval, times);
      PreviousTimeOfSchedule(start, frames, interval, Init(times));
      var prev := Run(Restarted(start), frames, false, interval, Init(times));
      assert !prev.finished && prev.previousTime == Before(start, Init(times), |times| - 1);
      AdvanceOneShot(prev, frames, interval, Last(times));
      assert Run(Restarted(start), frames, false, interval, times) == Next(prev, frames, false, interval, Last(times));
    }
  }

  /**
   * A one-shot clip of n >= 2 frames driven with ticks one interval apart:
   * after k ticks it shows frame min(k, n - 1), and it reports finished
   * exactly from the (n - 1)th tick on.  The last frame is shown and never
   * passed.
   */
  lemma {:induction false} OneShotSchedule(start: U32, frames: nat, interval: U32, times: seq<U32>)
    requires frames >= 2
    requires Spaced(start, interval, times)
    ensures var p := Run(Restarted(start), frames, false, interval, times);
      && p.imageIndex == (if |times| < frames - 1 then |times| else frames - 1)
      && (p.finished <==> |times| >= frames - 1)
    decreases |times|
  {
    if |times| < frames {
      PreviousTimeOfSchedule(start, frames, interval, times);
    } else {
      // finished one tick earlier: the one-shot clip is frozen
      SpacedInit(start, interval, times);
      OneShotSchedule(start, frames, interval, Init(times));
    }
  }

  /**
   * With a single frame, the first draw_next after reset() that comes more
   * than an interval later moves the index to 1, and draw_current then reads
   * images[1], past the end of the clip.
   */
  lemma SingleFrameOverrun(start: U32, loop: bool, interval: U32, now: U32)
    requires Elapsed(now, start) > interval
    ensures Next(Restarted(start), 1, loop, interval, now).imageIndex == 1
  {
  }

  class Animation {
    const images: seq<SmartImage>
    const loop: bool
    const updateInterval: U32
    var imageIndex: int
    var previousTime: U32
    var finished: bool

    /** The playback fields as one value. */
    function Status(): Playback
      reads this
    {
      Playback(imageIndex, previousTime, finished)
    }

    /** imageIndex names a frame, and finished says whether it is the last one. */
    ghost predicate Valid()
      reads this
    {
      InBounds(Status(), |images|)
    }

    /** Animation(images, loop, updateInterval): stores the clip, then reset(). */
    constructor (images: seq<SmartImage>, loop: bool, updateInterval: U32, now: U32)
      ensures this.images == images && this.loop == loop && this.updateInterval == updateInterval
      ensures Status() == Restarted(now)
      ensures Valid() <==> |images| >= 2
    {
      this.images := images;
      this.updateInterval := updateInterval;
      this.loop := loop;
      imageIndex := 0;
      previousTime := now;
      finished := false;
    }

    /** reset(): back to the first frame, timer restarted at `now`. */
    method Reset(now: U32)
      modifies this
      ensures Status() == Restarted(now)
      ensures Valid() <==> |images| >= 2
    {
      imageIndex := 0;
      previousTime := now;
      finished := false;
    }

    /**
     * draw_next at time `now`.  `shown` is the index draw_current reads
     * images[] at; the drawing itself belongs to the renderer.
     */
    method DrawNext(now: U32) returns (shown: int)
      modifies this
      ensures Status() == Next(old(Status()), |images|, loop, updateInterval, now)
      ensures shown == imageIndex
      ensures old(Valid()) ==> Valid() && 0 <= shown < |images|
    {
      if finished {
        if loop {
          Reset(now);
        } else {
          shown := imageIndex;
          return;
        }
      }
      if Elapsed(now, previousTime) > updateInterval {
        imageIndex := imageIndex + 1;
        previousTime := now;
      }
      shown := imageIndex;
      if imageIndex + 1 >= |images| {
        finished := true;
      }
    }

    /** is_finished */
    function IsFinished(): (r: bool)
      reads this
      ensures Valid() ==> (r <==> imageIndex == |images| - 1)
    {
      finished
    }
  }
}
