/**
 * The playback session of src/narrative.rs (`ActiveTimeline`): a timeline, the
 * position of the frame on screen and a one-shot timer counting down that
 * frame's duration. Tick lengths are whole hundredths of a second.
 *
 * The tick is stated once against a list of frame durations (`Step`); the
 * session's own tick reads that list off its timeline (`FrameDurations`), so the
 * run lemmas below hold for the timeline's durations in particular.
 */
module Playback {
  import opened Wrappers
  import opened Narrative
  import opened OnceTimer

  datatype ActiveTimeline = ActiveTimeline(timeline: Timeline, current: nat, timer: Timer)

  /** The frame on screen, or nothing once playback has run past the last frame. */
  function CurrentFrame(a: ActiveTimeline): (f: Option<Frame>)
    ensures f.Some? <==> a.current < |a.timeline.frames|
    ensures f.Some? ==> f.value == a.timeline.frames[a.current]
  {
    if a.current < |a.timeline.frames| then Some(a.timeline.frames[a.current]) else None
  }

  // ---------------------------------------------------------------------------
  // The tick against a list of frame durations
  // ---------------------------------------------------------------------------

  /** `durs` gives every frame of the session's timeline a positive duration. */
  predicate DurationsFor(a: ActiveTimeline, durs: seq<nat>) {
    |durs| == |a.timeline.frames| && forall k :: 0 <= k < |durs| ==> durs[k] >= MinFrameCentis
  }

  /**
   * The state the player keeps between ticks: while a frame is on screen the timer
   * counts down that frame's duration and has not yet run out; past the last frame
   * the timer has run out, except in the session of an empty timeline that has not
   * been ticked yet, whose timer has length zero.
   */
  predicate Coherent(a: ActiveTimeline, durs: seq<nat>) {
    && DurationsFor(a, durs)
    && Valid(a.timer)
    && (a.current < |durs| ==>
          && a.timer.duration == durs[a.current]
          && !a.timer.finished
          && a.timer.elapsed < a.timer.duration)
    && (a.current >= |durs| ==>
          a.timer.finished || (a.current == 0 && a.timer.duration == 0))
  }

  /**
   * One tick of `delta` with frame durations `durs`. When the timer runs out the
   * position moves on by one; if that lands on a frame, a fresh timer for it is
   * started (time left over from the previous frame is dropped) and the tick reports
   * `true`. Past the end the timer stays run out, so the position keeps moving but
   * nothing is reported.
   */
  function Step(a: ActiveTimeline, delta: nat, durs: seq<nat>): (r: (ActiveTimeline, bool))
    requires Valid(a.timer) && |durs| == |a.timeline.frames|
    ensures Valid(r.0.timer) && r.0.timeline == a.timeline
    ensures a.current <= r.0.current <= a.current + 1
    ensures r.0.current == a.current + 1 <==> Tick(a.timer, delta).finished
    ensures r.1 <==> r.0.current == a.current + 1 && r.0.current < |a.timeline.frames|
    ensures r.1 ==> r.0.timer == FromDuration(durs[r.0.current])
    ensures r.0.current == a.current ==> r.0.timer == Tick(a.timer, delta)
    ensures Coherent(a, durs) ==> Coherent(r.0, durs)
  {
    var timer := Tick(a.timer, delta);
    if timer.finished then
      var next := a.current + 1;
      if next < |a.timeline.frames| then
        (ActiveTimeline(a.timeline, next, FromDuration(durs[next])), true)
      else
        (ActiveTimeline(a.timeline, next, timer), false)
    else
      (a.(timer := timer), false)
  }

  /** The session after each tick of `deltas` in turn, with what each tick reported. */
  function RunWith(a: ActiveTimeline, deltas: seq<nat>, durs: seq<nat>): (r: (ActiveTimeline, seq<bool>))
    requires Valid(a.timer) && |durs| == |a.timeline.frames|
    ensures Valid(r.0.timer) && r.0.timeline == a.timeline
    ensures |r.1| == |deltas|
    decreases |deltas|
  {
    if |deltas| == 0 then (a, [])
    else
      var (b, fired) := Step(a, deltas[0], durs);
      var (c, rest) := RunWith(b, deltas[1..], durs);
      (c, [fired] + rest)
  }

  // ---------------------------------------------------------------------------
  // The session as the game drives it
  // ---------------------------------------------------------------------------

  /** The session invariant for the timeline's own frame durations. */
  predicate Consistent(a: ActiveTimeline) {
    Coherent(a, FrameDurations(a.timeline.frames))
  }

  /**
   * A session at the first frame, with a fresh timer of that frame's duration
   * (of length zero when there are no frames).
   */
  function FromTimeline(t: Timeline): (a: ActiveTimeline)
    ensures a.timeline == t && a.current == 0
    ensures Consistent(a)
    ensures a.timer == FromDuration(FrameDurationCentis(t, 0))
    ensures CurrentFrame(a) == if |t.frames| > 0 then Some(t.frames[0]) else None
  {
    ActiveTimeline(t, 0, FromDuration(FrameDurationCentis(t, 0)))
  }

  /**
   * `tick_and_maybe_advance`: the tick with the timeline's frame durations. The
   * position never goes back and moves by at most one; it moves exactly when the
   * timer runs out; the tick reports `true` exactly when it lands on a frame, whose
   * timer is then started afresh with that frame's duration.
   */
  function TickAndMaybeAdvance(a: ActiveTimeline, delta: nat): (r: (ActiveTimeline, bool))
    requires Valid(a.timer)
    ensures Valid(r.0.timer) && r.0.timeline == a.timeline
    ensures a.current <= r.0.current <= a.current + 1
    ensures r.0.current == a.current + 1 <==> Tick(a.timer, delta).finished
    ensures r.1 <==> r.0.current == a.current + 1 && r.0.current < |a.timeline.frames|
    ensures r.1 ==> r.0.timer == FromDuration(FrameDurationCentis(a.timeline, r.0.current))
    ensures Consistent(a) ==> Consistent(r.0)
  {
    Step(a, delta, FrameDurations(a.timeline.frames))
  }

  /** The session after each tick of `deltas` in turn, with what each tick reported. */
  function Run(a: ActiveTimeline, deltas: seq<nat>): (r: (ActiveTimeline, seq<bool>))
    requires Valid(a.timer)
    ensures |r.1| == |deltas|
  {
    RunWith(a, deltas, FrameDurations(a.timeline.frames))
  }

  /** A tick of length zero on a frame changes nothing and reports nothing. */
  lemma ZeroTickHolds(a: ActiveTimeline)
    requires Consistent(a) && a.current < |a.timeline.frames|
    ensures TickAndMaybeAdvance(a, 0) == (a, false)
  {
  }

  /** Once the position is past the last frame, a tick reports nothing and no frame comes back. */
  lemma PastEndStaysEnded(a: ActiveTimeline, delta: nat)
    requires Valid(a.timer) && a.current >= |a.timeline.frames|
    ensures !TickAndMaybeAdvance(a, delta).1
    ensures CurrentFrame(TickAndMaybeAdvance(a, delta).0).None?
  {
  }

  // ---------------------------------------------------------------------------
  // Runs of ticks
  // ---------------------------------------------------------------------------

  /** How many entries of `bs` are `true`. */
  function CountTrue(bs: seq<bool>): nat
    decreases |bs|
  {
    if |bs| == 0 then 0 else (if bs[0] then 1 else 0) + CountTrue(bs[1..])
  }

  function Min(x: int, y: int): int {
    if x <= y then x else y
  }

  /**
   * Over any run the position never goes back and moves at most one frame per tick,
   * and the run reports exactly the frames it lands on: one report for each new
   * position that is not past the last frame.
   */
  lemma {:induction false} RunReportsEachNewFrame(a: ActiveTimeline, deltas: seq<nat>, durs: seq<nat>)
    requires Valid(a.timer) && |durs| == |a.timeline.frames|
    ensures a.current <= RunWith(a, deltas, durs).0.current <= a.current + |deltas|
    ensures var last := |a.timeline.frames| - 1;
      CountTrue(RunWith(a, deltas, durs).1) == Min(RunWith(a, deltas, durs).0.current, last) - Min(a.current, last)
    decreases |deltas|
  {
    if |deltas| > 0 {
      var (b, fired) := Step(a, deltas[0], durs);
      RunReportsEachNewFrame(b, deltas[1..], durs);
      var (c, rest) := RunWith(b, deltas[1..], durs);
      assert RunWith(a, deltas, durs).1 == [fired] + rest;
      assert ([fired] + rest)[1..] == rest;
    }
  }

  /** Every state a run reaches from a coherent state is coherent. */
  lemma {:induction false} RunKeepsCoherent(a: ActiveTimeline, deltas: seq<nat>, durs: seq<nat>)
    requires Coherent(a, durs)
    ensures Coherent(RunWith(a, deltas, durs).0, durs)
    decreases |deltas|
  {
    if |deltas| > 0 {
      RunKeepsCoherent(Step(a, deltas[0], durs).0, deltas[1..], durs);
    }
  }

  /** Once past the last frame, no tick of any run reports a frame and none comes back. */
  lemma {:induction false} RunPastEnd(a: ActiveTimeline, deltas: seq<nat>, durs: seq<nat>)
    requires Valid(a.timer) && |durs| == |a.timeline.frames| && a.current >= |a.timeline.frames|
    ensures forall i :: 0 <= i < |deltas| ==> !RunWith(a, deltas, durs).1[i]
    ensures CurrentFrame(RunWith(a, deltas, durs).0).None?
    decreases |deltas|
  {
    if |deltas| > 0 {
      RunPastEnd(Step(a, deltas[0], durs).0, deltas[1..], durs);
    }
  }

  /** `n` copies of `true`. */
  function Trues(n: nat): (bs: seq<bool>)
    ensures |bs| == n && forall i :: 0 <= i < n ==> bs[i]
  {
    if n == 0 then [] else [true] + Trues(n - 1)
  }

  lemma TruesStep(m: nat)
    ensures Trues(m + 1) + [false] == [true] + (Trues(m) + [false])
  {
  }

  /**
   * Ticking a session whose timer was just started for the frame on screen by
   * exactly the remaining frames' durations shows every later frame in turn: each
   * tick but the last reports a new frame, the last one runs off the end, and no
   * frame is on screen afterwards.
   */
  lemma {:induction false} ExactTicksPlayEveryFrame(a: ActiveTimeline, durs: seq<nat>)
    requires DurationsFor(a, durs) && a.current < |durs| && a.timer == FromDuration(durs[a.current])
    ensures var (b, flags) := RunWith(a, durs[a.current..], durs);
      && flags == Trues(|durs| - 1 - a.current) + [false]
      && b.current == |durs|
      && CurrentFrame(b).None?
    decreases |durs| - a.current
  {
    var n := |durs|;
    var ds := durs[a.current..];
    assert ds[1..] == durs[a.current + 1..];
    var (b, fired) := Step(a, ds[0], durs);
    var (c, rest) := RunWith(b, ds[1..], durs);
    assert RunWith(a, ds, durs) == (c, [fired] + rest);
    if b.current < n {
      ExactTicksPlayEveryFrame(b, durs);
      TruesStep(n - 1 - b.current);
    } else {
      assert ds[1..] == [];
    }
  }

  /**
   * From the start of a non-empty timeline, ticks of exactly the frames' durations
   * report frames 2..n in turn and then run off the end, which the game reads as
   * completion; the session stays consistent throughout.
   */
  lemma PlaysWholeTimeline(t: Timeline)
    requires |t.frames| > 0
    ensures var (b, flags) := Run(FromTimeline(t), FrameDurations(t.frames));
      && flags == Trues(|t.frames| - 1) + [false]
      && CurrentFrame(b).None?
      && Consistent(b)
  {
    var a := FromTimeline(t);
    var durs := FrameDurations(t.frames);
    ExactTicksPlayEveryFrame(a, durs);
    RunKeepsCoherent(a, durs, durs);
  }
}
