/**
 * The engine's one-shot countdown timer, reduced to what the narrative player
 * relies on: a duration, the time elapsed so far and a sticky `finished` flag.
 * Times are whole hundredths of a second.
 */
module OnceTimer {

  datatype Timer = Timer(duration: nat, elapsed: nat, finished: bool)

  /** A fresh timer of the given length: nothing elapsed, not finished. */
  function FromDuration(d: nat): (t: Timer)
    ensures Valid(t) && t.duration == d
    ensures !t.finished && t.elapsed == 0
  {
    Timer(d, 0, false)
  }

  /** Elapsed time never exceeds the duration, and a finished timer has run to the end. */
  predicate Valid(t: Timer) {
    t.elapsed <= t.duration && (t.finished ==> t.elapsed == t.duration)
  }

  /**
   * Advances the timer by `delta`. A finished timer ignores further ticks; otherwise
   * the timer finishes as soon as the elapsed time reaches the duration, and its
   * elapsed time is then held at the duration.
   */
  function Tick(t: Timer, delta: nat): (r: Timer)
    requires Valid(t)
    ensures Valid(r) && r.duration == t.duration
    ensures r.finished <==> t.finished || t.elapsed + delta >= t.duration
    ensures t.elapsed <= r.elapsed
    ensures !r.finished ==> r.elapsed == t.elapsed + delta
  {
    if t.finished then t
    else if t.elapsed + delta >= t.duration then Timer(t.duration, t.duration, true)
    else Timer(t.duration, t.elapsed + delta, false)
  }

  /** Two ticks amount to one tick by their sum. */
  lemma TickAdditive(t: Timer, a: nat, b: nat)
    requires Valid(t)
    ensures Tick(Tick(t, a), b) == Tick(t, a + b)
  {
  }

  /** Total of a run of tick lengths. */
  function Sum(ds: seq<nat>): nat
    decreases |ds|
  {
    if |ds| == 0 then 0 else ds[0] + Sum(ds[1..])
  }

  /** The timer after each tick of `ds` in turn. */
  function TickAll(t: Timer, ds: seq<nat>): (r: Timer)
    requires Valid(t)
    ensures Valid(r)
    decreases |ds|
  {
    if |ds| == 0 then t else TickAll(Tick(t, ds[0]), ds[1..])
  }

  /**
   * Any non-empty run of ticks acts as one tick by its total, so the timer is
   * finished after the run exactly when the ticks add up to at least what was left.
   * (The run must be non-empty: even a zero-length tick finishes a zero-length timer.)
   */
  lemma {:induction false} TickAllIsSum(t: Timer, ds: seq<nat>)
    requires Valid(t) && |ds| > 0
    ensures TickAll(t, ds) == Tick(t, Sum(ds))
    ensures TickAll(t, ds).finished <==> t.finished || t.elapsed + Sum(ds) >= t.duration
    decreases |ds|
  {
    if |ds| > 1 {
      TickAllIsSum(Tick(t, ds[0]), ds[1..]);
      TickAdditive(t, ds[0], Sum(ds[1..]));
    } else {
      assert ds[1..] == [] && Sum(ds) == ds[0];
    }
  }
}
