/**
 * The progress record (src/progression.rs): the set of completed endings and the
 * `final_bell_unlocked` flag that is raised once every primary ending is present.
 */
module Progression {
  import opened Endings

  datatype GameProgress = GameProgress(completed: set<GameEnding>, finalBellUnlocked: bool)

  /** The record at process start: nothing completed, nothing unlocked. */
  function Default(): (p: GameProgress)
    ensures p.completed == {} && !p.finalBellUnlocked
    ensures !AllPrimaryCompleted(p)
  {
    var p := GameProgress({}, false);
    assert Required[0] !in p.completed;
    p
  }

  /** The `required` array of `all_primary_completed`, in its source order. */
  const Required: seq<GameEnding> :=
    [TrueWake, CycleBreaker, Legend, Puppetmaster, FragmentedMind, SunkLegend]

  /** Every ending of `Required` has been completed. */
  predicate AllPrimaryCompleted(p: GameProgress) {
    forall i :: 0 <= i < |Required| ==> Required[i] in p.completed
  }

  /** The `required` array holds exactly the primary endings, so the check asks for all of them. */
  lemma RequiredArePrimary(p: GameProgress)
    ensures (set i | 0 <= i < |Required| :: Required[i]) == PrimaryEndings
    ensures AllPrimaryCompleted(p) <==> PrimaryEndings <= p.completed
  {
    var req := set i | 0 <= i < |Required| :: Required[i];
    assert Required[0] in req && Required[1] in req && Required[2] in req;
    assert Required[3] in req && Required[4] in req && Required[5] in req;
  }

  /** Raises the flag when every primary ending is in; never lowers it. */
  function UpdateUnlock(p: GameProgress): (q: GameProgress)
    ensures q.completed == p.completed
    ensures q.finalBellUnlocked <==> p.finalBellUnlocked || AllPrimaryCompleted(p)
  {
    if AllPrimaryCompleted(p) then p.(finalBellUnlocked := true) else p
  }

  /** Records one completed ending and re-evaluates the unlock. */
  function MarkCompleted(p: GameProgress, e: GameEnding): (q: GameProgress)
    ensures q.completed == p.completed + {e}
    ensures p.finalBellUnlocked ==> q.finalBellUnlocked
    ensures q.finalBellUnlocked <==> p.finalBellUnlocked || PrimaryEndings <= q.completed
  {
    var q := UpdateUnlock(p.(completed := p.completed + {e}));
    RequiredArePrimary(q);
    q
  }

  /** Marking the same ending a second time changes nothing. */
  lemma MarkCompletedIdempotent(p: GameProgress, e: GameEnding)
    ensures MarkCompleted(MarkCompleted(p, e), e) == MarkCompleted(p, e)
  {
  }

  /** Marking the meta-ending neither adds nor removes a primary ending. */
  lemma MarkFinalBellKeepsPrimaryStatus(p: GameProgress)
    ensures AllPrimaryCompleted(MarkCompleted(p, FinalBell)) <==> AllPrimaryCompleted(p)
  {
    RequiredArePrimary(p);
    RequiredArePrimary(MarkCompleted(p, FinalBell));
  }

  /** Every ending in `es`, marked in order. */
  function MarkAll(p: GameProgress, es: seq<GameEnding>): GameProgress
    decreases |es|
  {
    if |es| == 0 then p else MarkAll(MarkCompleted(p, es[0]), es[1..])
  }

  /**
   * After any sequence of marks the completed set is the old one plus the marked
   * endings, so it never shrinks (nor does its size), and the flag never falls back.
   */
  lemma {:induction false} MarkAllAccumulates(p: GameProgress, es: seq<GameEnding>)
    ensures MarkAll(p, es).completed == p.completed + set i | 0 <= i < |es| :: es[i]
    ensures |p.completed| <= |MarkAll(p, es).completed|
    ensures p.finalBellUnlocked ==> MarkAll(p, es).finalBellUnlocked
    decreases |es|
  {
    var all := set i | 0 <= i < |es| :: es[i];
    if |es| > 0 {
      var q := MarkCompleted(p, es[0]);
      MarkAllAccumulates(q, es[1..]);
      var rest := set i | 0 <= i < |es[1..]| :: es[1..][i];
      assert all == {es[0]} + rest by {
        forall x | x in all ensures x in {es[0]} + rest {
          var i :| 0 <= i < |es| && es[i] == x;
          if i > 0 { assert es[1..][i - 1] == x; }
        }
        forall x | x in rest ensures x in all {
          var i :| 0 <= i < |es[1..]| && es[1..][i] == x;
          assert es[i + 1] == x;
        }
      }
    } else {
      assert all == {};
    }
    assert p.completed <= MarkAll(p, es).completed;
    SubsetCardinality(p.completed, MarkAll(p, es).completed);
  }

  lemma SubsetCardinality(a: set<GameEnding>, b: set<GameEnding>)
    requires a <= b
    ensures |a| <= |b|
  {
    assert b == a + (b - a);
  }

  /** The flag agrees with the unlock predicate: true exactly when all primaries are in. */
  predicate UnlockConsistent(p: GameProgress) {
    p.finalBellUnlocked == AllPrimaryCompleted(p)
  }

  /**
   * Starting from the default record, the flag equals `all_primary_completed()`
   * after every mark; in particular marking all six primaries, in any order and
   * with any repetitions or extra endings, unlocks the meta-ending.
   */
  lemma {:induction false} MarkAllKeepsUnlockConsistent(p: GameProgress, es: seq<GameEnding>)
    requires UnlockConsistent(p)
    ensures UnlockConsistent(MarkAll(p, es))
    ensures PrimaryEndings <= p.completed + (set i | 0 <= i < |es| :: es[i]) ==>
      MarkAll(p, es).finalBellUnlocked
    decreases |es|
  {
    MarkAllAccumulates(p, es);
    if |es| > 0 {
      var q := MarkCompleted(p, es[0]);
      RequiredArePrimary(p);
      RequiredArePrimary(q);
      MarkAllKeepsUnlockConsistent(q, es[1..]);
    }
    RequiredArePrimary(MarkAll(p, es));
  }

  /** The mark that flips the flag from false to true. */
  predicate NewlyUnlocks(p: GameProgress, e: GameEnding) {
    !p.finalBellUnlocked && MarkCompleted(p, e).finalBellUnlocked
  }

  /** How many marks in the sequence flip the flag. */
  function UnlockCount(p: GameProgress, es: seq<GameEnding>): nat
    decreases |es|
  {
    if |es| == 0 then 0
    else (if NewlyUnlocks(p, es[0]) then 1 else 0) + UnlockCount(MarkCompleted(p, es[0]), es[1..])
  }

  /**
   * The unlock fires at most once over any sequence of marks, and it fires exactly
   * once when the sequence takes the record from locked to unlocked.
   */
  lemma {:induction false} UnlockFiresOnce(p: GameProgress, es: seq<GameEnding>)
    ensures UnlockCount(p, es) <= 1
    ensures UnlockCount(p, es) == 1 <==> !p.finalBellUnlocked && MarkAll(p, es).finalBellUnlocked
    decreases |es|
  {
    if |es| > 0 {
      var q := MarkCompleted(p, es[0]);
      UnlockFiresOnce(q, es[1..]);
      if q.finalBellUnlocked {
        MarkAllAccumulates(q, es[1..]);
        UnlockNeverAfter(q, es[1..]);
      }
    }
  }

  /** Once unlocked, no further mark counts as an unlock. */
  lemma {:induction false} UnlockNeverAfter(p: GameProgress, es: seq<GameEnding>)
    requires p.finalBellUnlocked
    ensures UnlockCount(p, es) == 0
    decreases |es|
  {
    if |es| > 0 {
      UnlockNeverAfter(MarkCompleted(p, es[0]), es[1..]);
    }
  }
}
