/** The closed set of narrative outcomes (src/endings.rs). */
module Endings {

  /** The seven endings; `FinalBell` is the meta-ending unlocked by the other six. */
  datatype GameEnding =
    | TrueWake
    | CycleBreaker
    | Legend
    | Puppetmaster
    | FragmentedMind
    | SunkLegend
    | FinalBell

  /** Every ending except the meta-ending is primary. */
  predicate IsPrimary(e: GameEnding) {
    !e.FinalBell?
  }

  /** The primary endings, written out one by one. */
  const PrimaryEndings: set<GameEnding> :=
    {TrueWake, CycleBreaker, Legend, Puppetmaster, FragmentedMind, SunkLegend}

  /** `IsPrimary` holds of exactly the six listed endings, so exactly six of seven are primary. */
  lemma PrimaryEndingsExact()
    ensures forall e :: IsPrimary(e) <==> e in PrimaryEndings
    ensures !IsPrimary(FinalBell)
    ensures |PrimaryEndings| == 6
    ensures |PrimaryEndings + {FinalBell}| == 7
  {
    var s := {TrueWake, CycleBreaker, Legend, Puppetmaster, FragmentedMind};
    assert |{TrueWake, CycleBreaker}| == 2;
    assert |{TrueWake, CycleBreaker, Legend}| == 3;
    assert |{TrueWake, CycleBreaker, Legend, Puppetmaster}| == 4;
    assert |s| == 5;
    assert PrimaryEndings == s + {SunkLegend};
  }
}
