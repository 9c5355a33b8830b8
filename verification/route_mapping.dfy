/** The static route registry (src/route_mapping.rs): route id to timeline asset and ending. */
module RouteMapping {
  import opened Wrappers
  import opened Endings

  /** The route ids the registry knows. */
  predicate IsKnownRoute(id: nat) {
    1 <= id <= 6
  }

  /** Timeline asset to load for a route; unknown ids resolve to no asset. */
  function RouteTimelinePath(id: nat): (path: Option<string>)
    ensures path.Some? <==> IsKnownRoute(id)
  {
    match id
    case 1 => Some("assets/narrative/path1_true_wake.yaml")
    case 2 => Some("assets/narrative/path2_sunk_legend.yaml")
    case 3 => Some("assets/narrative/path3_cycle_breaker.yaml")
    case 4 => Some("assets/narrative/path4_fragmented_mind.yaml")
    case 5 => Some("assets/narrative/path5_puppetmaster.yaml")
    case 6 => Some("assets/narrative/path6_legend.yaml")
    case _ => None
  }

  /** Ending registered when a route's timeline completes; unknown ids resolve to none. */
  function RouteResultEnding(id: nat): (ending: Option<GameEnding>)
    ensures ending.Some? <==> IsKnownRoute(id)
    ensures ending.Some? ==> IsPrimary(ending.value)
  {
    match id
    case 1 => Some(TrueWake)
    case 2 => Some(SunkLegend)
    case 3 => Some(CycleBreaker)
    case 4 => Some(FragmentedMind)
    case 5 => Some(Puppetmaster)
    case 6 => Some(Legend)
    case _ => None
  }

  /** The route whose completion registers `e`; the meta-ending has none. */
  function RouteOfEnding(e: GameEnding): (id: Option<nat>)
    ensures id.Some? <==> IsPrimary(e)
    ensures id.Some? ==> IsKnownRoute(id.value)
  {
    match e
    case TrueWake => Some(1)
    case SunkLegend => Some(2)
    case CycleBreaker => Some(3)
    case FragmentedMind => Some(4)
    case Puppetmaster => Some(5)
    case Legend => Some(6)
    case FinalBell => None
  }

  /**
   * The ending table is a bijection between the six route ids and the six primary
   * endings: `RouteOfEnding` inverts it in both directions, so no two routes share
   * an ending and no route yields `FinalBell`.
   */
  lemma RouteEndingBijection()
    ensures forall id: nat :: IsKnownRoute(id) ==> RouteOfEnding(RouteResultEnding(id).value) == Some(id)
    ensures forall e :: IsPrimary(e) ==> RouteResultEnding(RouteOfEnding(e).value) == Some(e)
    ensures forall i: nat, j: nat :: IsKnownRoute(i) && IsKnownRoute(j) && i != j ==>
      RouteResultEnding(i) != RouteResultEnding(j)
  {
    forall id: nat | IsKnownRoute(id)
      ensures RouteOfEnding(RouteResultEnding(id).value) == Some(id)
    {
      assert id in {1, 2, 3, 4, 5, 6};
    }
  }

  /** The endings reachable through a route are exactly the primary endings. */
  lemma RouteEndingImage()
    ensures (set id: nat | IsKnownRoute(id) :: RouteResultEnding(id).value) == PrimaryEndings
  {
    var image := set id: nat | IsKnownRoute(id) :: RouteResultEnding(id).value;
    assert RouteResultEnding(1).value in image;
    assert RouteResultEnding(2).value in image;
    assert RouteResultEnding(3).value in image;
    assert RouteResultEnding(4).value in image;
    assert RouteResultEnding(5).value in image;
    assert RouteResultEnding(6).value in image;
  }

  /** The six timeline assets are pairwise distinct. */
  lemma RoutePathsDistinct()
    ensures forall i: nat, j: nat :: IsKnownRoute(i) && IsKnownRoute(j) && i != j ==>
      RouteTimelinePath(i) != RouteTimelinePath(j)
  {
    forall i: nat, j: nat | IsKnownRoute(i) && IsKnownRoute(j) && i != j
      ensures RouteTimelinePath(i) != RouteTimelinePath(j)
    {
      // The asset names differ at the digit after "assets/narrative/path".
      assert RouteTimelinePath(i).value[21] == DigitOf(i);
      assert RouteTimelinePath(j).value[21] == DigitOf(j);
    }
  }

  function DigitOf(id: nat): char
    requires IsKnownRoute(id)
  {
    (('0' as int) + id) as char
  }
}
