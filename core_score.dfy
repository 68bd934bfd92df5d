/**
 * Scoring a route of the scoring engine: the collectibles along it, the
 * power scrolls they amount to, and the choice of the best route.
 *
 * Rust's `u8`/`u16` arithmetic panics on overflow in a debug build and
 * wraps in a release build; the totals here are unbounded and every
 * operation requires the fixed-width result to fit, which is exactly the
 * condition under which a debug build runs to completion and under which
 * both builds agree.
 */
module CoreScore {
  import opened Wrappers
  import opened CoreModels
  import PathFind

  /** The tally `(power_scrolls, dual_scrolls, fragments, cursed_chest_probabilities)`. */
  datatype Collectibles = Collectibles(powerScrolls: nat, dualScrolls: nat, fragments: nat, chestChance: nat)

  const Nothing := Collectibles(0, 0, 0, 0)

  /** The tally fits the source's `(u8, u8, u8, u16)`. */
  predicate Fits(c: Collectibles)
  {
    c.powerScrolls < 256 && c.dualScrolls < 256 && c.fragments < 256 && c.chestChance < 65536
  }

  function Add(a: Collectibles, b: Collectibles): Collectibles
  {
    Collectibles(a.powerScrolls + b.powerScrolls, a.dualScrolls + b.dualScrolls,
                 a.fragments + b.fragments, a.chestChance + b.chestChance)
  }

  lemma AddAssociative(a: Collectibles, b: Collectibles, c: Collectibles)
    ensures Add(Add(a, b), c) == Add(a, Add(b, c))
  {
  }

  /** Every field of `a` is at most the matching field of `b`. */
  predicate Below(a: Collectibles, b: Collectibles)
  {
    a.powerScrolls <= b.powerScrolls && a.dualScrolls <= b.dualScrolls
    && a.fragments <= b.fragments && a.chestChance <= b.chestChance
  }

  /** What one biome contributes at the given boss-cell level. */
  function Of(b: Biome, bc: BossCells): Collectibles
  {
    Collectibles(b.powerScrolls, b.dualPowerScrolls, GetFragments(b.scrollFragments, bc), b.cursedChestChance)
  }

  /** `sum_collectibles_for_path`: the fold of `Of` over the route, from the first biome on. */
  function SumCollectibles(path: seq<Biome>, bc: BossCells): (r: Collectibles)
    ensures forall b :: b in path ==> Below(Of(b, bc), r)
    ensures r.powerScrolls <= 255 * |path| && r.dualScrolls <= 255 * |path|
    ensures r.fragments <= 255 * |path| && r.chestChance <= 255 * |path|
  {
    if path == [] then Nothing
    else Add(SumCollectibles(path[..|path| - 1], bc), Of(PathFind.Last(path), bc))
  }

  lemma SumSnoc(p: seq<Biome>, b: Biome, bc: BossCells)
    ensures SumCollectibles(p + [b], bc) == Add(SumCollectibles(p, bc), Of(b, bc))
  {
    assert (p + [b])[..|p|] == p;
  }

  /** The tally of two joined routes is the sum of their tallies. */
  lemma {:induction false} SumAppend(p: seq<Biome>, q: seq<Biome>, bc: BossCells)
    ensures SumCollectibles(p + q, bc) == Add(SumCollectibles(p, bc), SumCollectibles(q, bc))
  {
    if q == [] {
      assert p + q == p;
    } else {
      var q', b := q[..|q| - 1], PathFind.Last(q);
      assert q == q' + [b];
      assert p + q == (p + q') + [b];
      SumAppend(p, q', bc);
      SumSnoc(p + q', b, bc);
      SumSnoc(q', b, bc);
      AddAssociative(SumCollectibles(p, bc), SumCollectibles(q', bc), Of(b, bc));
    }
  }

  /** The tally does not depend on the order in which two parts of a route are visited. */
  lemma SumOrderIndependent(p: seq<Biome>, q: seq<Biome>, bc: BossCells)
    ensures SumCollectibles(p + q, bc) == SumCollectibles(q + p, bc)
  {
    SumAppend(p, q, bc);
    SumAppend(q, p, bc);
  }

  /**
   * Every running total of the fold is below the final one, so the fold's
   * fixed-width additions cannot overflow when the final tally fits.
   */
  lemma RunningTotalsBelow(path: seq<Biome>, bc: BossCells, k: nat)
    requires k <= |path|
    ensures Below(SumCollectibles(path[..k], bc), SumCollectibles(path, bc))
    ensures Fits(SumCollectibles(path, bc)) ==> Fits(SumCollectibles(path[..k], bc))
  {
    assert path == path[..k] + path[k..];
    SumAppend(path[..k], path[k..], bc);
  }

  /**
   * `calculate_scrolls_from_cursed_chests`: the expected number of cursed
   * chests, `probability / 100` rounded half away from zero, saturated at 255
   * by the float-to-`u8` cast. On these values the float division and
   * rounding are exact: `k + 0.5` is representable and nothing else rounds
   * onto it.
   */
  function ChestScrolls(probability: U16): (r: U8)
    ensures (probability + 50) / 100 < 256 ==> 100 * r <= probability + 50 < 100 * r + 100
    ensures (probability + 50) / 100 >= 256 ==> r == 255
  {
    var rounded := (probability + 50) / 100;
    if rounded < 256 then rounded else 255
  }

  /** The rounded chest count is the nearest whole number of chests, halves going up. */
  lemma ChestScrollsIsNearest(probability: U16)
    requires probability < 25550
    ensures -50 < 100 * ChestScrolls(probability) - probability <= 50
  {
  }

  /** The sum `calculate_scrolls` computes, before the fixed-width check. */
  function ScoreOf(t: Collectibles, includeDualScrolls: bool): (r: nat)
    requires t.chestChance < 65536
    ensures t.powerScrolls + t.fragments / 4 <= r <= t.powerScrolls + t.dualScrolls + t.fragments / 4 + 255
    ensures includeDualScrolls ==> t.powerScrolls + t.dualScrolls <= r
  {
    t.powerScrolls + (if includeDualScrolls then t.dualScrolls else 0) + t.fragments / 4 + ChestScrolls(t.chestChance)
  }

  /** `calculate_scrolls` runs to completion: the tally and the final `u8` sum fit. */
  predicate ScoreDefined(path: seq<Biome>, bc: BossCells, includeDualScrolls: bool)
  {
    var t := SumCollectibles(path, bc);
    Fits(t) && ScoreOf(t, includeDualScrolls) < 256
  }

  /**
   * `calculate_scrolls`: power scrolls, optionally dual scrolls, one scroll
   * per four fragments and the rounded number of cursed chests.
   */
  function CalculateScrolls(path: seq<Biome>, bc: BossCells, includeDualScrolls: bool): (r: U8)
    requires ScoreDefined(path, bc, includeDualScrolls)
    ensures forall b :: b in path ==> b.powerScrolls <= r
    ensures includeDualScrolls ==> forall b :: b in path ==> b.dualPowerScrolls <= r
  {
    ScoreOf(SumCollectibles(path, bc), includeDualScrolls)
  }

  /** Counting dual scrolls adds exactly the route's dual scrolls, so it never lowers the score. */
  lemma DualScrollsAdd(path: seq<Biome>, bc: BossCells)
    requires ScoreDefined(path, bc, true)
    ensures ScoreDefined(path, bc, false)
    ensures CalculateScrolls(path, bc, true) == CalculateScrolls(path, bc, false) + SumCollectibles(path, bc).dualScrolls
  {
  }

  /** The score of a route does not depend on the order of its parts. */
  lemma ScoreOrderIndependent(p: seq<Biome>, q: seq<Biome>, bc: BossCells, includeDualScrolls: bool)
    requires ScoreDefined(p + q, bc, includeDualScrolls)
    ensures ScoreDefined(q + p, bc, includeDualScrolls)
    ensures CalculateScrolls(p + q, bc, includeDualScrolls) == CalculateScrolls(q + p, bc, includeDualScrolls)
  {
    SumOrderIndependent(p, q, bc);
  }

  /**
   * `calculate_collectibles_from_fragments`: every four fragments become a
   * power scroll; the leftover fragments stay.
   */
  function FromFragments(t: Collectibles): (r: Collectibles)
    requires Fits(t) && t.powerScrolls + t.fragments / 4 < 256
    ensures Fits(r)
    ensures 4 * r.powerScrolls + r.fragments == 4 * t.powerScrolls + t.fragments
    ensures r.fragments < 4
    ensures r.dualScrolls == t.dualScrolls && r.chestChance == t.chestChance
  {
    t.(powerScrolls := t.powerScrolls + t.fragments / 4, fragments := t.fragments % 4)
  }

  /**
   * `calculate_collectibles_from_cursed_chests`: every hundred percent of
   * chest probability becomes a power scroll, the remainder stays. The count
   * of new scrolls is cast to `u8`, which keeps its low eight bits.
   */
  function FromCursedChests(t: Collectibles): (r: Collectibles)
    requires Fits(t) && t.powerScrolls + (t.chestChance / 100) % 256 < 256
    ensures Fits(r)
    ensures t.chestChance / 100 < 256 ==> 100 * r.powerScrolls + r.chestChance == 100 * t.powerScrolls + t.chestChance
    ensures r.chestChance < 100
    ensures r.dualScrolls == t.dualScrolls && r.fragments == t.fragments
  {
    t.(powerScrolls := t.powerScrolls + (t.chestChance / 100) % 256, chestChance := t.chestChance % 100)
  }

  /** The test of `calculate_collectibles_from_fragments`: five fragments give one scroll and one left over. */
  lemma FromFragmentsExample()
    ensures FromFragments(Collectibles(10, 0, 5, 0)) == Collectibles(11, 0, 1, 0)
  {
  }

  /** The test of `calculate_collectibles_from_cursed_chests`: 190 percent gives one scroll and 90 left over. */
  lemma FromCursedChestsExample()
    ensures FromCursedChests(Collectibles(10, 0, 0, 190)) == Collectibles(11, 0, 0, 90)
  {
  }

  /**
   * Converting fragments and then chests, as the actual-data test does, gives
   * the score without dual scrolls except for the leftover chest probability:
   * `calculate_scrolls` rounds it, the conversion drops it. (Below 25550
   * percent neither the rounding saturates nor the cast truncates.)
   */
  lemma RoundingSplits(c: nat)
    ensures (c + 50) / 100 == c / 100 + (if c % 100 >= 50 then 1 else 0)
  {
    var k, m := c / 100, c % 100;
    assert c == 100 * k + m && 0 <= m < 100;
    assert c + 50 == 100 * (k + (if m >= 50 then 1 else 0)) + (if m >= 50 then m - 50 else m + 50);
  }

  lemma ConversionAgreesWithScore(path: seq<Biome>, bc: BossCells)
    requires ScoreDefined(path, bc, false) && SumCollectibles(path, bc).chestChance < 25550
    ensures var t := SumCollectibles(path, bc);
      var u := FromCursedChests(FromFragments(t));
      CalculateScrolls(path, bc, false) == u.powerScrolls + (if u.chestChance >= 50 then 1 else 0)
  {
    var t := SumCollectibles(path, bc);
    RoundingSplits(t.chestChance);
  }

  /** Every route of the list can be scored. */
  predicate AllScoresDefined(paths: seq<seq<Biome>>, bc: BossCells, includeDualScrolls: bool)
  {
    forall i :: 0 <= i < |paths| ==> ScoreDefined(paths[i], bc, includeDualScrolls)
  }

  /**
   * `get_path_with_most_scrolls`: a route of the list with its score, no
   * route of the list scoring more. The source needs a non-empty list: it
   * takes the first element after sorting by descending score.
   */
  method GetPathWithMostScrolls(paths: seq<seq<Biome>>, bc: BossCells, includeDualScrolls: bool)
    returns (scrolls: U8, path: seq<Biome>)
    requires |paths| > 0 && AllScoresDefined(paths, bc, includeDualScrolls)
    ensures path in paths
    ensures ScoreDefined(path, bc, includeDualScrolls) && scrolls == CalculateScrolls(path, bc, includeDualScrolls)
    ensures forall i :: 0 <= i < |paths| ==> CalculateScrolls(paths[i], bc, includeDualScrolls) <= scrolls
  {
    var pathsWithScrolls: seq<(U8, seq<Biome>)> := [];
    for i := 0 to |paths|
      invariant |pathsWithScrolls| == i
      invariant forall j :: 0 <= j < i ==> pathsWithScrolls[j] == (CalculateScrolls(paths[j], bc, includeDualScrolls), paths[j])
    {
      pathsWithScrolls := pathsWithScrolls + [(CalculateScrolls(paths[i], bc, includeDualScrolls), paths[i])];
    }
    // Sorting by descending score and taking the first pair selects a pair of greatest score.
    var best := 0;
    for i := 1 to |pathsWithScrolls|
      invariant 0 <= best < |pathsWithScrolls|
      invariant forall j :: 0 <= j < i ==> pathsWithScrolls[j].0 <= pathsWithScrolls[best].0
    {
      if pathsWithScrolls[best].0 < pathsWithScrolls[i].0 {
        best := i;
      }
    }
    scrolls, path := pathsWithScrolls[best].0, pathsWithScrolls[best].1;
  }

  /** Routes whose biomes contribute the same collectibles, one by one, have the same tally. */
  lemma {:induction false} SumDependsOnlyOnCollectibles(p: seq<Biome>, q: seq<Biome>, bc: BossCells)
    requires |p| == |q| && forall i :: 0 <= i < |p| ==> Of(p[i], bc) == Of(q[i], bc)
    ensures SumCollectibles(p, bc) == SumCollectibles(q, bc)
  {
    if p != [] {
      SumDependsOnlyOnCollectibles(p[..|p| - 1], q[..|q| - 1], bc);
    }
  }

  /** Exits, and so the scrolls an exit carries, never enter the tally. */
  lemma ExitsDoNotCount(p: seq<Biome>, q: seq<Biome>, bc: BossCells)
    requires |p| == |q| && forall i :: 0 <= i < |p| ==> p[i].(exits := q[i].exits) == q[i]
    ensures SumCollectibles(p, bc) == SumCollectibles(q, bc)
  {
    assert forall i :: 0 <= i < |p| ==> Of(p[i], bc) == Of(q[i], bc);
    SumDependsOnlyOnCollectibles(p, q, bc);
  }

  /** Without the flag, the biomes' dual scrolls do not affect the score. */
  lemma DualScrollsIgnored(p: seq<Biome>, q: seq<Biome>, bc: BossCells)
    requires |p| == |q| && forall i :: 0 <= i < |p| ==> p[i].(dualPowerScrolls := q[i].dualPowerScrolls) == q[i]
    requires ScoreDefined(p, bc, false) && ScoreDefined(q, bc, false)
    ensures CalculateScrolls(p, bc, false) == CalculateScrolls(q, bc, false)
  {
    DualScrollsIgnoredSum(p, q, bc);
  }

  lemma {:induction false} DualScrollsIgnoredSum(p: seq<Biome>, q: seq<Biome>, bc: BossCells)
    requires |p| == |q| && forall i :: 0 <= i < |p| ==> p[i].(dualPowerScrolls := q[i].dualPowerScrolls) == q[i]
    ensures SumCollectibles(p, bc).(dualScrolls := 0) == SumCollectibles(q, bc).(dualScrolls := 0)
  {
    if p != [] {
      DualScrollsIgnoredSum(p[..|p| - 1], q[..|q| - 1], bc);
      assert p[|p| - 1].(dualPowerScrolls := q[|q| - 1].dualPowerScrolls) == q[|q| - 1];
    }
  }
}
