/**
 * The seven-biome graph of the route test: a prison quarter whose three
 * exits lead to a route through the arboretum, two routes through the
 * promenade and a dead end in the sewers, all meeting at the ossuary.
 */
module PathScenario {
  import opened Models
  import opened PathFind
  import PathFilter
  import opened PathSearchSteps

  /**
   * The test conversion of `(id, row, column, exits)`: the id's display name,
   * one bare exit per id, no collectibles, default fragments, enabled.
   */
  function TestBiome(id: Id, row: nat, column: nat, exits: seq<Id>): (b: Biome)
    ensures b.id == id && b.name == Display(id) && b.row == row && b.column == column
    ensures ExitIds(b) == exits && b.enabled
    ensures b.powerScrolls == 0 && b.dualPowerScrolls == 0 && b.cursedChestChance == 0
    ensures b.scrollFragments == DefaultFragments && b.gearLevel == 0
  {
    Biome(id, Display(id), row, column, 0, 0, 0, DefaultFragments, 0,
          seq(|exits|, i requires 0 <= i < |exits| => ExitFrom(exits[i])), true)
  }

  function TestBiomes(): (bs: seq<Biome>)
    ensures |bs| == 7
  {
    [ TestBiome(Prisonquart, 1, 1, [Arboretum, Promenade, Toxicsewers]),
      TestBiome(Arboretum, 2, 1, [Prisondepths]),
      TestBiome(Promenade, 2, 2, [Ossuary, Corruptedprison]),
      TestBiome(Toxicsewers, 2, 3, []),
      TestBiome(Prisondepths, 3, 1, [Ossuary]),
      TestBiome(Corruptedprison, 3, 2, [Ossuary]),
      TestBiome(Ossuary, 4, 1, []) ]
  }

  /** The facts about the test list that the search depends on: ids, exits and rows. */
  predicate ShapedLikeTest(bs: seq<Biome>)
  {
    && |bs| == 7
    && bs[0].id == Prisonquart && bs[1].id == Arboretum && bs[2].id == Promenade && bs[3].id == Toxicsewers
    && bs[4].id == Prisondepths && bs[5].id == Corruptedprison && bs[6].id == Ossuary
    && ExitIds(bs[0]) == [Arboretum, Promenade, Toxicsewers] && ExitIds(bs[1]) == [Prisondepths]
    && ExitIds(bs[2]) == [Ossuary, Corruptedprison] && ExitIds(bs[3]) == []
    && ExitIds(bs[4]) == [Ossuary] && ExitIds(bs[5]) == [Ossuary] && ExitIds(bs[6]) == []
    && bs[0].row == 1 && bs[1].row == 2 && bs[2].row == 2 && bs[3].row == 2
    && bs[4].row == 3 && bs[5].row == 3 && bs[6].row == 4
  }

  lemma TestBiomesShape()
    ensures ShapedLikeTest(TestBiomes())
  {
  }

  /** Every exit of the test graph climbs at least one row. */
  lemma ShapeRowsIncrease(bs: seq<Biome>)
    requires ShapedLikeTest(bs)
    ensures Enumerable(bs)
  {
    forall i, j | 0 <= i < |bs| && 0 <= j < |bs| && bs[j].id in ExitIds(bs[i])
      ensures bs[i].row < bs[j].row
    {
    }
  }

  /** `c` when an exit of `b` names it, nothing otherwise. */
  function Keep(c: Biome, b: Biome): seq<Biome>
  {
    if c.id in ExitIds(b) then [c] else []
  }

  /** The successor filter over the list from position `k` on, by index. */
  function KeepFrom(bs: seq<Biome>, k: nat, b: Biome): seq<Biome>
    decreases |bs| - k
  {
    if k >= |bs| then [] else Keep(bs[k], b) + KeepFrom(bs, k + 1, b)
  }

  lemma {:induction false} SuccessorsAreKeepFrom(bs: seq<Biome>, k: nat, b: Biome)
    requires k <= |bs|
    ensures Successors(bs[k..], b) == KeepFrom(bs, k, b)
    decreases |bs| - k
  {
    if k < |bs| {
      assert bs[k..][1..] == bs[k + 1..];
      SuccessorsAreKeepFrom(bs, k + 1, b);
    }
  }

  /** A position whose biome an exit of `b` names contributes that biome. */
  lemma KeepFromIn(bs: seq<Biome>, k: nat, b: Biome)
    requires k < |bs| && bs[k].id in ExitIds(b)
    ensures KeepFrom(bs, k, b) == [bs[k]] + KeepFrom(bs, k + 1, b)
  {
  }

  /** Any other position contributes nothing. */
  lemma KeepFromOut(bs: seq<Biome>, k: nat, b: Biome)
    requires k < |bs| && bs[k].id !in ExitIds(b)
    ensures KeepFrom(bs, k, b) == KeepFrom(bs, k + 1, b)
  {
  }

  /** Successors in a list of seven are the filter from position 0, which ends empty. */
  lemma SuccessorsOfSeven(bs: seq<Biome>, b: Biome)
    requires |bs| == 7
    ensures Successors(bs, b) == KeepFrom(bs, 0, b) && KeepFrom(bs, 7, b) == []
  {
    SuccessorsAreKeepFrom(bs, 0, b);
    assert bs[0..] == bs;
  }

  // Successor lists built from `KeepFrom` come out as `[a] + ([b] + [])`; these
  // turn them into displays, kept apart so each costs the solver little.
  lemma ConsOne(a: Biome)
    ensures [a] + [] == [a]
  {
  }

  lemma ConsTwo(a: Biome, b: Biome)
    ensures [a] + ([b] + []) == [a, b]
  {
  }

  lemma ConsThree(a: Biome, b: Biome, c: Biome)
    ensures [a] + ([b] + ([c] + [])) == [a, b, c]
  {
  }

  /** The successors of each biome, in list order rather than exit order. */
  lemma FilterOfPrisonquart(bs: seq<Biome>)
    requires ShapedLikeTest(bs)
    ensures KeepFrom(bs, 0, bs[0]) == [bs[1], bs[2], bs[3]]
  {
    var b := bs[0];
    assert KeepFrom(bs, 7, b) == [];
    KeepFromOut(bs, 6, b);
    KeepFromOut(bs, 5, b);
    KeepFromOut(bs, 4, b);
    KeepFromIn(bs, 3, b);
    KeepFromIn(bs, 2, b);
    KeepFromIn(bs, 1, b);
    KeepFromOut(bs, 0, b);
    ConsThree(bs[1], bs[2], bs[3]);
  }

  lemma SuccessorsOfPrisonquart(bs: seq<Biome>)
    requires ShapedLikeTest(bs)
    ensures Successors(bs, bs[0]) == [bs[1], bs[2], bs[3]]
  {
    SuccessorsOfSeven(bs, bs[0]);
    FilterOfPrisonquart(bs);
  }

  lemma FilterOfArboretum(bs: seq<Biome>)
    requires ShapedLikeTest(bs)
    ensures KeepFrom(bs, 0, bs[1]) == [bs[4]]
  {
    var b := bs[1];
    assert KeepFrom(bs, 7, b) == [];
    KeepFromOut(bs, 6, b);
    KeepFromOut(bs, 5, b);
    KeepFromIn(bs, 4, b);
    KeepFromOut(bs, 3, b);
    KeepFromOut(bs, 2, b);
    KeepFromOut(bs, 1, b);
    KeepFromOut(bs, 0, b);
    ConsOne(bs[4]);
  }

  lemma SuccessorsOfArboretum(bs: seq<Biome>)
    requires ShapedLikeTest(bs)
    ensures Successors(bs, bs[1]) == [bs[4]]
  {
    SuccessorsOfSeven(bs, bs[1]);
    FilterOfArboretum(bs);
  }

  lemma FilterOfPromenade(bs: seq<Biome>)
    requires ShapedLikeTest(bs)
    ensures KeepFrom(bs, 0, bs[2]) == [bs[5], bs[6]]
  {
    var b := bs[2];
    assert KeepFrom(bs, 7, b) == [];
    KeepFromIn(bs, 6, b);
    KeepFromIn(bs, 5, b);
    KeepFromOut(bs, 4, b);
    KeepFromOut(bs, 3, b);
    KeepFromOut(bs, 2, b);
    KeepFromOut(bs, 1, b);
    KeepFromOut(bs, 0, b);
    ConsTwo(bs[5], bs[6]);
  }

  lemma SuccessorsOfPromenade(bs: seq<Biome>)
    requires ShapedLikeTest(bs)
    ensures Successors(bs, bs[2]) == [bs[5], bs[6]]
  {
    SuccessorsOfSeven(bs, bs[2]);
    FilterOfPromenade(bs);
  }

  lemma FilterOfToxicsewers(bs: seq<Biome>)
    requires ShapedLikeTest(bs)
    ensures KeepFrom(bs, 0, bs[3]) == []
  {
    var b := bs[3];
    assert KeepFrom(bs, 7, b) == [];
    KeepFromOut(bs, 6, b);
    KeepFromOut(bs, 5, b);
    KeepFromOut(bs, 4, b);
    KeepFromOut(bs, 3, b);
    KeepFromOut(bs, 2, b);
    KeepFromOut(bs, 1, b);
    KeepFromOut(bs, 0, b);
    assert KeepFrom(bs, 6, b) == KeepFrom(bs, 5, b) == KeepFrom(bs, 4, b) == KeepFrom(bs, 3, b) == [];
    assert KeepFrom(bs, 2, b) == KeepFrom(bs, 1, b) == [];
  }

  lemma SuccessorsOfToxicsewers(bs: seq<Biome>)
    requires ShapedLikeTest(bs)
    ensures Successors(bs, bs[3]) == []
  {
    SuccessorsOfSeven(bs, bs[3]);
    FilterOfToxicsewers(bs);
  }

  lemma FilterOfPrisondepths(bs: seq<Biome>)
    requires ShapedLikeTest(bs)
    ensures KeepFrom(bs, 0, bs[4]) == [bs[6]]
  {
    var b := bs[4];
    assert KeepFrom(bs, 7, b) == [];
    KeepFromIn(bs, 6, b);
    KeepFromOut(bs, 5, b);
    KeepFromOut(bs, 4, b);
    KeepFromOut(bs, 3, b);
    KeepFromOut(bs, 2, b);
    KeepFromOut(bs, 1, b);
    KeepFromOut(bs, 0, b);
    ConsOne(bs[6]);
  }

  lemma SuccessorsOfPrisondepths(bs: seq<Biome>)
    requires ShapedLikeTest(bs)
    ensures Successors(bs, bs[4]) == [bs[6]]
  {
    SuccessorsOfSeven(bs, bs[4]);
    FilterOfPrisondepths(bs);
  }

  lemma FilterOfCorruptedprison(bs: seq<Biome>)
    requires ShapedLikeTest(bs)
    ensures KeepFrom(bs, 0, bs[5]) == [bs[6]]
  {
    var b := bs[5];
    assert KeepFrom(bs, 7, b) == [];
    KeepFromIn(bs, 6, b);
    KeepFromOut(bs, 5, b);
    KeepFromOut(bs, 4, b);
    KeepFromOut(bs, 3, b);
    KeepFromOut(bs, 2, b);
    KeepFromOut(bs, 1, b);
    KeepFromOut(bs, 0, b);
    ConsOne(bs[6]);
  }

  lemma SuccessorsOfCorruptedprison(bs: seq<Biome>)
    requires ShapedLikeTest(bs)
    ensures Successors(bs, bs[5]) == [bs[6]]
  {
    SuccessorsOfSeven(bs, bs[5]);
    FilterOfCorruptedprison(bs);
  }

  /** The search at the prison quarter follows its three exits in list order. */
  lemma AtPrisonquart(bs: seq<Biome>)
    requires ShapedLikeTest(bs) && SearchFrom(bs, T([bs[0]]))
    ensures SearchFrom(bs, T([bs[0], bs[1]])) && SearchFrom(bs, T([bs[0], bs[2]])) && SearchFrom(bs, T([bs[0], bs[3]]))
    ensures Routes(bs, T([bs[0]]), Ossuary)
      == Routes(bs, T([bs[0], bs[1]]), Ossuary) + Routes(bs, T([bs[0], bs[2]]), Ossuary) + Routes(bs, T([bs[0], bs[3]]), Ossuary)
  {
    var pq, arb, prom, tox := bs[0], bs[1], bs[2], bs[3];
    SuccessorsOfPrisonquart(bs);
    OneThenThree(pq, arb, prom, tox);
    ThroughThree(bs, [pq], Ossuary, arb, prom, tox);
  }

  // The extended routes and their last biomes at each unfolding of the search,
  // as displays; apart from the unfolding lemmas to keep those cheap.
  lemma OneThenThree(x: Biome, a: Biome, b: Biome, c: Biome)
    ensures Last([x]) == x && [x] + [a] == [x, a] && [x] + [b] == [x, b] && [x] + [c] == [x, c]
  {
  }

  lemma TwoThenTwo(x: Biome, y: Biome, a: Biome, b: Biome)
    ensures Last([x, y]) == y && [x, y] + [a] == [x, y, a] && [x, y] + [b] == [x, y, b]
    ensures Last([x, y, b]) == b
  {
  }

  lemma ThreeThenOne(x: Biome, y: Biome, z: Biome, a: Biome)
    ensures Last([x, y, z]) == z && [x, y, z] + [a] == [x, y, z, a] && Last([x, y, z, a]) == a
  {
  }

  /** The sewers are a dead end. */
  lemma AtToxicsewers(bs: seq<Biome>)
    requires ShapedLikeTest(bs) && SearchFrom(bs, T([bs[0], bs[3]]))
    ensures Routes(bs, T([bs[0], bs[3]]), Ossuary) == []
  {
    var pq, tox := bs[0], bs[3];
    SuccessorsOfToxicsewers(bs);
    TwoThenTwo(pq, tox, tox, tox);
    DeadEnd(bs, [pq, tox], Ossuary);
  }

  /** The arboretum leads on to the prison depths only. */
  lemma AtArboretum(bs: seq<Biome>)
    requires ShapedLikeTest(bs) && SearchFrom(bs, T([bs[0], bs[1]]))
    ensures SearchFrom(bs, T([bs[0], bs[1], bs[4]]))
    ensures Routes(bs, T([bs[0], bs[1]]), Ossuary) == Routes(bs, T([bs[0], bs[1], bs[4]]), Ossuary)
  {
    var pq, arb, pd := bs[0], bs[1], bs[4];
    SuccessorsOfArboretum(bs);
    TwoThenTwo(pq, arb, pd, pd);
    ThroughOne(bs, [pq, arb], Ossuary, pd);
  }

  /** The prison depths lead to the ossuary, which ends the first route. */
  lemma AtPrisondepths(bs: seq<Biome>)
    requires ShapedLikeTest(bs) && SearchFrom(bs, T([bs[0], bs[1], bs[4]]))
    ensures Routes(bs, T([bs[0], bs[1], bs[4]]), Ossuary) == [T([bs[0], bs[1], bs[4], bs[6]])]
  {
    var pq, arb, pd, oss := bs[0], bs[1], bs[4], bs[6];
    SuccessorsOfPrisondepths(bs);
    ThreeThenOne(pq, arb, pd, oss);
    ThroughOne(bs, [pq, arb, pd], Ossuary, oss);
    AtTarget(bs, [pq, arb, pd, oss], Ossuary);
  }

  /** The promenade leads to the corrupted prison first and then straight to the ossuary. */
  lemma AtPromenade(bs: seq<Biome>)
    requires ShapedLikeTest(bs) && SearchFrom(bs, T([bs[0], bs[2]]))
    ensures SearchFrom(bs, T([bs[0], bs[2], bs[5]]))
    ensures Routes(bs, T([bs[0], bs[2]]), Ossuary)
      == Routes(bs, T([bs[0], bs[2], bs[5]]), Ossuary) + [T([bs[0], bs[2], bs[6]])]
  {
    var pq, prom, cp, oss := bs[0], bs[2], bs[5], bs[6];
    SuccessorsOfPromenade(bs);
    TwoThenTwo(pq, prom, cp, oss);
    ThroughTwo(bs, [pq, prom], Ossuary, cp, oss);
    AtTarget(bs, [pq, prom, oss], Ossuary);
  }

  /** The corrupted prison leads to the ossuary, which ends the second route. */
  lemma AtCorruptedprison(bs: seq<Biome>)
    requires ShapedLikeTest(bs) && SearchFrom(bs, T([bs[0], bs[2], bs[5]]))
    ensures Routes(bs, T([bs[0], bs[2], bs[5]]), Ossuary) == [T([bs[0], bs[2], bs[5], bs[6]])]
  {
    var pq, prom, cp, oss := bs[0], bs[2], bs[5], bs[6];
    SuccessorsOfCorruptedprison(bs);
    ThreeThenOne(pq, prom, cp, oss);
    ThroughOne(bs, [pq, prom, cp], Ossuary, oss);
    AtTarget(bs, [pq, prom, cp, oss], Ossuary);
  }

  /**
   * The enumeration of the route test: three routes, the arboretum one first
   * because the arboretum is listed first, and the corrupted prison detour
   * before the direct promenade exit although the promenade lists the ossuary
   * first; the sewers dead end contributes nothing.
   */
  lemma CalculateAllPathsRoutes()
    ensures Enumerable(TestBiomes())
    ensures var bs := TestBiomes();
      AllRoutes(bs) == [T([bs[0], bs[1], bs[4], bs[6]]), T([bs[0], bs[2], bs[5], bs[6]]), T([bs[0], bs[2], bs[6]])]
  {
    TestBiomesShape();
    ShapeRoutes(TestBiomes());
  }

  /** The enumeration over any list shaped like the test's. */
  lemma ShapeRoutes(bs: seq<Biome>)
    requires ShapedLikeTest(bs)
    ensures Enumerable(bs)
    ensures AllRoutes(bs) == [T([bs[0], bs[1], bs[4], bs[6]]), T([bs[0], bs[2], bs[5], bs[6]]), T([bs[0], bs[2], bs[6]])]
  {
    ShapeRowsIncrease(bs);
    assert Start(bs) == T([bs[0]]) && Last(bs).id == Ossuary;
    AtPrisonquart(bs);
    AtToxicsewers(bs);
    AtArboretum(bs);
    AtPrisondepths(bs);
    AtPromenade(bs);
    AtCorruptedprison(bs);
    ThreeRoutes(T([bs[0], bs[1], bs[4], bs[6]]), T([bs[0], bs[2], bs[5], bs[6]]), T([bs[0], bs[2], bs[6]]));
  }

  // Concatenating the routes of the branches into one display, apart from the
  // scenario lemma to keep it cheap.
  lemma ThreeRoutes(a: ToggleablePath, b: ToggleablePath, c: ToggleablePath)
    ensures [a] + ([b] + [c]) + [] == [a, b, c]
  {
  }

  /** Blacklisting the arboretum disables the first route and keeps the other two. */
  lemma CalculateAllPathsBlacklist()
    ensures var bs := TestBiomes();
      && !PathFilter.Clear([bs[0], bs[1], bs[4], bs[6]], [Arboretum])
      && PathFilter.Clear([bs[0], bs[2], bs[5], bs[6]], [Arboretum])
      && PathFilter.Clear([bs[0], bs[2], bs[6]], [Arboretum])
  {
    var bs := TestBiomes();
    PathFilter.BlacklistedBiomeDisablesRoute([bs[0], bs[1], bs[4], bs[6]], 1, [Arboretum]);
  }
}
