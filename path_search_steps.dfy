/**
 * Unfolding lemmas for the route search: one search step at a biome with
 * zero to three successors, stated for enabled routes.
 */
module PathSearchSteps {
  import opened Models
  import opened PathFind

  /** An enabled route. */
  function T(p: seq<Biome>): ToggleablePath
  {
    ToggleablePath(true, p)
  }

  /** One search step away from the target follows the successors of the last biome. */
  lemma RoutesUnfold(biomes: seq<Biome>, cur: ToggleablePath, end: Id)
    requires SearchFrom(biomes, cur) && Last(cur.path).id != end
    ensures Routes(biomes, cur, end) == RoutesFrom(biomes, cur, end, Successors(biomes, Last(cur.path)))
  {
  }

  /** The routes through one more successor come after those through the earlier ones. */
  lemma RoutesFromSnoc(bs: seq<Biome>, cur: ToggleablePath, end: Id, nexts: seq<Biome>, c: Biome)
    requires SearchFrom(bs, cur)
    requires forall x :: x in nexts ==> Step(bs, Last(cur.path), x)
    requires Step(bs, Last(cur.path), c)
    ensures SearchFrom(bs, Extend(cur, c))
    ensures RoutesFrom(bs, cur, end, nexts + [c])
      == RoutesFrom(bs, cur, end, nexts) + Routes(bs, Extend(cur, c), end)
  {
    var ns := nexts + [c];
    assert ns[..|ns| - 1] == nexts && Last(ns) == c;
    forall x | x in ns ensures Step(bs, Last(cur.path), x) {
      if x != c { assert x in nexts; }
    }
    StepRaisesRow(bs, Last(cur.path), c);
  }

  /** The routes through a single successor. */
  lemma SnocOne(bs: seq<Biome>, cur: ToggleablePath, end: Id, a: Biome)
    requires SearchFrom(bs, cur)
    requires Step(bs, Last(cur.path), a)
    ensures SearchFrom(bs, Extend(cur, a))
    ensures RoutesFrom(bs, cur, end, [a]) == Routes(bs, Extend(cur, a), end)
  {
    RoutesFromSnoc(bs, cur, end, [], a);
    assert [] + [a] == [a];
  }

  /** The routes through two successors: the first one's come first. */
  lemma SnocTwo(bs: seq<Biome>, cur: ToggleablePath, end: Id, a: Biome, b: Biome)
    requires SearchFrom(bs, cur)
    requires Step(bs, Last(cur.path), a) && Step(bs, Last(cur.path), b)
    ensures SearchFrom(bs, Extend(cur, a)) && SearchFrom(bs, Extend(cur, b))
    ensures RoutesFrom(bs, cur, end, [a, b]) == Routes(bs, Extend(cur, a), end) + Routes(bs, Extend(cur, b), end)
  {
    SnocOne(bs, cur, end, a);
    RoutesFromSnoc(bs, cur, end, [a], b);
    assert [a] + [b] == [a, b];
  }

  /** The routes through three successors, in their order. */
  lemma SnocThree(bs: seq<Biome>, cur: ToggleablePath, end: Id, a: Biome, b: Biome, c: Biome)
    requires SearchFrom(bs, cur)
    requires Step(bs, Last(cur.path), a) && Step(bs, Last(cur.path), b) && Step(bs, Last(cur.path), c)
    ensures SearchFrom(bs, Extend(cur, a)) && SearchFrom(bs, Extend(cur, b)) && SearchFrom(bs, Extend(cur, c))
    ensures RoutesFrom(bs, cur, end, [a, b, c])
      == Routes(bs, Extend(cur, a), end) + Routes(bs, Extend(cur, b), end) + Routes(bs, Extend(cur, c), end)
  {
    SnocTwo(bs, cur, end, a, b);
    RoutesFromSnoc(bs, cur, end, [a, b], c);
    assert [a, b] + [c] == [a, b, c];
  }

  lemma ExtendTo(cur: seq<Biome>, c: Biome)
    requires |cur| > 0
    ensures Extend(T(cur), c) == T(cur + [c]) && Last(cur + [c]) == c
  {
  }

  /** Unfolding the search at a biome with one successor. */
  lemma ThroughOne(bs: seq<Biome>, cur: seq<Biome>, end: Id, a: Biome)
    requires SearchFrom(bs, T(cur)) && Last(cur).id != end
    requires Successors(bs, Last(cur)) == [a]
    ensures SearchFrom(bs, T(cur + [a]))
    ensures Routes(bs, T(cur), end) == Routes(bs, T(cur + [a]), end)
  {
    RoutesUnfold(bs, T(cur), end);
    assert a in Successors(bs, Last(cur));
    SnocOne(bs, T(cur), end, a);
    ExtendTo(cur, a);
  }

  /** Unfolding the search at a biome with two successors. */
  lemma ThroughTwo(bs: seq<Biome>, cur: seq<Biome>, end: Id, a: Biome, b: Biome)
    requires SearchFrom(bs, T(cur)) && Last(cur).id != end
    requires Successors(bs, Last(cur)) == [a, b]
    ensures SearchFrom(bs, T(cur + [a])) && SearchFrom(bs, T(cur + [b]))
    ensures Routes(bs, T(cur), end) == Routes(bs, T(cur + [a]), end) + Routes(bs, T(cur + [b]), end)
  {
    RoutesUnfold(bs, T(cur), end);
    assert a in Successors(bs, Last(cur)) && b in Successors(bs, Last(cur));
    SnocTwo(bs, T(cur), end, a, b);
    ExtendTo(cur, a);
    ExtendTo(cur, b);
  }

  /** Unfolding the search at a biome with three successors. */
  lemma ThroughThree(bs: seq<Biome>, cur: seq<Biome>, end: Id, a: Biome, b: Biome, c: Biome)
    requires SearchFrom(bs, T(cur)) && Last(cur).id != end
    requires Successors(bs, Last(cur)) == [a, b, c]
    ensures SearchFrom(bs, T(cur + [a])) && SearchFrom(bs, T(cur + [b])) && SearchFrom(bs, T(cur + [c]))
    ensures Routes(bs, T(cur), end) == Routes(bs, T(cur + [a]), end) + Routes(bs, T(cur + [b]), end) + Routes(bs, T(cur + [c]), end)
  {
    RoutesUnfold(bs, T(cur), end);
    assert a in Successors(bs, Last(cur)) && b in Successors(bs, Last(cur)) && c in Successors(bs, Last(cur));
    SnocThree(bs, T(cur), end, a, b, c);
    ExtendTo(cur, a);
    ExtendTo(cur, b);
    ExtendTo(cur, c);
  }

  /** At the target the current path is the one route. */
  lemma AtTarget(bs: seq<Biome>, cur: seq<Biome>, end: Id)
    requires SearchFrom(bs, T(cur)) && Last(cur).id == end
    ensures Routes(bs, T(cur), end) == [T(cur)]
  {
  }

  /** A biome other than the target with no successor yields no route. */
  lemma DeadEnd(bs: seq<Biome>, cur: seq<Biome>, end: Id)
    requires SearchFrom(bs, T(cur)) && Last(cur).id != end
    requires Successors(bs, Last(cur)) == []
    ensures Routes(bs, T(cur), end) == []
  {
    RoutesUnfold(bs, T(cur), end);
  }
}
