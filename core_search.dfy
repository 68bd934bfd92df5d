/**
 * Route enumeration over biome names: the depth-first search of the scoring
 * engine, from the biome with the start name to biomes with the end name.
 */
module CoreSearch {
  import opened Wrappers
  import opened CoreModels
  import PathFind

  type Path = seq<Biome>

  /** `b` can be followed by `c`: `c` is a biome of the list and an exit of `b` names it. */
  predicate Step(biomes: seq<Biome>, b: Biome, c: Biome)
  {
    c in biomes && c.name in ExitNames(b)
  }

  /**
   * The graph is acyclic because every exit names only biomes later in the
   * list. (The biomes of this engine carry no meaningful rows: `Biome::from`
   * sets every row to 0.)
   */
  predicate ExitsPointForward(biomes: seq<Biome>)
  {
    forall i, j :: 0 <= i < |biomes| && 0 <= j < |biomes| && biomes[j].name in ExitNames(biomes[i]) ==> i < j
  }

  /** The position of the first occurrence of `b`. */
  function IndexOf(biomes: seq<Biome>, b: Biome): (r: nat)
    requires b in biomes
    ensures r < |biomes| && biomes[r] == b
    ensures forall j :: 0 <= j < r ==> biomes[j] != b
  {
    if biomes[0] == b then 0 else 1 + IndexOf(biomes[1..], b)
  }

  lemma StepMovesForward(biomes: seq<Biome>, b: Biome, c: Biome)
    requires ExitsPointForward(biomes) && b in biomes && Step(biomes, b, c)
    ensures IndexOf(biomes, b) < IndexOf(biomes, c)
  {
    assert biomes[IndexOf(biomes, c)].name in ExitNames(biomes[IndexOf(biomes, b)]);
  }

  /** `next_biomes`: the biomes of the list, in list order, whose name is among the exits of `b`. */
  function Successors(biomes: seq<Biome>, b: Biome): (r: seq<Biome>)
    ensures forall c :: c in r <==> Step(biomes, b, c)
  {
    if biomes == [] then []
    else (if biomes[0].name in ExitNames(b) then [biomes[0]] else []) + Successors(biomes[1..], b)
  }

  /** Filtering distributes over concatenation, so successors keep the list's order. */
  lemma {:induction false} SuccessorsKeepListOrder(xs: seq<Biome>, ys: seq<Biome>, b: Biome)
    ensures Successors(xs + ys, b) == Successors(xs, b) + Successors(ys, b)
  {
    if xs == [] {
      assert xs + ys == ys;
    } else {
      assert (xs + ys)[1..] == xs[1..] + ys;
      SuccessorsKeepListOrder(xs[1..], ys, b);
    }
  }

  /** The precondition of the search: a non-empty current path ending in a biome of the list. */
  predicate SearchFrom(biomes: seq<Biome>, cur: Path)
  {
    ExitsPointForward(biomes) && |cur| > 0 && PathFind.Last(cur) in biomes
  }

  /** The number of list positions after the end of `cur`: the search's termination measure. */
  function Remaining(biomes: seq<Biome>, cur: Path): nat
    requires SearchFrom(biomes, cur)
  {
    |biomes| - IndexOf(biomes, PathFind.Last(cur))
  }

  /** The routes `find_path_rec` returns from `cur`: `cur` itself at the target, else the routes through each successor. */
  function Routes(biomes: seq<Biome>, cur: Path, end: string): seq<Path>
    requires SearchFrom(biomes, cur)
    decreases Remaining(biomes, cur), 1, 0
  {
    if PathFind.Last(cur).name == end then [cur]
    else RoutesFrom(biomes, cur, end, Successors(biomes, PathFind.Last(cur)))
  }

  /** The routes through the successors `nexts`, concatenated in the order of `nexts`. */
  function RoutesFrom(biomes: seq<Biome>, cur: Path, end: string, nexts: seq<Biome>): seq<Path>
    requires SearchFrom(biomes, cur)
    requires forall c :: c in nexts ==> Step(biomes, PathFind.Last(cur), c)
    decreases Remaining(biomes, cur), 0, |nexts|
  {
    if nexts == [] then []
    else
      var c := PathFind.Last(nexts);
      StepMovesForward(biomes, PathFind.Last(cur), c);
      RoutesFrom(biomes, cur, end, nexts[..|nexts| - 1]) + Routes(biomes, cur + [c], end)
  }

  /**
   * `r` is a route the search may produce from `cur`: it extends `cur` along
   * exits and stops at the first biome named `end`.
   */
  predicate Reaches(biomes: seq<Biome>, cur: Path, end: string, r: Path)
    requires |cur| > 0
  {
    && |cur| <= |r|
    && r[..|cur|] == cur
    && PathFind.Last(r).name == end
    && (forall i :: |cur| - 1 <= i < |r| - 1 ==> Step(biomes, r[i], r[i + 1]))
    && (forall i :: |cur| - 1 <= i < |r| - 1 ==> r[i].name != end)
  }

  lemma ReachesShrink(biomes: seq<Biome>, cur: Path, end: string, c: Biome, r: Path)
    requires |cur| > 0 && Step(biomes, PathFind.Last(cur), c) && PathFind.Last(cur).name != end
    requires Reaches(biomes, cur + [c], end, r)
    ensures Reaches(biomes, cur, end, r)
  {
    var n := |cur|;
    assert r[..n] == r[..n + 1][..n];
    assert r[n - 1] == PathFind.Last(cur) && r[n] == c;
  }

  /** Every route the search returns reaches `end` from `cur`. */
  lemma {:induction false} RoutesSound(biomes: seq<Biome>, cur: Path, end: string)
    requires SearchFrom(biomes, cur)
    ensures forall r :: r in Routes(biomes, cur, end) ==> Reaches(biomes, cur, end, r)
    decreases Remaining(biomes, cur), 1, 0
  {
    if PathFind.Last(cur).name == end {
      assert cur[..|cur|] == cur;
    } else {
      RoutesFromSound(biomes, cur, end, Successors(biomes, PathFind.Last(cur)));
    }
  }

  lemma {:induction false} RoutesFromSound(biomes: seq<Biome>, cur: Path, end: string, nexts: seq<Biome>)
    requires SearchFrom(biomes, cur) && PathFind.Last(cur).name != end
    requires forall c :: c in nexts ==> Step(biomes, PathFind.Last(cur), c)
    ensures forall r :: r in RoutesFrom(biomes, cur, end, nexts) ==> Reaches(biomes, cur, end, r)
    decreases Remaining(biomes, cur), 0, |nexts|
  {
    if nexts != [] {
      var c := PathFind.Last(nexts);
      StepMovesForward(biomes, PathFind.Last(cur), c);
      RoutesFromSound(biomes, cur, end, nexts[..|nexts| - 1]);
      RoutesSound(biomes, cur + [c], end);
      forall r | r in Routes(biomes, cur + [c], end)
        ensures Reaches(biomes, cur, end, r)
      {
        ReachesShrink(biomes, cur, end, c, r);
      }
    }
  }

  /** Every route that reaches `end` from `cur` is among the routes the search returns. */
  lemma {:induction false} RoutesComplete(biomes: seq<Biome>, cur: Path, end: string, r: Path)
    requires SearchFrom(biomes, cur) && Reaches(biomes, cur, end, r)
    ensures r in Routes(biomes, cur, end)
    decreases Remaining(biomes, cur), 1, 0
  {
    var n := |cur|;
    if |r| == n {
      assert r == cur;
    } else {
      assert r[n - 1] == PathFind.Last(cur);
      var c := r[n];
      assert Step(biomes, PathFind.Last(cur), c);
      var nexts := Successors(biomes, PathFind.Last(cur));
      assert r[..n + 1] == cur + [c] by {
        assert r[..n + 1] == r[..n] + [r[n]];
      }
      StepMovesForward(biomes, PathFind.Last(cur), c);
      RoutesComplete(biomes, cur + [c], end, r);
      RoutesFromContains(biomes, cur, end, nexts, c, r);
    }
  }

  lemma {:induction false} RoutesFromContains(biomes: seq<Biome>, cur: Path, end: string,
                                              nexts: seq<Biome>, c: Biome, r: Path)
    requires SearchFrom(biomes, cur)
    requires forall x :: x in nexts ==> Step(biomes, PathFind.Last(cur), x)
    requires c in nexts && Step(biomes, PathFind.Last(cur), c)
    requires r in Routes(biomes, cur + [c], end)
    ensures r in RoutesFrom(biomes, cur, end, nexts)
    decreases |nexts|
  {
    var last := PathFind.Last(nexts);
    StepMovesForward(biomes, PathFind.Last(cur), last);
    if c != last {
      var init := nexts[..|nexts| - 1];
      assert c in init by {
        var k :| 0 <= k < |nexts| && nexts[k] == c;
        assert k < |nexts| - 1 && init[k] == c;
      }
      RoutesFromContains(biomes, cur, end, init, c, r);
    }
  }

  /** A search from `cur` returns exactly the routes that reach `end` from `cur`. */
  lemma RoutesExactly(biomes: seq<Biome>, cur: Path, end: string, r: Path)
    requires SearchFrom(biomes, cur)
    ensures r in Routes(biomes, cur, end) <==> Reaches(biomes, cur, end, r)
  {
    RoutesSound(biomes, cur, end);
    if Reaches(biomes, cur, end, r) {
      RoutesComplete(biomes, cur, end, r);
    }
  }

  /** One iteration of the search loop: the branch through the `i`-th successor. */
  lemma SearchStep(biomes: seq<Biome>, cur: Path, end: string, i: nat)
    requires SearchFrom(biomes, cur) && PathFind.Last(cur).name != end
    requires i < |Successors(biomes, PathFind.Last(cur))|
    ensures var nexts := Successors(biomes, PathFind.Last(cur));
      && SearchFrom(biomes, cur + [nexts[i]])
      && Remaining(biomes, cur + [nexts[i]]) < Remaining(biomes, cur)
      && RoutesFrom(biomes, cur, end, nexts[..i + 1])
         == RoutesFrom(biomes, cur, end, nexts[..i]) + Routes(biomes, cur + [nexts[i]], end)
  {
    var nexts := Successors(biomes, PathFind.Last(cur));
    var next := nexts[i];
    assert next in nexts;
    StepMovesForward(biomes, PathFind.Last(cur), next);
    ghost var done := nexts[..i + 1];
    assert done[..i] == nexts[..i] && PathFind.Last(done) == next;
  }

  /** `find_path_rec`: depth-first extension of `cur` until a biome named `end` is reached. */
  method FindPathRec(biomes: seq<Biome>, cur: Path, end: string) returns (paths: seq<Path>)
    requires SearchFrom(biomes, cur)
    ensures paths == Routes(biomes, cur, end)
    decreases Remaining(biomes, cur)
  {
    var last := cur[|cur| - 1];
    if last.name == end {
      return [cur];
    }
    var nextBiomes := Successors(biomes, last);
    paths := [];
    var i := 0;
    while i < |nextBiomes|
      invariant 0 <= i <= |nextBiomes|
      invariant paths == RoutesFrom(biomes, cur, end, nextBiomes[..i])
    {
      var nextPath := cur + [nextBiomes[i]];
      SearchStep(biomes, cur, end, i);
      var newPaths := FindPathRec(biomes, nextPath, end);
      paths := paths + newPaths;
      i := i + 1;
    }
    assert nextBiomes[..i] == nextBiomes;
  }

  /** `i` is the position of the first biome named `name`. */
  predicate FirstWithName(biomes: seq<Biome>, i: int, name: string)
  {
    0 <= i < |biomes| && biomes[i].name == name && forall j :: 0 <= j < i ==> biomes[j].name != name
  }

  /** The first biome with the given name, as the `find` of `find_paths`. */
  function FindByName(biomes: seq<Biome>, name: string): (r: Option<Biome>)
    ensures r.Some? ==> r.value in biomes && r.value.name == name
    ensures r.Some? ==> exists i :: FirstWithName(biomes, i, name) && biomes[i] == r.value
    ensures r.None? <==> forall b :: b in biomes ==> b.name != name
  {
    if biomes == [] then None
    else if biomes[0].name == name then assert FirstWithName(biomes, 0, name); Some(biomes[0])
    else
      var r := FindByName(biomes[1..], name);
      if r.Some? then
        var i :| FirstWithName(biomes[1..], i, name) && biomes[1..][i] == r.value;
        assert FirstWithName(biomes, i + 1, name);
        r
      else r
  }

  /** The routes from the biome named `start` to biomes named `end`, or the error `find_paths` reports. */
  function AllRoutes(biomes: seq<Biome>, start: string, end: string): (res: Result<seq<Path>, string>)
    requires ExitsPointForward(biomes)
    ensures res.Failure? <==> forall b :: b in biomes ==> b.name != start
    ensures res.Success? ==> forall r: Path :: r in res.value ==> |r| > 0 && r[0].name == start && PathFind.Last(r).name == end
  {
    match FindByName(biomes, start)
    case None => Failure("Couldn't find start node " + start)
    case Some(s) =>
      RoutesSound(biomes, [s], end);
      Success(Routes(biomes, [s], end))
  }

  /** `find_paths`: look the start biome up by name, then search from it. */
  method FindPaths(biomes: seq<Biome>, start: string, end: string) returns (r: Result<seq<Path>, string>)
    requires ExitsPointForward(biomes)
    ensures r == AllRoutes(biomes, start, end)
  {
    var s := FindByName(biomes, start);
    if s.None? {
      return Failure("Couldn't find start node " + start);
    }
    var paths := FindPathRec(biomes, [s.value], end);
    return Success(paths);
  }

  /**
   * `find_paths` fails exactly when no biome has the start name; otherwise its
   * routes are exactly the paths from that biome along exits to the first biome
   * named `end`.
   */
  lemma AllRoutesCharacterized(biomes: seq<Biome>, start: string, end: string, r: Path)
    requires ExitsPointForward(biomes)
    ensures AllRoutes(biomes, start, end).Failure? <==> forall b :: b in biomes ==> b.name != start
    ensures AllRoutes(biomes, start, end).Success? ==>
      (r in AllRoutes(biomes, start, end).value <==>
        && |r| > 0 && r[0] == FindByName(biomes, start).value && r[0].name == start
        && PathFind.Last(r).name == end
        && (forall i :: 0 <= i < |r| - 1 ==> Step(biomes, r[i], r[i + 1]))
        && (forall i :: 0 <= i < |r| - 1 ==> r[i].name != end))
  {
    if FindByName(biomes, start).Some? {
      var s := FindByName(biomes, start).value;
      RoutesExactly(biomes, [s], end, r);
      if |r| > 0 && r[0] == s {
        assert r[..1] == [s];
      }
    }
  }

  /** The five biomes of the search test: a dead end, and two ways from `middle` to `end`. */
  function TestBiomes(): seq<Biome>
  {
    [BiomeFrom("start", ["dead_end", "middle"]),
     BiomeFrom("dead_end", []),
     BiomeFrom("middle", ["end", "extra_biome"]),
     BiomeFrom("extra_biome", ["end"]),
     BiomeFrom("end", [])]
  }

  lemma TestExits()
    ensures var bs := TestBiomes();
      && ExitNames(bs[0]) == ["dead_end", "middle"] && ExitNames(bs[1]) == []
      && ExitNames(bs[2]) == ["end", "extra_biome"] && ExitNames(bs[3]) == ["end"]
      && ExitNames(bs[4]) == []
    ensures ExitsPointForward(TestBiomes())
  {
    var bs := TestBiomes();
    assert ExitNames(bs[0]) == ["dead_end", "middle"];
    assert ExitNames(bs[2]) == ["end", "extra_biome"];
    assert ExitNames(bs[3]) == ["end"];
  }

  lemma TestSuccessors()
    ensures var bs := TestBiomes();
      && Successors(bs, bs[0]) == [bs[1], bs[2]] && Successors(bs, bs[1]) == []
      && Successors(bs, bs[2]) == [bs[3], bs[4]] && Successors(bs, bs[3]) == [bs[4]]
  {
    TestExits();
    var bs := TestBiomes();
    assert bs[1..][1..][1..][1..][1..] == [];
  }

  /** Unfolding the search at a biome with one successor. */
  lemma RoutesThroughOne(biomes: seq<Biome>, cur: Path, end: string, a: Biome)
    requires SearchFrom(biomes, cur) && PathFind.Last(cur).name != end
    requires Successors(biomes, PathFind.Last(cur)) == [a]
    ensures SearchFrom(biomes, cur + [a])
    ensures Routes(biomes, cur, end) == Routes(biomes, cur + [a], end)
  {
    var nexts := [a];
    assert a in nexts && PathFind.Last(nexts) == a && nexts[..0] == [];
    assert RoutesFrom(biomes, cur, end, nexts[..0]) == [];
    assert RoutesFrom(biomes, cur, end, nexts) == RoutesFrom(biomes, cur, end, nexts[..0]) + Routes(biomes, cur + [a], end);
  }

  /** Unfolding the search at a biome with two successors: the first one's routes come first. */
  lemma RoutesThroughTwo(biomes: seq<Biome>, cur: Path, end: string, a: Biome, b: Biome)
    requires SearchFrom(biomes, cur) && PathFind.Last(cur).name != end
    requires Successors(biomes, PathFind.Last(cur)) == [a, b]
    ensures SearchFrom(biomes, cur + [a]) && SearchFrom(biomes, cur + [b])
    ensures Routes(biomes, cur, end) == Routes(biomes, cur + [a], end) + Routes(biomes, cur + [b], end)
  {
    var nexts := [a, b];
    assert a in nexts && b in nexts && PathFind.Last(nexts) == b && nexts[..1] == [a];
    assert PathFind.Last([a]) == a && [a][..0] == [];
    assert RoutesFrom(biomes, cur, end, [a]) == RoutesFrom(biomes, cur, end, []) + Routes(biomes, cur + [a], end);
    assert RoutesFrom(biomes, cur, end, nexts) == RoutesFrom(biomes, cur, end, [a]) + Routes(biomes, cur + [b], end);
  }

  /** The search over any graph shaped like the test's: names and successors are all that matter. */
  lemma TestShapeRoutes(bs: seq<Biome>, s: Biome, d: Biome, m: Biome, x: Biome, e: Biome)
    requires SearchFrom(bs, [s])
    requires s.name == "start" && d.name == "dead_end" && m.name == "middle"
    requires x.name == "extra_biome" && e.name == "end"
    requires Successors(bs, s) == [d, m] && Successors(bs, d) == []
    requires Successors(bs, m) == [x, e] && Successors(bs, x) == [e]
    ensures Routes(bs, [s], "end") == [[s, m, x, e], [s, m, e]]
  {
    RoutesThroughTwo(bs, [s], "end", d, m);
    assert [s] + [d] == [s, d] && [s] + [m] == [s, m];
    assert PathFind.Last([s, d]) == d;
    assert Routes(bs, [s, d], "end") == RoutesFrom(bs, [s, d], "end", []) == [];
    assert PathFind.Last([s, m]) == m;
    RoutesThroughTwo(bs, [s, m], "end", x, e);
    assert [s, m] + [x] == [s, m, x] && [s, m] + [e] == [s, m, e];
    assert PathFind.Last([s, m, e]) == e && PathFind.Last([s, m, x]) == x;
    RoutesThroughOne(bs, [s, m, x], "end", e);
    assert [s, m, x] + [e] == [s, m, x, e] && PathFind.Last([s, m, x, e]) == e;
  }

  lemma TestRoutes()
    requires ExitsPointForward(TestBiomes())
    ensures var bs := TestBiomes();
      Routes(bs, [bs[0]], "end") == [[bs[0], bs[2], bs[3], bs[4]], [bs[0], bs[2], bs[4]]]
  {
    TestSuccessors();
    var bs := TestBiomes();
    assert bs[0].name == "start" && bs[1].name == "dead_end" && bs[2].name == "middle";
    assert bs[3].name == "extra_biome" && bs[4].name == "end";
    TestShapeRoutes(bs, bs[0], bs[1], bs[2], bs[3], bs[4]);
  }

  /**
   * The search test: the dead end contributes nothing, and the detour through
   * `extra_biome` comes first because it is listed before `end`.
   */
  lemma FindPathBetweenNodes()
    ensures ExitsPointForward(TestBiomes())
    ensures var bs := TestBiomes();
      AllRoutes(bs, "start", "end") == Success([[bs[0], bs[2], bs[3], bs[4]], [bs[0], bs[2], bs[4]]])
  {
    TestExits();
    TestRoutes();
    var bs := TestBiomes();
    assert FindByName(bs, "start") == Some(bs[0]);
  }
}
