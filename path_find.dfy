/**
 * Route enumeration over biome ids: a depth-first search that lists every
 * path from the first biome of the list to a biome with the id of the last.
 */
module PathFind {
  import opened Wrappers
  import opened Models

  /** A route together with the flag the blacklist filter sets. */
  datatype ToggleablePath = ToggleablePath(enabled: bool, path: seq<Biome>)

  function Last<T>(s: seq<T>): T
    requires |s| > 0
  {
    s[|s| - 1]
  }

  /** The destinations of a biome's exits, in the order of its exits. */
  function ExitIds(b: Biome): seq<Id>
  {
    seq(|b.exits|, i requires 0 <= i < |b.exits| => b.exits[i].destination)
  }

  /** `b` can be followed by `c`: `c` is a biome of the list and an exit of `b` names it. */
  predicate Step(biomes: seq<Biome>, b: Biome, c: Biome)
  {
    c in biomes && c.id in ExitIds(b)
  }

  /** The graph is acyclic because every exit leads to a strictly higher row. */
  predicate RowsIncrease(biomes: seq<Biome>)
  {
    forall i, j :: 0 <= i < |biomes| && 0 <= j < |biomes| && biomes[j].id in ExitIds(biomes[i])
      ==> biomes[i].row < biomes[j].row
  }

  function MaxRow(biomes: seq<Biome>): (r: nat)
    ensures forall b :: b in biomes ==> b.row <= r
  {
    if biomes == [] then 0
    else var m := MaxRow(biomes[1..]); if biomes[0].row > m then biomes[0].row else m
  }

  lemma StepRaisesRow(biomes: seq<Biome>, b: Biome, c: Biome)
    requires RowsIncrease(biomes) && b in biomes && Step(biomes, b, c)
    ensures b.row < c.row <= MaxRow(biomes)
  {
    var i :| 0 <= i < |biomes| && biomes[i] == b;
    var j :| 0 <= j < |biomes| && biomes[j] == c;
    assert biomes[j].id in ExitIds(biomes[i]);
  }

  /**
   * `next_biomes`: the biomes of the list, in list order, whose id is among
   * the exit ids of `b`.
   */
  function Successors(biomes: seq<Biome>, b: Biome): (r: seq<Biome>)
    ensures forall c :: c in r <==> c in biomes && c.id in ExitIds(b)
  {
    if biomes == [] then []
    else (if biomes[0].id in ExitIds(b) then [biomes[0]] else []) + Successors(biomes[1..], b)
  }

  /** Filtering distributes over concatenation, so successors keep the list's order. */
  lemma {:induction false} SuccessorsKeepListOrder(xs: seq<Biome>, ys: seq<Biome>, b: Biome)
    ensures Successors(xs + ys, b) == Successors(xs, b) + Successors(ys, b)
  {
    if xs == [] {
      assert xs + ys == ys;
    } else {
      assert (xs + ys)[1..] == xs[1..] + ys;
      SuccessorsKeepListOrder(xs[1..], ys, b);
    }
  }

  /**
   * Successors depend only on the set of exit ids, not on their order or on
   * repetitions: an exit listed twice gives a single branch.
   */
  lemma {:induction false} SuccessorsIgnoreExitOrder(biomes: seq<Biome>, b: Biome, b': Biome)
    requires forall d :: d in ExitIds(b) <==> d in ExitIds(b')
    ensures Successors(biomes, b) == Successors(biomes, b')
  {
    if biomes != [] {
      SuccessorsIgnoreExitOrder(biomes[1..], b, b');
    }
  }

  /** `current_path` followed by `c`. */
  function Extend(cur: ToggleablePath, c: Biome): (r: ToggleablePath)
    ensures r.enabled == cur.enabled && |r.path| == |cur.path| + 1 && Last(r.path) == c
  {
    cur.(path := cur.path + [c])
  }

  /** The precondition of the search: a non-empty current path ending in a biome of the list. */
  predicate SearchFrom(biomes: seq<Biome>, cur: ToggleablePath)
  {
    RowsIncrease(biomes) && |cur.path| > 0 && Last(cur.path) in biomes
  }

  /** The routes `find_path_rec` returns for `cur`, in the order it returns them. */
  function Routes(biomes: seq<Biome>, cur: ToggleablePath, end: Id): (res: seq<ToggleablePath>)
    requires SearchFrom(biomes, cur)
    ensures forall r :: r in res ==>
      r.enabled == cur.enabled && |cur.path| <= |r.path| && r.path[..|cur.path|] == cur.path && Last(r.path).id == end
    decreases MaxRow(biomes) - Last(cur.path).row, 1, 0
  {
    if Last(cur.path).id == end then [cur]
    else RoutesFrom(biomes, cur, end, Successors(biomes, Last(cur.path)))
  }

  /** The routes through the successors `nexts`, concatenated in the order of `nexts`. */
  function RoutesFrom(biomes: seq<Biome>, cur: ToggleablePath, end: Id, nexts: seq<Biome>): (res: seq<ToggleablePath>)
    requires SearchFrom(biomes, cur)
    requires forall c :: c in nexts ==> Step(biomes, Last(cur.path), c)
    ensures forall r :: r in res ==>
      r.enabled == cur.enabled && |cur.path| < |r.path| && r.path[..|cur.path|] == cur.path && Last(r.path).id == end
    decreases MaxRow(biomes) - Last(cur.path).row, 0, |nexts|
  {
    if nexts == [] then []
    else
      var c := Last(nexts);
      StepRaisesRow(biomes, Last(cur.path), c);
      RoutesFrom(biomes, cur, end, nexts[..|nexts| - 1]) + Routes(biomes, Extend(cur, c), end)
  }

  /**
   * `r` is a route the search may produce from `cur`: it extends `cur` with
   * steps along exits, keeps its flag, and stops at the first biome with id `end`.
   */
  predicate Reaches(biomes: seq<Biome>, cur: ToggleablePath, end: Id, r: ToggleablePath)
    requires |cur.path| > 0
  {
    && r.enabled == cur.enabled
    && |cur.path| <= |r.path|
    && r.path[..|cur.path|] == cur.path
    && Last(r.path).id == end
    && (forall i :: |cur.path| - 1 <= i < |r.path| - 1 ==> Step(biomes, r.path[i], r.path[i + 1]))
    && (forall i :: |cur.path| - 1 <= i < |r.path| - 1 ==> r.path[i].id != end)
  }

  /** A route from `cur + [c]` is a route from `cur` when `c` follows the end of `cur`. */
  lemma ReachesShrink(biomes: seq<Biome>, cur: ToggleablePath, end: Id, c: Biome, r: ToggleablePath)
    requires |cur.path| > 0 && Step(biomes, Last(cur.path), c) && Last(cur.path).id != end
    requires Reaches(biomes, Extend(cur, c), end, r)
    ensures Reaches(biomes, cur, end, r)
  {
    var n := |cur.path|;
    assert r.path[..n] == r.path[..n + 1][..n];
    assert r.path[n - 1] == Last(cur.path) && r.path[n] == c;
  }

  /** Every route the search returns reaches `end` from `cur`; past the target it never goes. */
  lemma {:induction false} RoutesSound(biomes: seq<Biome>, cur: ToggleablePath, end: Id)
    requires SearchFrom(biomes, cur)
    ensures forall r :: r in Routes(biomes, cur, end) ==> Reaches(biomes, cur, end, r)
    ensures Last(cur.path).id == end ==> Routes(biomes, cur, end) == [cur]
    ensures Last(cur.path).id != end ==>
      forall r :: r in Routes(biomes, cur, end) ==> |r.path| > |cur.path|
    decreases MaxRow(biomes) - Last(cur.path).row, 1, 0
  {
    if Last(cur.path).id == end {
      assert cur.path[..|cur.path|] == cur.path;
    } else {
      RoutesFromSound(biomes, cur, end, Successors(biomes, Last(cur.path)));
    }
  }

  lemma {:induction false} RoutesFromSound(biomes: seq<Biome>, cur: ToggleablePath, end: Id, nexts: seq<Biome>)
    requires SearchFrom(biomes, cur) && Last(cur.path).id != end
    requires forall c :: c in nexts ==> Step(biomes, Last(cur.path), c)
    ensures forall r :: r in RoutesFrom(biomes, cur, end, nexts) ==>
      Reaches(biomes, cur, end, r) && |r.path| > |cur.path|
    decreases MaxRow(biomes) - Last(cur.path).row, 0, |nexts|
  {
    if nexts != [] {
      var c := Last(nexts);
      StepRaisesRow(biomes, Last(cur.path), c);
      RoutesFromSound(biomes, cur, end, nexts[..|nexts| - 1]);
      RoutesSound(biomes, Extend(cur, c), end);
      forall r | r in Routes(biomes, Extend(cur, c), end)
        ensures Reaches(biomes, cur, end, r) && |r.path| > |cur.path|
      {
        ReachesShrink(biomes, cur, end, c, r);
      }
    }
  }

  /** Every route that reaches `end` from `cur` is among the routes the search returns. */
  lemma {:induction false} RoutesComplete(biomes: seq<Biome>, cur: ToggleablePath, end: Id, r: ToggleablePath)
    requires SearchFrom(biomes, cur) && Reaches(biomes, cur, end, r)
    ensures r in Routes(biomes, cur, end)
    decreases MaxRow(biomes) - Last(cur.path).row, 1, 0
  {
    var n := |cur.path|;
    if |r.path| == n {
      assert r.path == cur.path;
      assert r == cur;
    } else {
      assert r.path[n - 1] == Last(cur.path);
      var c := r.path[n];
      assert Step(biomes, Last(cur.path), c);
      var nexts := Successors(biomes, Last(cur.path));
      assert c in nexts;
      var cur' := Extend(cur, c);
      assert r.path[..n + 1] == cur'.path by {
        assert r.path[..n + 1] == r.path[..n] + [r.path[n]];
      }
      StepRaisesRow(biomes, Last(cur.path), c);
      RoutesComplete(biomes, cur', end, r);
      RoutesFromContains(biomes, cur, end, nexts, c, r);
    }
  }

  /** The routes through one successor are among the routes through all of them. */
  lemma {:induction false} RoutesFromContains(biomes: seq<Biome>, cur: ToggleablePath, end: Id,
                                              nexts: seq<Biome>, c: Biome, r: ToggleablePath)
    requires SearchFrom(biomes, cur)
    requires forall x :: x in nexts ==> Step(biomes, Last(cur.path), x)
    requires c in nexts && Step(biomes, Last(cur.path), c)
    requires r in Routes(biomes, Extend(cur, c), end)
    ensures r in RoutesFrom(biomes, cur, end, nexts)
    decreases |nexts|
  {
    var last := Last(nexts);
    StepRaisesRow(biomes, Last(cur.path), last);
    if c != last {
      var init := nexts[..|nexts| - 1];
      assert c in init by {
        var k :| 0 <= k < |nexts| && nexts[k] == c;
        assert k < |nexts| - 1 && init[k] == c;
      }
      RoutesFromContains(biomes, cur, end, init, c, r);
    }
  }

  /** A search from `cur` returns exactly the routes that reach `end` from `cur`. */
  lemma RoutesExactly(biomes: seq<Biome>, cur: ToggleablePath, end: Id, r: ToggleablePath)
    requires SearchFrom(biomes, cur)
    ensures r in Routes(biomes, cur, end) <==> Reaches(biomes, cur, end, r)
  {
    RoutesSound(biomes, cur, end);
    if Reaches(biomes, cur, end, r) {
      RoutesComplete(biomes, cur, end, r);
    }
  }

  /** One iteration of the search loop: the branch through the `i`-th successor. */
  lemma SearchStep(biomes: seq<Biome>, cur: ToggleablePath, end: Id, i: nat)
    requires SearchFrom(biomes, cur) && Last(cur.path).id != end
    requires i < |Successors(biomes, Last(cur.path))|
    ensures var nexts := Successors(biomes, Last(cur.path));
      && SearchFrom(biomes, ToggleablePath(cur.enabled, cur.path + [nexts[i]]))
      && 0 <= MaxRow(biomes) - nexts[i].row < MaxRow(biomes) - Last(cur.path).row
      && RoutesFrom(biomes, cur, end, nexts[..i + 1])
         == RoutesFrom(biomes, cur, end, nexts[..i]) + Routes(biomes, Extend(cur, nexts[i]), end)
  {
    var nexts := Successors(biomes, Last(cur.path));
    var next := nexts[i];
    assert next in nexts;
    StepRaisesRow(biomes, Last(cur.path), next);
    assert ToggleablePath(cur.enabled, cur.path + [next]) == Extend(cur, next);
    ghost var done := nexts[..i + 1];
    assert done[..i] == nexts[..i] && Last(done) == next;
  }

  /** `find_path_rec`: depth-first extension of `cur` until the target id is reached. */
  method FindPathRec(biomes: seq<Biome>, cur: ToggleablePath, end: Id) returns (paths: seq<ToggleablePath>)
    requires SearchFrom(biomes, cur)
    ensures paths == Routes(biomes, cur, end)
    decreases MaxRow(biomes) - Last(cur.path).row
  {
    var last := cur.path[|cur.path| - 1];
    if last.id == end {
      return [cur];
    }
    var nextBiomes := Successors(biomes, last);
    paths := [];
    var i := 0;
    while i < |nextBiomes|
      invariant 0 <= i <= |nextBiomes|
      invariant paths == RoutesFrom(biomes, cur, end, nextBiomes[..i])
    {
      var nextPath := ToggleablePath(cur.enabled, cur.path + [nextBiomes[i]]);
      SearchStep(biomes, cur, end, i);
      var newPaths := FindPathRec(biomes, nextPath, end);
      paths := paths + newPaths;
      i := i + 1;
    }
    assert nextBiomes[..i] == nextBiomes;
  }

  /** The enumeration precondition: a non-empty list whose exits all climb rows. */
  predicate Enumerable(biomes: seq<Biome>)
  {
    |biomes| > 0 && RowsIncrease(biomes)
  }

  /** The start of every enumeration: the first biome alone, enabled. */
  function Start(biomes: seq<Biome>): (s: ToggleablePath)
    requires Enumerable(biomes)
    ensures SearchFrom(biomes, s)
  {
    ToggleablePath(true, [biomes[0]])
  }

  /** All routes from the first biome to the id of the last one. */
  function AllRoutes(biomes: seq<Biome>): (res: seq<ToggleablePath>)
    requires Enumerable(biomes)
    ensures forall r :: r in res ==> r.enabled && |r.path| > 0 && r.path[0] == biomes[0] && Last(r.path).id == Last(biomes).id
  {
    Routes(biomes, Start(biomes), Last(biomes).id)
  }

  /** `find_paths`: enumerate from the first biome to the id of the last biome. */
  method FindPaths(biomes: seq<Biome>) returns (r: Result<seq<ToggleablePath>, string>)
    requires Enumerable(biomes)
    ensures r == Success(AllRoutes(biomes))
  {
    var start := ToggleablePath(true, [biomes[0]]);
    var end := biomes[|biomes| - 1];
    var paths := FindPathRec(biomes, start, end.id);
    return Success(paths);
  }

  /**
   * The routes of `find_paths` are exactly the enabled paths that start at the
   * first biome, follow exits, and end at the first biome with the last biome's id.
   */
  lemma {:induction false} AllRoutesCharacterized(biomes: seq<Biome>, r: ToggleablePath)
    requires Enumerable(biomes)
    ensures r in AllRoutes(biomes) <==>
      && r.enabled
      && |r.path| > 0 && r.path[0] == biomes[0]
      && Last(r.path).id == Last(biomes).id
      && (forall i :: 0 <= i < |r.path| - 1 ==> Step(biomes, r.path[i], r.path[i + 1]))
      && (forall i :: 0 <= i < |r.path| - 1 ==> r.path[i].id != Last(biomes).id)
  {
    RoutesExactly(biomes, Start(biomes), Last(biomes).id, r);
    if |r.path| > 0 && r.path[0] == biomes[0] {
      assert r.path[..1] == [biomes[0]];
    }
  }

  /** A biome without exits lies on a route only as its final biome, the target. */
  lemma DeadEndsContributeNothing(biomes: seq<Biome>, r: ToggleablePath, i: nat)
    requires Enumerable(biomes) && r in AllRoutes(biomes)
    requires i < |r.path| && r.path[i].exits == []
    ensures i == |r.path| - 1 && r.path[i].id == Last(biomes).id
  {
    AllRoutesCharacterized(biomes, r);
    forall k | 0 <= k < |r.path| - 1
      ensures r.path[k].exits != []
    {
      assert r.path[k + 1].id in ExitIds(r.path[k]);
    }
  }

  /** `i` is the position of the first biome with id `id`. */
  predicate FirstWithId(biomes: seq<Biome>, i: int, id: Id)
  {
    0 <= i < |biomes| && biomes[i].id == id && forall j :: 0 <= j < i ==> biomes[j].id != id
  }

  /** `get_biome`: the first biome with the given id; `None` where the source panics. */
  function GetBiome(biomes: seq<Biome>, id: Id): (r: Option<Biome>)
    ensures r.Some? <==> exists b :: b in biomes && b.id == id
    ensures r.Some? ==> exists i :: FirstWithId(biomes, i, id) && biomes[i] == r.value
  {
    if biomes == [] then None
    else if biomes[0].id == id then assert FirstWithId(biomes, 0, id); Some(biomes[0])
    else
      var r := GetBiome(biomes[1..], id);
      if r.Some? then
        var i :| FirstWithId(biomes[1..], i, id) && biomes[1..][i] == r.value;
        assert FirstWithId(biomes, i + 1, id);
        r
      else r
  }
}
