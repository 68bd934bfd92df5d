/**
 * `get_paths_from`: the precomputed routes go through the blacklist filter
 * and then through the edge reducer.
 */
module PathPipeline {
  import opened Models
  import opened PathFind
  import opened PathFilter
  import opened PathReduce
  import opened ReduceFacts

  /** The routes as the filter leaves them: the same biomes, enabled when clear of the blacklist. */
  function Filtered(paths: seq<ToggleablePath>, blacklist: seq<Id>): (r: seq<ToggleablePath>)
    ensures |r| == |paths| && forall k :: 0 <= k < |r| ==> r[k].path == paths[k].path
    ensures forall k, i :: 0 <= k < |r| && r[k].enabled && 0 <= i < |r[k].path| ==> r[k].path[i].id !in blacklist
    ensures forall k :: 0 <= k < |r| && !r[k].enabled ==> exists i :: 0 <= i < |paths[k].path| && paths[k].path[i].id in blacklist
  {
    seq(|paths|, k requires 0 <= k < |paths| => ToggleablePath(Clear(paths[k].path, blacklist), paths[k].path))
  }

  /** The filter leaves the biomes of every route alone, so rows still never decrease. */
  lemma FilteredKeepsRows(paths: seq<ToggleablePath>, blacklist: seq<Id>)
    requires RowsNonDecreasing(paths)
    ensures RowsNonDecreasing(Filtered(paths, blacklist))
  {
    var f := Filtered(paths, blacklist);
    forall k, i | 0 <= k < |f| && 0 <= i < |f[k].path| - 1
      ensures f[k].path[i].row <= f[k].path[i + 1].row
    {
      assert f[k].path == paths[k].path;
    }
  }

  /**
   * `get_paths_from`: the edges and reachable biomes are those the reducer
   * computes on the filtered routes.
   */
  method GetPathsFrom(allBiomes: seq<Biome>, paths: seq<ToggleablePath>, blacklist: seq<Id>)
    returns (result: seq<RenderablePath>, reachableBiomes: seq<Id>)
    requires RowsNonDecreasing(paths)
    ensures RowsNonDecreasing(Filtered(paths, blacklist))
    ensures Reduction(result, reachableBiomes) == ReduceRoutes(allBiomes, Filtered(paths, blacklist))
  {
    var filtered := ApplyBlacklist(paths, blacklist);
    assert filtered == Filtered(paths, blacklist);
    FilteredKeepsRows(paths, blacklist);
    result, reachableBiomes := BiomesPathsToPaths(allBiomes, filtered);
  }

  /**
   * The routes of `find_paths` climb: every biome after the first is an exit
   * of the one before, so on a list whose exits all climb rows, rows never
   * decrease along a route and the reducer's precondition holds for them.
   */
  lemma AllRoutesClimb(biomes: seq<Biome>)
    requires Enumerable(biomes)
    ensures RowsNonDecreasing(AllRoutes(biomes))
  {
    var routes := AllRoutes(biomes);
    forall k, i | 0 <= k < |routes| && 0 <= i < |routes[k].path| - 1
      ensures routes[k].path[i].row <= routes[k].path[i + 1].row
    {
      var p := routes[k].path;
      AllRoutesCharacterized(biomes, routes[k]);
      assert p[i] in biomes by {
        if i > 0 {
          assert PathFind.Step(biomes, p[i - 1], p[i]);
        }
      }
      StepRaisesRow(biomes, p[i], p[i + 1]);
    }
  }

  /**
   * `get_paths`: the routes `find_paths` enumerates once over the biome list,
   * filtered by the blacklist and reduced to edges.
   */
  method GetPaths(biomes: seq<Biome>, blacklist: seq<Id>) returns (result: seq<RenderablePath>, reachableBiomes: seq<Id>)
    requires Enumerable(biomes)
    ensures RowsNonDecreasing(Filtered(AllRoutes(biomes), blacklist))
    ensures Reduction(result, reachableBiomes) == ReduceRoutes(biomes, Filtered(AllRoutes(biomes), blacklist))
  {
    var raw := FindPaths(biomes);
    AllRoutesClimb(biomes);
    result, reachableBiomes := GetPathsFrom(biomes, raw.value, blacklist);
  }

  /** Some route that avoids the blacklist goes from a biome with id `a` straight to one with id `b`. */
  ghost predicate ClearRouteUses(paths: seq<ToggleablePath>, blacklist: seq<Id>, a: Id, b: Id)
  {
    exists k, i :: UsesPair(paths, k, i, a, b) && Clear(paths[k].path, blacklist)
  }

  /**
   * After the blacklist, the edge from `a` to `b` is drawn enabled exactly
   * when some route avoiding every blacklisted biome takes it.
   */
  lemma EdgeEnabledIffClearRouteUsesIt(allBiomes: seq<Biome>, paths: seq<ToggleablePath>, blacklist: seq<Id>,
                                       j: nat, a: Id, b: Id)
    requires RowsNonDecreasing(paths)
    requires RowsNonDecreasing(Filtered(paths, blacklist))
    requires j < |ReduceRoutes(allBiomes, Filtered(paths, blacklist)).edges|
    requires ReduceRoutes(allBiomes, Filtered(paths, blacklist)).edges[j].id == EdgeId(a, b)
    ensures ReduceRoutes(allBiomes, Filtered(paths, blacklist)).edges[j].enabled
            <==> ClearRouteUses(paths, blacklist, a, b)
  {
    var f := Filtered(paths, blacklist);
    EdgeEnabledIffEnabledRouteUsesIt(allBiomes, f, j, a, b);
    if EnabledRouteUses(f, a, b) {
      var k, i :| UsesPair(f, k, i, a, b) && f[k].enabled;
      assert UsesPair(paths, k, i, a, b) && Clear(paths[k].path, blacklist);
    }
    if ClearRouteUses(paths, blacklist, a, b) {
      var k, i :| UsesPair(paths, k, i, a, b) && Clear(paths[k].path, blacklist);
      assert UsesPair(f, k, i, a, b) && f[k].enabled;
    }
  }

  /** After the blacklist, every pair of consecutive biomes on an input route has an edge, and only one. */
  lemma FilteredPairHasOneEdge(allBiomes: seq<Biome>, paths: seq<ToggleablePath>, blacklist: seq<Id>, k: nat, i: nat)
    requires RowsNonDecreasing(paths) && OnRoute(paths, k, i)
    ensures RowsNonDecreasing(Filtered(paths, blacklist))
    ensures var edges := ReduceRoutes(allBiomes, Filtered(paths, blacklist)).edges;
      PairId(paths, k, i) in EdgeIds(edges) && Distinct(EdgeIds(edges))
  {
    var f := Filtered(paths, blacklist);
    FilteredKeepsRows(paths, blacklist);
    assert OnRoute(f, k, i) && PairId(f, k, i) == PairId(paths, k, i);
    EveryTraversedPairHasOneEdge(allBiomes, f, k, i);
  }

  /** After the blacklist, every edge is a pair of consecutive biomes on some input route. */
  lemma FilteredEdgeIsATraversedPair(allBiomes: seq<Biome>, paths: seq<ToggleablePath>, blacklist: seq<Id>, j: nat)
    requires RowsNonDecreasing(paths) && RowsNonDecreasing(Filtered(paths, blacklist))
    requires j < |ReduceRoutes(allBiomes, Filtered(paths, blacklist)).edges|
    ensures var edges := ReduceRoutes(allBiomes, Filtered(paths, blacklist)).edges;
      exists k, i :: OnRoute(paths, k, i) && PairId(paths, k, i) == edges[j].id
  {
    var f := Filtered(paths, blacklist);
    EveryEdgeIsATraversedPair(allBiomes, f, j);
    var k, i :| OnRoute(f, k, i) && PairId(f, k, i) == ReduceRoutes(allBiomes, f).edges[j].id;
    assert OnRoute(paths, k, i) && PairId(paths, k, i) == PairId(f, k, i);
  }
}
