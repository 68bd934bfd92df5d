/**
 * The edge reducer: folds the filtered routes into drawable edges, one per
 * distinct pair of consecutive biomes, and tracks which biomes are reachable.
 */
module PathReduce {
  import opened Wrappers
  import opened Models
  import opened PathFind

  /** A drawable edge with its layout fields. */
  datatype RenderablePath = RenderablePath(
    id: string, startColumn: U8, startColumns: U8, endColumn: U8, endColumns: U8,
    row: U8, length: U8, enabled: bool)

  /** Rust's `as u8` on an unsigned value: it keeps the low eight bits. */
  function AsU8(n: nat): (r: U8)
    ensures n < 256 ==> r == n
  {
    n % 256
  }

  /** `calc_columns`: the number of biomes in `row`. */
  function CalcColumns(biomes: seq<Biome>, row: nat): (r: nat)
    ensures r <= |biomes|
    ensures (exists b :: b in biomes && b.row == row) <==> r > 0
  {
    if biomes == [] then 0
    else (if biomes[0].row == row then 1 else 0) + CalcColumns(biomes[1..], row)
  }

  /** The count of a row is additive over concatenated biome lists. */
  lemma {:induction false} CalcColumnsAppend(xs: seq<Biome>, ys: seq<Biome>, row: nat)
    ensures CalcColumns(xs + ys, row) == CalcColumns(xs, row) + CalcColumns(ys, row)
  {
    if xs == [] {
      assert xs + ys == ys;
    } else {
      assert (xs + ys)[1..] == xs[1..] + ys;
      CalcColumnsAppend(xs[1..], ys, row);
    }
  }

  /** `calc_length`: the number of rows an edge spans, as a `u8`. */
  function CalcLength(start: Biome, end: Biome): (r: U8)
    requires start.row <= end.row
    ensures end.row - start.row < 256 ==> start.row + r == end.row
  {
    AsU8(end.row - start.row)
  }

  /** The id of the edge from `a` to `b`: both lower-cased names joined by a dash. */
  function EdgeId(a: Id, b: Id): string
  {
    Lower(Display(a)) + "-" + Lower(Display(b))
  }

  /** An edge id is the two serde names joined by a dash, the names the front end knows the biomes by. */
  lemma EdgeIdIsSerdeNames(a: Id, b: Id)
    ensures EdgeId(a, b) == SerdeName(a) + "-" + SerdeName(b)
  {
    DisplayLowerIsSerdeName(a);
    DisplayLowerIsSerdeName(b);
  }

  /** Two strings without a dash are recovered from their dash-joined concatenation. */
  lemma {:induction false} DashJoinInjective(a: string, b: string, c: string, d: string)
    requires '-' !in a && '-' !in c
    requires a + "-" + b == c + "-" + d
    ensures a == c && b == d
  {
    var l, r := a + "-" + b, c + "-" + d;
    DashPosition(a, b);
    DashPosition(c, d);
    assert a == l[..|a|] && c == r[..|c|];
    assert b == l[|a| + 1..] && d == r[|c| + 1..];
  }

  /** The position of the first dash in `s`, or `|s|` when there is none. */
  function FirstDash(s: string): (r: nat)
    ensures r <= |s|
  {
    if s == [] || s[0] == '-' then 0 else 1 + FirstDash(s[1..])
  }

  lemma {:induction false} DashPosition(a: string, b: string)
    requires '-' !in a
    ensures FirstDash(a + "-" + b) == |a|
  {
    if a != [] {
      assert (a + "-" + b)[1..] == a[1..] + "-" + b;
      DashPosition(a[1..], b);
    }
  }

  /** An edge id names exactly one ordered pair of biome ids. */
  lemma EdgeIdInjective(a: Id, b: Id, c: Id, d: Id)
    ensures EdgeId(a, b) == EdgeId(c, d) <==> a == c && b == d
  {
    if EdgeId(a, b) == EdgeId(c, d) {
      SerdeNameHasNoDash(a);
      SerdeNameHasNoDash(c);
      DashJoinInjective(Lower(Display(a)), Lower(Display(b)), Lower(Display(c)), Lower(Display(d)));
      SerdeNameInjective(a, c);
      SerdeNameInjective(b, d);
    }
  }

  /** One traversal of a pair of consecutive biomes by a route with flag `enabled`. */
  datatype Traversal = Traversal(start: Biome, end: Biome, enabled: bool)

  function StepId(s: Traversal): string
  {
    EdgeId(s.start.id, s.end.id)
  }

  /** The consecutive pairs of one route, in route order. */
  function PathSteps(p: ToggleablePath): (r: seq<Traversal>)
    ensures |p.path| < 2 ==> r == []
    ensures |p.path| >= 2 ==> |r| == |p.path| - 1
    ensures forall i :: 0 <= i < |r| ==> r[i] == Traversal(p.path[i], p.path[i + 1], p.enabled)
  {
    if |p.path| < 2 then []
    else seq(|p.path| - 1, i requires 0 <= i < |p.path| - 1 => Traversal(p.path[i], p.path[i + 1], p.enabled))
  }

  /** The consecutive pairs of all routes, route after route: the order the reducer visits them. */
  function Steps(paths: seq<ToggleablePath>): seq<Traversal>
  {
    if paths == [] then [] else Steps(paths[..|paths| - 1]) + PathSteps(Last(paths))
  }

  /** Route `k` goes from its `i`-th biome to its next one, and `s` records that. */
  predicate Traverses(paths: seq<ToggleablePath>, k: int, i: int, s: Traversal)
  {
    0 <= k < |paths| && 0 <= i < |paths[k].path| - 1
    && s == Traversal(paths[k].path[i], paths[k].path[i + 1], paths[k].enabled)
  }

  /** The steps are exactly the consecutive pairs of the routes, each with its route's flag. */
  lemma {:induction false} StepsAreConsecutivePairs(paths: seq<ToggleablePath>, s: Traversal)
    ensures s in Steps(paths) <==> exists k, i :: Traverses(paths, k, i, s)
  {
    if paths != [] {
      var init := paths[..|paths| - 1];
      var p := Last(paths);
      assert Steps(paths) == Steps(init) + PathSteps(p);
      StepsAreConsecutivePairs(init, s);
      if s in Steps(paths) {
        if s in Steps(init) {
          var k, i :| Traverses(init, k, i, s);
          assert init[k] == paths[k];
          assert Traverses(paths, k, i, s);
        } else {
          var i :| 0 <= i < |PathSteps(p)| && PathSteps(p)[i] == s;
          assert Traverses(paths, |paths| - 1, i, s);
        }
      }
      if exists k, i :: Traverses(paths, k, i, s) {
        var k, i :| Traverses(paths, k, i, s);
        if k < |paths| - 1 {
          assert init[k] == paths[k];
          assert Traverses(init, k, i, s);
        } else {
          assert PathSteps(p)[i] == s;
        }
      }
    }
  }

  /** Rows never decrease along a step, so `calc_length` does not underflow. */
  predicate Climbs(s: Traversal)
  {
    s.start.row <= s.end.row
  }

  predicate AllClimb(steps: seq<Traversal>)
  {
    forall k :: 0 <= k < |steps| ==> Climbs(steps[k])
  }

  /** What the reducer demands of its input: rows never decrease along a route. */
  predicate RowsNonDecreasing(paths: seq<ToggleablePath>)
  {
    forall k, i :: 0 <= k < |paths| && 0 <= i < |paths[k].path| - 1
      ==> paths[k].path[i].row <= paths[k].path[i + 1].row
  }

  lemma {:induction false} StepsClimb(paths: seq<ToggleablePath>)
    requires RowsNonDecreasing(paths)
    ensures AllClimb(Steps(paths))
  {
    forall k | 0 <= k < |Steps(paths)|
      ensures Climbs(Steps(paths)[k])
    {
      var s := Steps(paths)[k];
      StepsAreConsecutivePairs(paths, s);
    }
  }

  /** The drawable edge built for one step, with the layout fields of the graph. */
  function Render(all: seq<Biome>, s: Traversal): (e: RenderablePath)
    requires Climbs(s)
    ensures e.id == StepId(s) && e.enabled == s.enabled
  {
    RenderablePath(
      StepId(s),
      AsU8(s.start.column), AsU8(CalcColumns(all, s.start.row)),
      AsU8(s.end.column), AsU8(CalcColumns(all, s.end.row)),
      AsU8(s.start.row), CalcLength(s.start, s.end), s.enabled)
  }

  /** The layout fields of an edge: everything but its flag. */
  function Layout(e: RenderablePath): RenderablePath
  {
    e.(enabled := false)
  }

  /** The reducer's state: the edges so far and the reachable biomes so far. */
  datatype Reduction = Reduction(edges: seq<RenderablePath>, reachable: seq<Id>)

  /** No edges yet; the first biome, if there is one, is reachable. */
  function Initial(all: seq<Biome>): Reduction
  {
    Reduction([], if |all| > 0 then [all[0].id] else [])
  }

  /** The position of the first edge with the given id, as the `find` in the reducer. */
  function FindEdge(edges: seq<RenderablePath>, id: string): (r: Option<nat>)
    ensures r.Some? ==> r.value < |edges| && edges[r.value].id == id
    ensures r.Some? ==> forall j :: 0 <= j < r.value ==> edges[j].id != id
    ensures r.None? ==> forall j :: 0 <= j < |edges| ==> edges[j].id != id
  {
    if edges == [] then None
    else if edges[0].id == id then Some(0)
    else match FindEdge(edges[1..], id)
      case None => None
      case Some(k) => Some(k + 1)
  }

  /**
   * One iteration of the reducer: a step whose id is new appends its edge;
   * a step whose id is known and whose route is enabled switches that edge on
   * and marks the step's end biome reachable.
   */
  function Absorb(all: seq<Biome>, st: Reduction, s: Traversal): (r: Reduction)
    requires Climbs(s)
    ensures |st.edges| <= |r.edges| <= |st.edges| + 1 && st.reachable <= r.reachable
  {
    var e := Render(all, s);
    match FindEdge(st.edges, e.id)
    case Some(i) =>
      if s.enabled then
        Reduction(st.edges[i := st.edges[i].(enabled := true)],
                  if s.end.id in st.reachable then st.reachable else st.reachable + [s.end.id])
      else st
    case None => Reduction(st.edges + [e], st.reachable)
  }

  /** The reducer's state after visiting `steps` in order. */
  function Reduce(all: seq<Biome>, steps: seq<Traversal>): Reduction
    requires AllClimb(steps)
  {
    if steps == [] then Initial(all)
    else Absorb(all, Reduce(all, steps[..|steps| - 1]), Last(steps))
  }

  /** The reducer's result on whole routes. */
  function ReduceRoutes(all: seq<Biome>, paths: seq<ToggleablePath>): Reduction
    requires RowsNonDecreasing(paths)
  {
    StepsClimb(paths);
    Reduce(all, Steps(paths))
  }

  /** A step never switches an edge off, never removes or reorders edges, and never changes their layout. */
  lemma AbsorbIsMonotone(all: seq<Biome>, st: Reduction, s: Traversal)
    requires Climbs(s)
    ensures |st.edges| <= |Absorb(all, st, s).edges| <= |st.edges| + 1
    ensures forall j :: 0 <= j < |st.edges| ==>
      && Layout(Absorb(all, st, s).edges[j]) == Layout(st.edges[j])
      && (st.edges[j].enabled ==> Absorb(all, st, s).edges[j].enabled)
    ensures st.reachable <= Absorb(all, st, s).reachable
  {
  }

  /**
   * One iteration of the reducer's inner loop: look the edge up by id, switch
   * it on (and extend the reachable list) or append it.
   */
  method AbsorbStep(allBiomes: seq<Biome>, result: seq<RenderablePath>, reachableBiomes: seq<Id>,
                    startBiome: Biome, endBiome: Biome, enabled: bool)
    returns (result': seq<RenderablePath>, reachableBiomes': seq<Id>)
    requires startBiome.row <= endBiome.row
    ensures Reduction(result', reachableBiomes')
      == Absorb(allBiomes, Reduction(result, reachableBiomes), Traversal(startBiome, endBiome, enabled))
  {
    var newPath := RenderablePath(
      EdgeId(startBiome.id, endBiome.id),
      AsU8(startBiome.column), AsU8(CalcColumns(allBiomes, startBiome.row)),
      AsU8(endBiome.column), AsU8(CalcColumns(allBiomes, endBiome.row)),
      AsU8(startBiome.row), CalcLength(startBiome, endBiome), enabled);
    result', reachableBiomes' := result, reachableBiomes;
    var existing := FindEdge(result, newPath.id);
    match existing {
      case Some(index) =>
        if enabled {
          result' := result[index := result[index].(enabled := true)];
          if endBiome.id !in reachableBiomes {
            reachableBiomes' := reachableBiomes + [endBiome.id];
          }
        }
      case None =>
        result' := result + [newPath];
    }
  }

  /** The reducer's inner loop: visit the consecutive pairs of one route in order. */
  method AbsorbPath(allBiomes: seq<Biome>, result: seq<RenderablePath>, reachableBiomes: seq<Id>,
                    ghost done: seq<Traversal>, p: ToggleablePath)
    returns (result': seq<RenderablePath>, reachableBiomes': seq<Id>)
    requires AllClimb(done + PathSteps(p))
    requires AllClimb(done) && Reduction(result, reachableBiomes) == Reduce(allBiomes, done)
    ensures Reduction(result', reachableBiomes') == Reduce(allBiomes, done + PathSteps(p))
  {
    result', reachableBiomes' := result, reachableBiomes;
    assert done + PathSteps(p)[..0] == done;
    var i := 0;
    while i + 1 < |p.path|
      invariant 0 <= i <= |PathSteps(p)|
      invariant AllClimb(done + PathSteps(p)[..i])
      invariant Reduction(result', reachableBiomes') == Reduce(allBiomes, done + PathSteps(p)[..i])
    {
      ReduceExtend(allBiomes, done, PathSteps(p), i);
      result', reachableBiomes' := AbsorbStep(allBiomes, result', reachableBiomes', p.path[i], p.path[i + 1], p.enabled);
      i := i + 1;
    }
    assert PathSteps(p)[..i] == PathSteps(p);
  }

  /** `biomes_paths_to_paths`: fold every consecutive pair of every route into the edge list. */
  method BiomesPathsToPaths(allBiomes: seq<Biome>, paths: seq<ToggleablePath>)
    returns (result: seq<RenderablePath>, reachableBiomes: seq<Id>)
    requires RowsNonDecreasing(paths)
    ensures Reduction(result, reachableBiomes) == ReduceRoutes(allBiomes, paths)
  {
    result := [];
    reachableBiomes := if |allBiomes| > 0 then [allBiomes[0].id] else [];
    StepsClimb(paths);
    for k := 0 to |paths|
      invariant AllClimb(Steps(paths[..k]))
      invariant Reduction(result, reachableBiomes) == Reduce(allBiomes, Steps(paths[..k]))
    {
      PrefixStepsClimb(paths, k);
      result, reachableBiomes := AbsorbPath(allBiomes, result, reachableBiomes, Steps(paths[..k]), paths[k]);
    }
    assert paths[..|paths|] == paths;
  }

  /** The steps of the first `k + 1` routes are those of the first `k` and then the `k`-th route's. */
  lemma PrefixStepsClimb(paths: seq<ToggleablePath>, k: nat)
    requires RowsNonDecreasing(paths) && k < |paths|
    ensures Steps(paths[..k + 1]) == Steps(paths[..k]) + PathSteps(paths[k])
    ensures AllClimb(Steps(paths[..k + 1]))
    ensures AllClimb(Steps(paths[..k]) + PathSteps(paths[k]))
  {
    assert paths[..k + 1][..k] == paths[..k];
    assert RowsNonDecreasing(paths[..k + 1]);
    StepsClimb(paths[..k + 1]);
  }

  /** Visiting one more step of the current route is one more `Absorb`. */
  lemma ReduceExtend(all: seq<Biome>, done: seq<Traversal>, more: seq<Traversal>, i: nat)
    requires AllClimb(done + more) && i < |more|
    ensures AllClimb(done + more[..i]) && AllClimb(done + more[..i + 1])
    ensures Reduce(all, done + more[..i + 1]) == Absorb(all, Reduce(all, done + more[..i]), more[i])
  {
    var xs := done + more[..i];
    var ys := xs + [more[i]];
    assert more[..i + 1] == more[..i] + [more[i]];
    assert done + more[..i + 1] == ys;
    assert ys[..|ys| - 1] == xs;
    forall k | 0 <= k < |ys|
      ensures Climbs(ys[k])
    {
      if k < |done| {
        assert ys[k] == (done + more)[k];
      } else {
        assert ys[k] == more[k - |done|] == (done + more)[k];
      }
    }
  }
}
