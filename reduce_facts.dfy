/**
 * What the edge reducer computes, stated against the visited steps: one edge
 * per distinct step id, in order of first traversal and laid out by that first
 * traversal, enabled exactly when some enabled route traverses it; and the
 * reachable list of the first biome plus the end biomes of enabled re-traversals.
 */
module ReduceFacts {
  import opened Models
  import opened PathFind
  import opened PathReduce

  function StepIds(steps: seq<Traversal>): (r: seq<string>)
    ensures |r| == |steps|
    ensures forall k :: 0 <= k < |steps| ==> r[k] == StepId(steps[k])
  {
    seq(|steps|, k requires 0 <= k < |steps| => StepId(steps[k]))
  }

  function EdgeIds(edges: seq<RenderablePath>): (r: seq<string>)
    ensures |r| == |edges|
    ensures forall j :: 0 <= j < |edges| ==> r[j] == edges[j].id
  {
    seq(|edges|, j requires 0 <= j < |edges| => edges[j].id)
  }

  predicate Distinct<T(==)>(s: seq<T>)
  {
    forall i, j :: 0 <= i < j < |s| ==> s[i] != s[j]
  }

  /** The position of the first occurrence of `x` in `s`, or `|s|` when there is none. */
  function FirstIndex<T(==)>(s: seq<T>, x: T): (r: nat)
    ensures r <= |s|
    ensures r < |s| <==> x in s
    ensures r < |s| ==> s[r] == x
    ensures forall j :: 0 <= j < r ==> s[j] != x
  {
    if s == [] then 0 else if s[0] == x then 0 else 1 + FirstIndex(s[1..], x)
  }

  lemma FirstIndexSnoc<T>(s: seq<T>, y: T, x: T)
    ensures x in s ==> FirstIndex(s + [y], x) == FirstIndex(s, x)
    ensures x !in s && x == y ==> FirstIndex(s + [y], x) == |s|
  {
    var r, r' := FirstIndex(s, x), FirstIndex(s + [y], x);
    if x in s {
      assert (s + [y])[r] == x;
    } else if x == y {
      assert (s + [y])[|s|] == x;
    }
  }

  /** Some enabled route traverses a step with id `id`. */
  predicate EnabledSomewhere(steps: seq<Traversal>, id: string)
  {
    exists k :: 0 <= k < |steps| && steps[k].enabled && StepId(steps[k]) == id
  }

  /** Traversal `k` belongs to an enabled route and its id was already seen before it. */
  predicate Retraversal(steps: seq<Traversal>, k: int)
  {
    0 <= k < |steps| && steps[k].enabled && exists m :: 0 <= m < k && StepId(steps[m]) == StepId(steps[k])
  }

  /** Every visited step id has an edge, and every edge id was visited. */
  ghost predicate EdgesCover(steps: seq<Traversal>, edges: seq<RenderablePath>)
  {
    forall x :: x in EdgeIds(edges) <==> x in StepIds(steps)
  }

  /** Edges appear in the order their ids were first visited, so no id repeats. */
  predicate EdgesInFirstOrder(steps: seq<Traversal>, edges: seq<RenderablePath>)
  {
    forall i, j :: 0 <= i < j < |edges| ==>
      FirstIndex(StepIds(steps), edges[i].id) < FirstIndex(StepIds(steps), edges[j].id)
  }

  /** Each edge carries the layout of the first step with its id. */
  predicate EdgesLaidOutAtFirst(all: seq<Biome>, steps: seq<Traversal>, edges: seq<RenderablePath>)
    requires AllClimb(steps)
  {
    forall j :: 0 <= j < |edges| ==>
      FirstIndex(StepIds(steps), edges[j].id) < |steps|
      && Layout(edges[j]) == Layout(Render(all, steps[FirstIndex(StepIds(steps), edges[j].id)]))
  }

  /** An edge is enabled exactly when some enabled route traverses it. */
  predicate EdgesEnabledIff(steps: seq<Traversal>, edges: seq<RenderablePath>)
  {
    forall j :: 0 <= j < |edges| ==> (edges[j].enabled <==> EnabledSomewhere(steps, edges[j].id))
  }

  /** An end biome of an enabled re-traversal. */
  ghost predicate ReachedOnRetraversal(steps: seq<Traversal>, x: Id)
  {
    exists k :: Retraversal(steps, k) && steps[k].end.id == x
  }

  /**
   * The reachable list has no duplicates, starts with the first biome, and holds
   * exactly that biome and the end biomes of enabled re-traversals.
   */
  ghost predicate ReachableExactly(all: seq<Biome>, steps: seq<Traversal>, reachable: seq<Id>)
  {
    && Distinct(reachable)
    && (|all| > 0 ==> |reachable| > 0 && reachable[0] == all[0].id)
    && forall x :: x in reachable <==> ((|all| > 0 && x == all[0].id) || ReachedOnRetraversal(steps, x))
  }

  ghost predicate Summarizes(all: seq<Biome>, steps: seq<Traversal>, st: Reduction)
    requires AllClimb(steps)
  {
    && EdgesCover(steps, st.edges)
    && EdgesInFirstOrder(steps, st.edges)
    && EdgesLaidOutAtFirst(all, steps, st.edges)
    && EdgesEnabledIff(steps, st.edges)
    && ReachableExactly(all, steps, st.reachable)
  }

  /** Edges in first-visit order have distinct ids. */
  lemma FirstOrderIsDistinct(steps: seq<Traversal>, edges: seq<RenderablePath>)
    requires EdgesInFirstOrder(steps, edges)
    ensures Distinct(EdgeIds(edges))
  {
    forall i, j | 0 <= i < j < |edges|
      ensures edges[i].id != edges[j].id
    {
      assert FirstIndex(StepIds(steps), edges[i].id) < FirstIndex(StepIds(steps), edges[j].id);
    }
  }

  lemma SnocIds(steps: seq<Traversal>, s: Traversal)
    ensures StepIds(steps + [s]) == StepIds(steps) + [StepId(s)]
  {
  }

  lemma SnocEnabled(steps: seq<Traversal>, s: Traversal, x: string)
    ensures EnabledSomewhere(steps + [s], x) <==> EnabledSomewhere(steps, x) || (s.enabled && StepId(s) == x)
  {
    var t := steps + [s];
    if EnabledSomewhere(t, x) {
      var k :| 0 <= k < |t| && t[k].enabled && StepId(t[k]) == x;
      if k < |steps| {
        assert steps[k] == t[k];
      }
    }
    if EnabledSomewhere(steps, x) {
      var k :| 0 <= k < |steps| && steps[k].enabled && StepId(steps[k]) == x;
      assert t[k] == steps[k];
    }
    if s.enabled && StepId(s) == x {
      assert t[|steps|] == s;
    }
  }

  lemma SnocRetraversal(steps: seq<Traversal>, s: Traversal, k: int)
    ensures 0 <= k < |steps| ==> (Retraversal(steps + [s], k) <==> Retraversal(steps, k))
    ensures k == |steps| ==> (Retraversal(steps + [s], k) <==> s.enabled && StepId(s) in StepIds(steps))
  {
    var t := steps + [s];
    assert forall m :: 0 <= m < |steps| ==> t[m] == steps[m];
    if k == |steps| && s.enabled && StepId(s) in StepIds(steps) {
      var m :| 0 <= m < |steps| && StepIds(steps)[m] == StepId(s);
      assert StepId(t[m]) == StepId(t[|steps|]);
    }
  }

  lemma SnocReached(steps: seq<Traversal>, s: Traversal, x: Id)
    ensures ReachedOnRetraversal(steps + [s], x) <==>
      ReachedOnRetraversal(steps, x) || (Retraversal(steps + [s], |steps|) && s.end.id == x)
  {
    var t := steps + [s];
    if ReachedOnRetraversal(t, x) {
      var k :| Retraversal(t, k) && t[k].end.id == x;
      SnocRetraversal(steps, s, k);
      if k < |steps| {
        assert t[k] == steps[k];
        assert Retraversal(steps, k) && steps[k].end.id == x;
      }
    }
    if ReachedOnRetraversal(steps, x) {
      var k :| Retraversal(steps, k) && steps[k].end.id == x;
      SnocRetraversal(steps, s, k);
      assert t[k] == steps[k];
      assert Retraversal(t, k) && t[k].end.id == x;
    }
  }

  /** The three shapes of one `Absorb`, decided by whether the step's id is already covered. */
  lemma AbsorbShape(all: seq<Biome>, steps: seq<Traversal>, s: Traversal, st: Reduction) returns (i: nat)
    requires Climbs(s) && EdgesCover(steps, st.edges)
    ensures StepId(s) !in StepIds(steps) ==> Absorb(all, st, s) == Reduction(st.edges + [Render(all, s)], st.reachable)
    ensures StepId(s) in StepIds(steps) ==> i < |st.edges| && st.edges[i].id == StepId(s)
    ensures StepId(s) in StepIds(steps) && s.enabled ==>
      Absorb(all, st, s) == Reduction(st.edges[i := st.edges[i].(enabled := true)],
                                      if s.end.id in st.reachable then st.reachable else st.reachable + [s.end.id])
    ensures StepId(s) in StepIds(steps) && !s.enabled ==> Absorb(all, st, s) == st
  {
    i := 0;
    var id := StepId(s);
    if id in StepIds(steps) {
      assert id in EdgeIds(st.edges);
      var j :| 0 <= j < |st.edges| && EdgeIds(st.edges)[j] == id;
      i := FindEdge(st.edges, id).value;
    }
  }

  lemma AbsorbCover(all: seq<Biome>, steps: seq<Traversal>, s: Traversal, st: Reduction)
    requires Climbs(s) && EdgesCover(steps, st.edges)
    ensures EdgesCover(steps + [s], Absorb(all, st, s).edges)
  {
    var i := AbsorbShape(all, steps, s, st);
    SnocIds(steps, s);
    var edges' := Absorb(all, st, s).edges;
    if StepId(s) !in StepIds(steps) {
      assert EdgeIds(edges') == EdgeIds(st.edges) + [StepId(s)];
    } else {
      assert EdgeIds(edges') == EdgeIds(st.edges);
    }
  }

  /** Appending a step keeps the first-visit position of every id already covered. */
  lemma FirstIndexKept(steps: seq<Traversal>, s: Traversal, edges: seq<RenderablePath>)
    requires EdgesCover(steps, edges)
    ensures forall j :: 0 <= j < |edges| ==>
      FirstIndex(StepIds(steps + [s]), edges[j].id) == FirstIndex(StepIds(steps), edges[j].id) < |steps|
  {
    SnocIds(steps, s);
    forall j | 0 <= j < |edges|
      ensures FirstIndex(StepIds(steps + [s]), edges[j].id) == FirstIndex(StepIds(steps), edges[j].id) < |steps|
    {
      assert edges[j].id in EdgeIds(edges);
      FirstIndexSnoc(StepIds(steps), StepId(s), edges[j].id);
    }
  }

  /**
   * Appending a value that is new keeps a list of values in first-occurrence
   * order; stated over any type, so that no property of the ids is needed.
   */
  lemma FirstOrderAppend<T>(ids: seq<T>, x: T, olds: seq<T>)
    requires x !in ids
    requires forall j :: 0 <= j < |olds| ==> olds[j] in ids
    requires forall a, b :: 0 <= a < b < |olds| ==> FirstIndex(ids, olds[a]) < FirstIndex(ids, olds[b])
    ensures forall a, b :: 0 <= a < b < |olds| + 1 ==>
      FirstIndex(ids + [x], (olds + [x])[a]) < FirstIndex(ids + [x], (olds + [x])[b])
  {
    FirstIndexSnoc(ids, x, x);
    forall a, b | 0 <= a < b < |olds| + 1
      ensures FirstIndex(ids + [x], (olds + [x])[a]) < FirstIndex(ids + [x], (olds + [x])[b])
    {
      FirstIndexSnoc(ids, x, olds[a]);
      if b < |olds| {
        FirstIndexSnoc(ids, x, olds[b]);
      }
    }
  }

  lemma AbsorbFirstOrderNew(all: seq<Biome>, steps: seq<Traversal>, s: Traversal, st: Reduction)
    requires Climbs(s) && EdgesCover(steps, st.edges) && EdgesInFirstOrder(steps, st.edges)
    requires StepId(s) !in StepIds(steps)
    ensures EdgesInFirstOrder(steps + [s], st.edges + [Render(all, s)])
  {
    SnocIds(steps, s);
    var ids, olds, edges' := StepIds(steps), EdgeIds(st.edges), st.edges + [Render(all, s)];
    forall j | 0 <= j < |olds|
      ensures olds[j] in ids
    {
      assert olds[j] in EdgeIds(st.edges);
    }
    FirstOrderAppend(ids, StepId(s), olds);
    forall a, b | 0 <= a < b < |edges'|
      ensures FirstIndex(StepIds(steps + [s]), edges'[a].id) < FirstIndex(StepIds(steps + [s]), edges'[b].id)
    {
      assert edges'[a].id == (olds + [StepId(s)])[a];
      assert edges'[b].id == (olds + [StepId(s)])[b];
    }
  }

  lemma AbsorbFirstOrder(all: seq<Biome>, steps: seq<Traversal>, s: Traversal, st: Reduction)
    requires Climbs(s) && EdgesCover(steps, st.edges) && EdgesInFirstOrder(steps, st.edges)
    ensures EdgesInFirstOrder(steps + [s], Absorb(all, st, s).edges)
  {
    var i := AbsorbShape(all, steps, s, st);
    if StepId(s) !in StepIds(steps) {
      AbsorbFirstOrderNew(all, steps, s, st);
    } else {
      FirstIndexKept(steps, s, st.edges);
      var ids', edges' := StepIds(steps + [s]), Absorb(all, st, s).edges;
      forall a, b | 0 <= a < b < |edges'|
        ensures FirstIndex(ids', edges'[a].id) < FirstIndex(ids', edges'[b].id)
      {
        assert edges'[a].id == st.edges[a].id && edges'[b].id == st.edges[b].id;
      }
    }
  }

  /** An edge already recorded keeps its layout and its first-visit step. */
  lemma AbsorbLayoutKept(all: seq<Biome>, steps: seq<Traversal>, s: Traversal, st: Reduction, j: nat)
    requires Climbs(s) && AllClimb(steps) && AllClimb(steps + [s])
    requires EdgesCover(steps, st.edges) && EdgesLaidOutAtFirst(all, steps, st.edges)
    requires j < |st.edges|
    ensures j < |Absorb(all, st, s).edges|
    ensures var t, e := steps + [s], Absorb(all, st, s).edges[j];
      FirstIndex(StepIds(t), e.id) < |t| && Layout(e) == Layout(Render(all, t[FirstIndex(StepIds(t), e.id)]))
  {
    var i := AbsorbShape(all, steps, s, st);
    FirstIndexKept(steps, s, st.edges);
    var t, ids, e := steps + [s], StepIds(steps), Absorb(all, st, s).edges[j];
    assert Layout(e) == Layout(st.edges[j]) && e.id == st.edges[j].id;
    assert t[FirstIndex(ids, st.edges[j].id)] == steps[FirstIndex(ids, st.edges[j].id)];
  }

  /** A new edge is laid out by the step that created it, its first visit. */
  lemma AbsorbLayoutNew(all: seq<Biome>, steps: seq<Traversal>, s: Traversal, st: Reduction)
    requires Climbs(s) && AllClimb(steps) && AllClimb(steps + [s])
    requires EdgesCover(steps, st.edges) && StepId(s) !in StepIds(steps)
    ensures var t, edges' := steps + [s], Absorb(all, st, s).edges;
      |edges'| == |st.edges| + 1
      && FirstIndex(StepIds(t), edges'[|st.edges|].id) < |t|
      && Layout(edges'[|st.edges|]) == Layout(Render(all, t[FirstIndex(StepIds(t), edges'[|st.edges|].id)]))
  {
    var i := AbsorbShape(all, steps, s, st);
    SnocIds(steps, s);
    FirstIndexSnoc(StepIds(steps), StepId(s), StepId(s));
    var t := steps + [s];
    assert t[|steps|] == s;
  }

  lemma AbsorbLayout(all: seq<Biome>, steps: seq<Traversal>, s: Traversal, st: Reduction)
    requires Climbs(s) && AllClimb(steps) && AllClimb(steps + [s])
    requires EdgesCover(steps, st.edges) && EdgesInFirstOrder(steps, st.edges)
    requires EdgesLaidOutAtFirst(all, steps, st.edges)
    ensures EdgesLaidOutAtFirst(all, steps + [s], Absorb(all, st, s).edges)
  {
    var i := AbsorbShape(all, steps, s, st);
    var t, edges' := steps + [s], Absorb(all, st, s).edges;
    forall j | 0 <= j < |edges'|
      ensures FirstIndex(StepIds(t), edges'[j].id) < |t|
      ensures Layout(edges'[j]) == Layout(Render(all, t[FirstIndex(StepIds(t), edges'[j].id)]))
    {
      if j < |st.edges| {
        AbsorbLayoutKept(all, steps, s, st, j);
      } else {
        AbsorbLayoutNew(all, steps, s, st);
      }
    }
  }

  lemma AbsorbEnabled(all: seq<Biome>, steps: seq<Traversal>, s: Traversal, st: Reduction)
    requires Climbs(s) && EdgesCover(steps, st.edges) && EdgesInFirstOrder(steps, st.edges)
    requires EdgesEnabledIff(steps, st.edges)
    ensures EdgesEnabledIff(steps + [s], Absorb(all, st, s).edges)
  {
    var i := AbsorbShape(all, steps, s, st);
    FirstOrderIsDistinct(steps, st.edges);
    var t, ids, edges' := steps + [s], StepIds(steps), Absorb(all, st, s).edges;
    forall j | 0 <= j < |edges'|
      ensures edges'[j].enabled <==> EnabledSomewhere(t, edges'[j].id)
    {
      SnocEnabled(steps, s, edges'[j].id);
      if j < |st.edges| {
        assert st.edges[j].id in EdgeIds(st.edges);
        if StepId(s) in ids && j != i {
          assert EdgeIds(st.edges)[j] != EdgeIds(st.edges)[i];
        }
      } else if EnabledSomewhere(steps, StepId(s)) {
        var k :| 0 <= k < |steps| && steps[k].enabled && StepId(steps[k]) == StepId(s);
        assert ids[k] == StepId(s);
      }
    }
  }

  lemma AbsorbReachable(all: seq<Biome>, steps: seq<Traversal>, s: Traversal, st: Reduction)
    requires Climbs(s) && EdgesCover(steps, st.edges)
    requires ReachableExactly(all, steps, st.reachable)
    ensures ReachableExactly(all, steps + [s], Absorb(all, st, s).reachable)
  {
    var i := AbsorbShape(all, steps, s, st);
    SnocRetraversal(steps, s, |steps|);
    var r' := Absorb(all, st, s).reachable;
    assert st.reachable <= r';
    forall x
      ensures x in r' <==> ((|all| > 0 && x == all[0].id) || ReachedOnRetraversal(steps + [s], x))
    {
      SnocReached(steps, s, x);
    }
  }

  /** One `Absorb` keeps the summary true of one more step. */
  lemma AbsorbPreserves(all: seq<Biome>, steps: seq<Traversal>, s: Traversal, st: Reduction)
    requires AllClimb(steps) && Climbs(s) && AllClimb(steps + [s])
    requires Summarizes(all, steps, st)
    ensures Summarizes(all, steps + [s], Absorb(all, st, s))
  {
    AbsorbCover(all, steps, s, st);
    AbsorbFirstOrder(all, steps, s, st);
    AbsorbLayout(all, steps, s, st);
    AbsorbEnabled(all, steps, s, st);
    AbsorbReachable(all, steps, s, st);
  }

  /** The fold's result is summarized by the visited steps. */
  lemma {:induction false} ReduceSummarizes(all: seq<Biome>, steps: seq<Traversal>)
    requires AllClimb(steps)
    ensures Summarizes(all, steps, Reduce(all, steps))
  {
    if steps == [] {
      var st := Initial(all);
      forall x
        ensures x in st.reachable <==> ((|all| > 0 && x == all[0].id) || ReachedOnRetraversal(steps, x))
      {
      }
    } else {
      var init, s := steps[..|steps| - 1], Last(steps);
      assert steps == init + [s];
      assert forall k :: 0 <= k < |init| ==> init[k] == steps[k];
      ReduceSummarizes(all, init);
      AbsorbPreserves(all, init, s, Reduce(all, init));
    }
  }

  /** Route `k` goes from a biome with id `a` straight to one with id `b`. */
  predicate UsesPair(paths: seq<ToggleablePath>, k: int, i: int, a: Id, b: Id)
  {
    OnRoute(paths, k, i) && paths[k].path[i].id == a && paths[k].path[i + 1].id == b
  }

  /** `i` is the position of a pair of consecutive biomes of route `k`. */
  predicate OnRoute(paths: seq<ToggleablePath>, k: int, i: int)
  {
    0 <= k < |paths| && 0 <= i < |paths[k].path| - 1
  }

  /** The edge id of the pair at position `i` of route `k`. */
  function PairId(paths: seq<ToggleablePath>, k: int, i: int): string
    requires OnRoute(paths, k, i)
  {
    EdgeId(paths[k].path[i].id, paths[k].path[i + 1].id)
  }

  /** On routes: the summary holds of the reducer's result. */
  lemma RoutesSummarized(all: seq<Biome>, paths: seq<ToggleablePath>)
    requires RowsNonDecreasing(paths)
    ensures AllClimb(Steps(paths)) && Summarizes(all, Steps(paths), ReduceRoutes(all, paths))
  {
    StepsClimb(paths);
    ReduceSummarizes(all, Steps(paths));
  }

  lemma RoutesEnabledIff(all: seq<Biome>, paths: seq<ToggleablePath>)
    requires RowsNonDecreasing(paths)
    ensures EdgesEnabledIff(Steps(paths), ReduceRoutes(all, paths).edges)
  {
    RoutesSummarized(all, paths);
  }

  /** Every pair of consecutive biomes on a route has an edge, and only one. */
  lemma EveryTraversedPairHasOneEdge(all: seq<Biome>, paths: seq<ToggleablePath>, k: nat, i: nat)
    requires RowsNonDecreasing(paths) && OnRoute(paths, k, i)
    ensures PairId(paths, k, i) in EdgeIds(ReduceRoutes(all, paths).edges)
    ensures Distinct(EdgeIds(ReduceRoutes(all, paths).edges))
  {
    RoutesSummarized(all, paths);
    var st, s := ReduceRoutes(all, paths), Traversal(paths[k].path[i], paths[k].path[i + 1], paths[k].enabled);
    assert Traverses(paths, k, i, s);
    StepsAreConsecutivePairs(paths, s);
    var m :| 0 <= m < |Steps(paths)| && Steps(paths)[m] == s;
    assert StepIds(Steps(paths))[m] == StepId(s);
    FirstOrderIsDistinct(Steps(paths), st.edges);
  }

  /** Every edge is the pair of consecutive biomes of some route. */
  lemma EveryEdgeIsATraversedPair(all: seq<Biome>, paths: seq<ToggleablePath>, j: nat)
    requires RowsNonDecreasing(paths) && j < |ReduceRoutes(all, paths).edges|
    ensures exists k, i :: OnRoute(paths, k, i) && PairId(paths, k, i) == ReduceRoutes(all, paths).edges[j].id
  {
    RoutesSummarized(all, paths);
    var st, steps := ReduceRoutes(all, paths), Steps(paths);
    assert st.edges[j].id in EdgeIds(st.edges);
    var m :| 0 <= m < |steps| && StepIds(steps)[m] == st.edges[j].id;
    StepsAreConsecutivePairs(paths, steps[m]);
    var k, i :| Traverses(paths, k, i, steps[m]);
    assert OnRoute(paths, k, i) && PairId(paths, k, i) == st.edges[j].id;
  }

  /** Some enabled route goes from a biome with id `a` straight to one with id `b`. */
  ghost predicate EnabledRouteUses(paths: seq<ToggleablePath>, a: Id, b: Id)
  {
    exists k, i :: UsesPair(paths, k, i, a, b) && paths[k].enabled
  }

  /** An enabled step with the edge id of `a`-`b` comes from an enabled route going from `a` to `b`. */
  lemma EnabledStepIsEnabledRoute(paths: seq<ToggleablePath>, a: Id, b: Id)
    requires EnabledSomewhere(Steps(paths), EdgeId(a, b))
    ensures EnabledRouteUses(paths, a, b)
  {
    var steps := Steps(paths);
    var m :| 0 <= m < |steps| && steps[m].enabled && StepId(steps[m]) == EdgeId(a, b);
    var s := steps[m];
    StepsAreConsecutivePairs(paths, s);
    var k, i :| Traverses(paths, k, i, s);
    EdgeIdInjective(s.start.id, s.end.id, a, b);
    assert UsesPair(paths, k, i, a, b) && paths[k].enabled;
  }

  /** An enabled route going from `a` to `b` yields an enabled step with the edge id of `a`-`b`. */
  lemma EnabledRouteIsEnabledStep(paths: seq<ToggleablePath>, a: Id, b: Id)
    requires EnabledRouteUses(paths, a, b)
    ensures EnabledSomewhere(Steps(paths), EdgeId(a, b))
  {
    var steps := Steps(paths);
    var k, i :| UsesPair(paths, k, i, a, b) && paths[k].enabled;
    var s := Traversal(paths[k].path[i], paths[k].path[i + 1], paths[k].enabled);
    assert Traverses(paths, k, i, s);
    StepsAreConsecutivePairs(paths, s);
    var m :| 0 <= m < |steps| && steps[m] == s;
    assert StepId(s) == EdgeId(a, b);
  }

  /** The edge from `a` to `b` is enabled exactly when some enabled route goes from `a` straight to `b`. */
  lemma EdgeEnabledIffEnabledRouteUsesIt(all: seq<Biome>, paths: seq<ToggleablePath>, j: nat, a: Id, b: Id)
    requires RowsNonDecreasing(paths) && j < |ReduceRoutes(all, paths).edges|
    requires ReduceRoutes(all, paths).edges[j].id == EdgeId(a, b)
    ensures ReduceRoutes(all, paths).edges[j].enabled <==> EnabledRouteUses(paths, a, b)
  {
    var st := ReduceRoutes(all, paths);
    RoutesEnabledIff(all, paths);
    assert st.edges[j].enabled <==> EnabledSomewhere(Steps(paths), EdgeId(a, b));
    if st.edges[j].enabled {
      EnabledStepIsEnabledRoute(paths, a, b);
    }
    if EnabledRouteUses(paths, a, b) {
      EnabledRouteIsEnabledStep(paths, a, b);
    }
  }

  lemma AbsorbIntoEmpty(all: seq<Biome>, s: Traversal)
    requires |all| > 0 && Climbs(s)
    ensures Absorb(all, Initial(all), s) == Reduction([Render(all, s)], [all[0].id])
  {
    var e := Render(all, s);
    assert FindEdge([], e.id).None?;
  }

  lemma AbsorbAgain(all: seq<Biome>, s: Traversal)
    requires |all| > 0 && Climbs(s) && s.enabled
    ensures var st := Absorb(all, Reduction([Render(all, s)], [all[0].id]), s);
      st.edges == [Render(all, s)]
      && st.reachable == if s.end.id == all[0].id then [all[0].id] else [all[0].id, s.end.id]
  {
    var e := Render(all, s);
    assert FindEdge([e], e.id).Some? && FindEdge([e], e.id).value == 0;
    assert e.(enabled := true) == e;
    assert [e][0 := e] == [e];
  }

  lemma ReduceOnce(all: seq<Biome>, s: Traversal)
    requires |all| > 0 && Climbs(s)
    ensures Reduce(all, [s]) == Reduction([Render(all, s)], [all[0].id])
  {
    assert [s][..0] == [];
    AbsorbIntoEmpty(all, s);
  }

  lemma ReduceTwice(all: seq<Biome>, s: Traversal)
    requires |all| > 0 && Climbs(s) && s.enabled
    ensures Reduce(all, [s, s]).edges == [Render(all, s)]
    ensures Reduce(all, [s, s]).reachable == if s.end.id == all[0].id then [all[0].id] else [all[0].id, s.end.id]
  {
    assert [s, s][..1] == [s];
    ReduceOnce(all, s);
    AbsorbAgain(all, s);
  }

  lemma PathStepsOfPair(a: Biome, b: Biome, enabled: bool)
    ensures PathSteps(ToggleablePath(enabled, [a, b])) == [Traversal(a, b, enabled)]
  {
  }

  lemma StepsOfOneRoute(a: Biome, b: Biome, enabled: bool)
    ensures Steps([ToggleablePath(enabled, [a, b])]) == [Traversal(a, b, enabled)]
  {
    var paths := [ToggleablePath(enabled, [a, b])];
    assert paths[..0] == [];
    PathStepsOfPair(a, b, enabled);
  }

  lemma StepsOfRepeatedRoute(a: Biome, b: Biome, enabled: bool)
    ensures var p := ToggleablePath(enabled, [a, b]);
      Steps([p, p]) == [Traversal(a, b, enabled), Traversal(a, b, enabled)]
  {
    var p := ToggleablePath(enabled, [a, b]);
    assert [p, p][..1] == [p];
    assert Steps([p, p]) == Steps([p]) + PathSteps(p);
    StepsOfOneRoute(a, b, enabled);
    PathStepsOfPair(a, b, enabled);
  }

  /**
   * A single enabled route gives one edge per pair but leaves the reachable
   * list at the first biome: only a second traversal of a recorded pair marks
   * its end biome reachable.
   */
  lemma SingleRouteReachesNothingNew(all: seq<Biome>, a: Biome, b: Biome)
    requires |all| > 0 && a.row <= b.row
    ensures RowsNonDecreasing([ToggleablePath(true, [a, b])])
    ensures ReduceRoutes(all, [ToggleablePath(true, [a, b])])
      == Reduction([Render(all, Traversal(a, b, true))], [all[0].id])
  {
    StepsOfOneRoute(a, b, true);
    ReduceOnce(all, Traversal(a, b, true));
  }

  lemma RepeatedRouteClimbs(p: ToggleablePath)
    requires RowsNonDecreasing([p])
    ensures RowsNonDecreasing([p, p])
  {
    var ps := [p, p];
    forall k, i | 0 <= k < |ps| && 0 <= i < |ps[k].path| - 1
      ensures ps[k].path[i].row <= ps[k].path[i + 1].row
    {
      assert ps[k] == [p][0];
    }
  }

  /** Travelling the same enabled route twice marks its end biome reachable. */
  lemma RepeatedRouteReachesEnd(all: seq<Biome>, a: Biome, b: Biome)
    requires |all| > 0 && a.row <= b.row
    ensures RowsNonDecreasing([ToggleablePath(true, [a, b]), ToggleablePath(true, [a, b])])
    ensures var r := ReduceRoutes(all, [ToggleablePath(true, [a, b]), ToggleablePath(true, [a, b])]);
      r.edges == [Render(all, Traversal(a, b, true))]
      && r.reachable == if b.id == all[0].id then [all[0].id] else [all[0].id, b.id]
  {
    var p := ToggleablePath(true, [a, b]);
    RepeatedRouteClimbs(p);
    StepsOfRepeatedRoute(a, b, true);
    ReduceTwice(all, Traversal(a, b, true));
  }
}
