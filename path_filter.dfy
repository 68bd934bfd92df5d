/**
 * The blacklist filter: every route is kept and marked enabled exactly when
 * none of its biomes is blacklisted.
 */
module PathFilter {
  import opened Models
  import opened PathFind

  /** No biome of `path` is in the blacklist. */
  predicate Clear(path: seq<Biome>, blacklist: seq<Id>)
    ensures Clear(path, blacklist) <==>
      forall i, j :: 0 <= i < |path| && 0 <= j < |blacklist| ==> path[i].id != blacklist[j]
  {
    forall b :: b in path ==> b.id !in blacklist
  }

  /** The filter applied to one route: the closure of `apply_blacklist`. */
  method BlacklistOne(p: ToggleablePath, blacklist: seq<Id>) returns (q: ToggleablePath)
    ensures q.path == p.path
    ensures q.enabled <==> Clear(p.path, blacklist)
  {
    for i := 0 to |p.path|
      invariant forall j :: 0 <= j < i ==> p.path[j].id !in blacklist
    {
      for k := 0 to |blacklist|
        invariant forall m :: 0 <= m < k ==> blacklist[m] != p.path[i].id
      {
        if p.path[i].id == blacklist[k] {
          return ToggleablePath(false, p.path);
        }
      }
    }
    return ToggleablePath(true, p.path);
  }

  /**
   * `apply_blacklist`: the same routes in the same order, each enabled exactly
   * when it avoids the blacklist; the incoming flag plays no part.
   */
  method ApplyBlacklist(paths: seq<ToggleablePath>, blacklist: seq<Id>) returns (r: seq<ToggleablePath>)
    ensures |r| == |paths|
    ensures forall k :: 0 <= k < |paths| ==> r[k].path == paths[k].path
    ensures forall k :: 0 <= k < |paths| ==> (r[k].enabled <==> Clear(paths[k].path, blacklist))
  {
    r := [];
    for k := 0 to |paths|
      invariant |r| == k
      invariant forall j :: 0 <= j < k ==> r[j].path == paths[j].path
      invariant forall j :: 0 <= j < k ==> (r[j].enabled <==> Clear(paths[j].path, blacklist))
    {
      var q := BlacklistOne(paths[k], blacklist);
      r := r + [q];
    }
  }

  /** `enabled`: an edge is usable when neither of its ends is blacklisted. */
  function Enabled(startId: Id, endId: Id, blacklist: seq<Id>): (r: bool)
    ensures r <==> startId !in blacklist && endId !in blacklist
  {
    if startId in blacklist || endId in blacklist then false else true
  }

  /** On a single edge, `enabled` agrees with the route filter. */
  lemma EnabledAgreesWithFilter(a: Biome, b: Biome, blacklist: seq<Id>)
    ensures Enabled(a.id, b.id, blacklist) <==> Clear([a, b], blacklist)
  {
    assert a in [a, b] && b in [a, b];
  }

  /** A blacklisted biome anywhere on a route makes the route not clear. */
  lemma BlacklistedBiomeDisablesRoute(path: seq<Biome>, i: nat, blacklist: seq<Id>)
    requires i < |path| && path[i].id in blacklist
    ensures !Clear(path, blacklist)
  {
    assert path[i] in path;
  }
}
