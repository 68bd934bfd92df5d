# Dead Cells route planner — a verified model of its core

The planner works on the biome graph of the game Dead Cells. Each biome has
a row, a column, collectibles and exits to later biomes. The planner does
two jobs:

* **Drawing the routes.** It enumerates every route from the first biome to
  the last one. It disables the routes that pass through a blacklisted
  biome. It then folds the routes into drawable edges, one edge per distinct
  pair of consecutive biomes. An edge is enabled when an enabled route uses
  it. A list of reachable biomes is built along the way. This is
  `rust/src/path.rs`, over the id-keyed records of `rust/src/json/models.rs`.
* **Scoring the routes.** A second engine enumerates the routes between two
  biomes named by strings. It totals the power scrolls, dual scrolls, scroll
  fragments and cursed-chest chances along each route. It picks the route
  worth the most scrolls. This is `rust/src/core.rs`.

The web front end places arrows and biomes on the drawing with two lookup
tables (`web/src/svg/positionCalculations.js`).

## The modules

| module | file | models |
|---|---|---|
| `Wrappers` | `wrappers.dfy` | `Option`, `Result`, and `U8`/`U16` as bounded `nat`s |
| `Models` | `models.dfy` | the `Id` enum with its display and serde names, boss-cell levels, fragment tables, exits and biomes |
| `PathFind` | `path_find.dfy` | route enumeration by id (`find_paths`, `find_path_rec`) and `get_biome` |
| `PathFilter` | `path_filter.dfy` | `apply_blacklist` and `enabled` |
| `PathReduce` | `path_reduce.dfy` | `biomes_paths_to_paths`, `calc_columns`, `calc_length` and the edge ids |
| `ReduceFacts` | `reduce_facts.dfy` | the invariant the edge reducer keeps, and what it means for whole routes |
| `PathPipeline` | `path_pipeline.dfy` | `get_paths_from`: the filter followed by the reducer |
| `PathDedup` | `path_dedup.dfy` | `deduplicate_paths`: the derived ordering of edges, sorting, `dedup` |
| `PathSearchSteps`, `PathScenario` | `path_search_steps.dfy`, `path_scenario.dfy` | the seven-biome route test of `path.rs` |
| `CoreModels` | `core_models.dfy` | the name-keyed records of the scoring engine |
| `CoreSearch` | `core_search.dfy` | route enumeration by name, with the five-biome test |
| `CoreScore` | `core_score.dfy` | collectible totals, scroll counts, the two conversions, the best route |
| `Layout` | `layout.dfy` | `calcXForArrow` and `calcXForBiome` |

**Termination of the searches.** Both searches are plain depth-first
recursions. They end only on acyclic graphs. Each modelled search requires a
sufficient condition for acyclicity, one that also gives a termination
measure. The test graphs of the source meet these conditions; the game's
own data file is not part of this model.
* The search by id requires that every exit leads to a biome in a strictly
  higher row (`PathFind.RowsIncrease`). Its measure is the highest row minus
  the row of the current biome. This excludes acyclic graphs with an exit
  to a biome of the same row.
* The test graph of the search by name puts every biome in row 0. So that
  search requires instead that every exit leads to a biome later in the
  list (`CoreSearch.ExitsPointForward`). This excludes acyclic graphs with
  an exit to a biome listed earlier.

**Fixed-width arithmetic.** Rust's `u8` and `u16` additions and
subtractions panic on overflow in a debug build and wrap silently in a
release build, which is what the front end runs. The model computes with
unbounded numbers and requires that the result fits. That is exactly the
condition under which a debug build returns a value, and on those inputs
both builds agree; the wrapped results of a release build are not modelled. The `as u8` casts of `usize` values keep the low eight bits
(`PathReduce.AsU8`).

**Reachable biomes.** The reducer's list of reachable biomes is narrower
than "every biome some enabled route reaches" (`path.rs:161-176`). It starts
with the first biome. It gains an edge's end biome only in the branch that
meets an edge already recorded, where the code also flags that biome as
reachable, and only when the step's route is enabled. An edge met for the
first time only appends the edge, even when its route is enabled. The model
follows the code.
`ReduceFacts.ReachableExactly` states what the list then holds:
* the first biome;
* and the end biome of every enabled step whose edge id already occurred at
  an earlier step.

`ReduceFacts.SingleRouteReachesNothingNew` shows the effect: a single
enabled route adds nothing to the list.

## Model

| member | source | states |
|---|---|---|
| Models.Lower | rust/src/path.rs:143-147 | `to_lowercase` on the ASCII names: same length, each upper-case letter mapped to its lower-case letter (32 codes higher), every other character kept |
| Models.Display | rust/src/json/models.rs:77-81 | `Display` prints the variant's Debug name, which begins with a capital letter; `DisplayLowerIsSerdeName` proves its lower-case form is the serde name |
| Models.SerdeName | rust/src/json/models.rs:24-75 | the serde rename of every variant, a non-empty name beginning with a lower-case letter |
| Models.FromSerdeName | rust/src/json/models.rs:24-75 | deserialization accepts a string only as the serde name of the id it returns, and `SerdeNameRoundTrip` shows every serde name is accepted |
| Models.DisplayLowerIsSerdeName | rust/src/json/models.rs:24-81 | the lower-cased display name of every id is its serde name |
| Models.SerdeNameRoundTrip | rust/src/json/models.rs:24-75 | deserializing an id's serde name gives back that id |
| Models.SerdeNameInjective | rust/src/json/models.rs:24-81 | distinct ids have distinct serde names and distinct lower-cased display names |
| Models.SerdeNameHasNoDash | rust/src/json/models.rs:24-81 | no serde name and no lower-cased display name contains '-', so an edge id splits back into its two ids |
| Models.BossCellsOf | rust/src/json/models.rs:121-128 | every level from 0 to 5 names a boss-cell count, whose level is that number |
| Models.WithEntry | rust/src/json/models.rs:85-98 | replacing one entry of a fragment table changes that level and no other |
| Models.OptionOr | rust/src/json/models.rs:103-107 | `Option::or`: the first option when defined, else the second |
| Models.UnwrapOr | rust/src/json/models.rs:109-116 | `unwrap_or`: the value when defined, else the default |
| Models.GetFragmentsIsGreatestDefinedLevel | rust/src/json/models.rs:101-117 | the lookup at level L gives the entry of the greatest defined level at most L, and 0 when no such level is defined |
| Models.DefinedLevelIsExact | rust/src/json/models.rs:101-117 | a level with its own entry reads exactly that entry |
| Models.ZeroReadsOnlyZero | rust/src/json/models.rs:101-117 | level zero reads only the zero entry, or 0 |
| Models.DefaultTableIsZero | rust/src/json/models.rs:101-117 | the default table yields no fragments at any level |
| Models.EntryChangeAffectsOnlyHigherLevels | rust/src/json/models.rs:101-117 | changing the entry of level k leaves every lower level's lookup unchanged |
| Models.LookupNotMonotone | rust/src/json/models.rs:101-117 | a higher boss-cell level can yield fewer fragments: the lookup is a fallback, not a maximum |
| Models.GetFragments | rust/src/json/models.rs:101-117 | `get_fragments`: a level with its own entry reads that entry, and any other result is 0 or the entry of a defined level at or below the one asked for |
| Models.ExitFrom | rust/src/json/models.rs:138-146 | `Exit::from(Id)`: an exit to that id with no requirement and no scrolls |
| PathFind.StepRaisesRow | rust/src/path.rs:245-253 | on a graph whose exits climb rows, every step the search takes climbs, without passing the highest row |
| PathFind.Successors | rust/src/path.rs:245-253 | the next biomes are exactly the listed biomes whose id some exit of the current biome names |
| PathFind.SuccessorsKeepListOrder | rust/src/path.rs:250-253 | the next biomes come in the order of the biome list, not of the exits |
| PathFind.SuccessorsIgnoreExitOrder | rust/src/path.rs:245-253 | biomes whose exits name the same ids have the same next biomes |
| PathFind.Extend | rust/src/path.rs:257-258 | extending a route keeps its flag and appends one biome |
| PathFind.Routes | rust/src/path.rs:232-264 | every route `find_path_rec` returns keeps the current route's flag, extends it, and ends at the target id; `RoutesExactly` gives the full characterization |
| PathFind.RoutesFrom | rust/src/path.rs:255-263 | every route through the next biomes keeps the flag, strictly extends the current route and ends at the target id |
| PathFind.ReachesShrink | rust/src/path.rs:241-261 | a route found from an extension of the current route is a route from the current route |
| PathFind.RoutesSound | rust/src/path.rs:232-264 | every route found extends the current route by exits, keeps its flag, and stops at the first biome with the target id; at the target the current route alone is found |
| PathFind.RoutesFromSound | rust/src/path.rs:255-263 | every route found through the next biomes extends the current route and reaches the target |
| PathFind.RoutesComplete | rust/src/path.rs:232-264 | every route by exits from the current route to the target is found |
| PathFind.RoutesFromContains | rust/src/path.rs:255-263 | a route found through one next biome is in the concatenated result |
| PathFind.RoutesExactly | rust/src/path.rs:232-264 | a route is found if and only if it runs by exits from the current route to the target |
| PathFind.SearchStep | rust/src/path.rs:256-261 | one loop iteration appends the routes through the next biome, which lies in a higher row |
| PathFind.FindPathRec | rust/src/path.rs:232-264 | the recursive search with its loop returns the specified routes, in order |
| PathFind.Start | rust/src/path.rs:219-224 | the initial route, enabled and holding the first biome, from which the search may start |
| PathFind.AllRoutes | rust/src/path.rs:219-230 | every route of `find_paths` is enabled, starts at the first biome and ends at the last biome's id; `AllRoutesCharacterized` gives the converse |
| PathFind.FindPaths | rust/src/path.rs:219-230 | `find_paths` succeeds with every enabled route from the first biome to the last biome's id |
| PathFind.AllRoutesCharacterized | rust/src/path.rs:219-264 | a route is returned if and only if it is enabled, starts at the first biome, ends at the last biome's id, follows exits and does not pass that id before its end |
| PathFind.DeadEndsContributeNothing | rust/src/path.rs:241-263 | a biome without exits appears on a returned route only as its final, target biome |
| PathFind.GetBiome | rust/src/path.rs:79-84 | `get_biome` finds a biome if and only if one has the id, and then the first such biome |
| PathFilter.BlacklistOne | rust/src/path.rs:200-215 | one route keeps its biomes; it is enabled if and only if none of its biomes is blacklisted |
| PathFilter.Clear | rust/src/path.rs:201-209 | a route avoids the blacklist if and only if, as in the two nested loops, no biome of the route equals any blacklist entry |
| PathFilter.ApplyBlacklist | rust/src/path.rs:193-217 | the same routes in the same order, each enabled if and only if it avoids the blacklist |
| PathFilter.Enabled | rust/src/path.rs:86-92 | an edge is usable if and only if neither end is blacklisted |
| PathFilter.EnabledAgreesWithFilter | rust/src/path.rs:86-92 | on a route of two biomes, `enabled` and the route filter agree |
| PathFilter.BlacklistedBiomeDisablesRoute | rust/src/path.rs:201-209 | one blacklisted biome anywhere on a route disables it |
| PathReduce.AsU8 | rust/src/path.rs:134-139 | the `as u8` cast is the identity on values that fit |
| PathReduce.CalcColumns | rust/src/path.rs:71-73 | the count of a row is at most the number of biomes, and positive if and only if some biome lies in that row |
| PathReduce.CalcColumnsAppend | rust/src/path.rs:71-73 | the count of a row adds up over concatenated lists |
| PathReduce.CalcLength | rust/src/path.rs:75-77 | the length of an edge is the number of rows it spans, when that fits a `u8` |
| PathReduce.EdgeId | rust/src/path.rs:143-147 | the edge id format; `EdgeIdIsSerdeNames` and `EdgeIdInjective` state what it means |
| PathReduce.EdgeIdIsSerdeNames | rust/src/path.rs:143-147 | the lower-cased display names in an edge id are the serde names, joined by a dash |
| PathReduce.DashJoinInjective | rust/src/path.rs:143-147 | joining two names with a dash loses nothing when the first name has no dash |
| PathReduce.DashPosition | rust/src/path.rs:143-147 | in a dash-joined id, the first dash sits right after the first name |
| PathReduce.EdgeIdInjective | rust/src/path.rs:143-147 | two edge ids are equal if and only if their start ids and their end ids are |
| PathReduce.PathSteps | rust/src/path.rs:126-131 | a route of n biomes gives its n-1 pairs of consecutive biomes, in order, with the route's flag |
| PathReduce.StepsAreConsecutivePairs | rust/src/path.rs:125-131 | a step is visited if and only if it is a pair of consecutive biomes of some route |
| PathReduce.StepsClimb | rust/src/path.rs:140 | when rows never decrease along a route, no visited step has a negative length |
| PathReduce.Render | rust/src/path.rs:133-155 | the edge built for a step carries the step's id and the route's flag |
| PathReduce.FindEdge | rust/src/path.rs:157-160 | the lookup finds the first edge with the id, or reports that none has it |
| PathReduce.Absorb | rust/src/path.rs:157-180 | one iteration of the reducer adds at most one edge and only extends the reachable list; `AbsorbShape` and `AbsorbIsMonotone` give its three cases and what it keeps |
| PathReduce.Reduce | rust/src/path.rs:127-181 | the fold of the iteration over the steps in visiting order; `ReduceSummarizes` states the summary it satisfies |
| PathReduce.ReduceRoutes | rust/src/path.rs:118-185 | the fold over the steps of whole routes; `RoutesSummarized` states the summary it satisfies |
| PathReduce.AbsorbIsMonotone | rust/src/path.rs:157-180 | one iteration adds at most one edge, never changes the layout of an existing edge, never disables one, and never removes a reachable biome |
| PathReduce.AbsorbStep | rust/src/path.rs:127-180 | the loop body returns exactly one iteration of the fold |
| PathReduce.AbsorbPath | rust/src/path.rs:127-181 | the inner loop over one route continues the fold over that route's steps |
| PathReduce.BiomesPathsToPaths | rust/src/path.rs:118-185 | `biomes_paths_to_paths` returns the fold over all steps of all routes, starting from the first biome reachable |
| PathReduce.PrefixStepsClimb | rust/src/path.rs:125-126 | the steps of one more route extend the steps of the routes before it |
| PathReduce.ReduceExtend | rust/src/path.rs:127-181 | the fold over one more step is one more iteration |
| ReduceFacts.FirstIndex | rust/src/path.rs:157-160 | the first position of a value, or the length when it is absent |
| ReduceFacts.FirstIndexSnoc | rust/src/path.rs:157-160 | appending a value does not move the first position of a value already present, and gives a new value the last position |
| ReduceFacts.FirstOrderIsDistinct | rust/src/path.rs:157-179 | edges kept in first-visit order have distinct ids |
| ReduceFacts.SnocIds | rust/src/path.rs:143-147 | the ids of one more step extend the ids of the steps before it |
| ReduceFacts.SnocEnabled | rust/src/path.rs:164-168 | an id is enabled after one more step if and only if it was before, or the new step is enabled and has that id |
| ReduceFacts.SnocRetraversal | rust/src/path.rs:161-175 | one more step is a re-traversal if and only if it is enabled and its id was seen before |
| ReduceFacts.SnocReached | rust/src/path.rs:171-175 | a biome is reached after one more step if and only if it was before, or that step is a re-traversal ending there |
| ReduceFacts.AbsorbShape | rust/src/path.rs:157-180 | the three cases of one iteration: a new id appends the edge; an enabled step with a known id enables exactly that edge and adds its end biome; a disabled step with a known id changes nothing |
| ReduceFacts.AbsorbCover | rust/src/path.rs:157-180 | the edge ids stay exactly the ids of the steps seen |
| ReduceFacts.FirstIndexKept | rust/src/path.rs:157-180 | one more step does not move the first visit of a recorded edge |
| ReduceFacts.AbsorbFirstOrderNew | rust/src/path.rs:177-179 | appending the edge of a new id keeps the edges in first-visit order |
| ReduceFacts.AbsorbFirstOrder | rust/src/path.rs:157-180 | the edges stay in the order of the first visit of their ids |
| ReduceFacts.AbsorbLayoutKept | rust/src/path.rs:161-176 | a recorded edge keeps the layout of the step that first visited its id |
| ReduceFacts.AbsorbLayoutNew | rust/src/path.rs:177-179 | the edge of a new id has the layout of that step |
| ReduceFacts.AbsorbLayout | rust/src/path.rs:157-180 | every edge keeps the layout of the first step with its id |
| ReduceFacts.AbsorbEnabled | rust/src/path.rs:161-179 | an edge is enabled if and only if some enabled step has its id |
| ReduceFacts.AbsorbReachable | rust/src/path.rs:171-175 | the reachable list stays the first biome plus the ends of re-traversals, without repeats |
| ReduceFacts.AbsorbPreserves | rust/src/path.rs:157-180 | one iteration preserves the whole summary of the steps seen |
| ReduceFacts.ReduceSummarizes | rust/src/path.rs:118-185 | the fold over any climbing steps satisfies the whole summary: distinct ids in first-visit order, layouts of the first visit, the enabled flags, the reachable list |
| ReduceFacts.RoutesSummarized | rust/src/path.rs:118-185 | the summary holds of the reducer's result on whole routes |
| ReduceFacts.RoutesEnabledIff | rust/src/path.rs:161-179 | on whole routes, an edge is enabled if and only if some enabled step has its id |
| ReduceFacts.EveryTraversedPairHasOneEdge | rust/src/path.rs:157-179 | every pair of consecutive biomes on a route has an edge, and no id occurs twice |
| ReduceFacts.EveryEdgeIsATraversedPair | rust/src/path.rs:142-179 | every edge is the pair of consecutive biomes of some route |
| ReduceFacts.EnabledStepIsEnabledRoute | rust/src/path.rs:125-131 | an enabled step with the id a-b comes from an enabled route going straight from a to b |
| ReduceFacts.EnabledRouteIsEnabledStep | rust/src/path.rs:125-131 | an enabled route going straight from a to b yields an enabled step with the id a-b |
| ReduceFacts.EdgeEnabledIffEnabledRouteUsesIt | rust/src/path.rs:118-185 | the edge a-b is enabled if and only if some enabled route goes straight from a to b |
| ReduceFacts.AbsorbIntoEmpty | rust/src/path.rs:122-123 | the first step gives its own edge, and the first biome is reachable |
| ReduceFacts.AbsorbAgain | rust/src/path.rs:161-175 | an enabled step seen again adds no edge and makes its end biome reachable |
| ReduceFacts.ReduceOnce | rust/src/path.rs:118-185 | the fold over one step |
| ReduceFacts.ReduceTwice | rust/src/path.rs:161-175 | the fold over the same enabled step twice keeps one edge and reaches the step's end |
| ReduceFacts.PathStepsOfPair | rust/src/path.rs:126-131 | a route of two biomes has one step |
| ReduceFacts.StepsOfOneRoute | rust/src/path.rs:125-131 | a single route of two biomes gives one step |
| ReduceFacts.StepsOfRepeatedRoute | rust/src/path.rs:125-131 | the same route twice gives its step twice |
| ReduceFacts.SingleRouteReachesNothingNew | rust/src/path.rs:118-185 | a single enabled route of two biomes leaves only the first biome reachable |
| ReduceFacts.RepeatedRouteClimbs | rust/src/path.rs:140 | repeating a route keeps rows non-decreasing |
| ReduceFacts.RepeatedRouteReachesEnd | rust/src/path.rs:118-185 | the same enabled route twice makes its end biome reachable |
| PathPipeline.FilteredKeepsRows | rust/src/path.rs:193-217 | the blacklist leaves the biomes of each route alone, so the rows still never decrease |
| PathPipeline.Filtered | rust/src/path.rs:193-217 | the filtered routes have the same biomes; an enabled one has no blacklisted biome, and a disabled one has at least one |
| PathPipeline.AllRoutesClimb | rust/src/path.rs:219-264 | on a list whose exits climb rows, rows never decrease along any route of `find_paths`, which is what the reducer requires of its input |
| PathPipeline.GetPaths | rust/src/path.rs:5-7 | `get_paths`: the routes `find_paths` enumerates over the biome list, filtered and reduced, with the reducer's precondition discharged |
| PathPipeline.GetPathsFrom | rust/src/path.rs:9-16 | `get_paths_from` returns the fold over the routes as the blacklist leaves them |
| PathPipeline.EdgeEnabledIffClearRouteUsesIt | rust/src/path.rs:9-16 | after the blacklist, the edge a-b is enabled if and only if some route avoiding every blacklisted biome goes straight from a to b |
| PathPipeline.FilteredPairHasOneEdge | rust/src/path.rs:9-16 | after the blacklist, every pair of consecutive biomes on an input route has exactly one edge |
| PathPipeline.FilteredEdgeIsATraversedPair | rust/src/path.rs:9-16 | after the blacklist, every edge is a pair of consecutive biomes of some input route |
| PathDedup.LexLessIrreflexive | rust/src/path.rs:94 | the lexicographic order is irreflexive |
| PathDedup.LexLessTransitive | rust/src/path.rs:94 | the lexicographic order is transitive |
| PathDedup.LexLessTotal | rust/src/path.rs:94 | the lexicographic order is total |
| PathDedup.Codes | rust/src/path.rs:94-96 | strings compare by their character codes, one code per character |
| PathDedup.CodesInjective | rust/src/path.rs:94-96 | distinct strings have distinct codes |
| PathDedup.FieldsInjective | rust/src/path.rs:94-108 | edges equal in id and in every other field are equal |
| PathDedup.PathLessIrreflexive | rust/src/path.rs:94-108 | the derived ordering of edges is irreflexive |
| PathDedup.PathLessTransitive | rust/src/path.rs:94-108 | the derived ordering of edges is transitive |
| PathDedup.PathLessTotal | rust/src/path.rs:94-108 | the derived ordering of edges is total |
| PathDedup.Insert | rust/src/path.rs:188 | inserting adds exactly the one element |
| PathDedup.InsertAfterHead | rust/src/path.rs:188 | inserting behind a smaller head keeps the sequence sorted |
| PathDedup.InsertBeforeHead | rust/src/path.rs:188 | inserting before a greater head keeps the sequence sorted |
| PathDedup.InsertSorted | rust/src/path.rs:188 | inserting into a sorted sequence keeps it sorted |
| PathDedup.SortPaths | rust/src/path.rs:188 | sorting permutes the edges |
| PathDedup.SortPathsSorted | rust/src/path.rs:188 | sorting leaves the edges in order |
| PathDedup.Dedup | rust/src/path.rs:189 | `dedup` never lengthens the sequence and keeps its last element |
| PathDedup.DedupSameElements | rust/src/path.rs:189 | `dedup` keeps every element and adds none |
| PathDedup.DedupStrictlySorted | rust/src/path.rs:189 | on sorted input, `dedup` leaves a strictly increasing sequence |
| PathDedup.DeduplicatePaths | rust/src/path.rs:187-191 | `deduplicate_paths` returns a strictly increasing sequence holding exactly the input's edges |
| PathDedup.LastIsGreatest | rust/src/path.rs:187-191 | in a strictly increasing sequence, the last element is above all the others |
| PathDedup.SameLast | rust/src/path.rs:187-191 | strictly increasing sequences with the same elements end alike |
| PathDedup.InitToInit | rust/src/path.rs:187-191 | such sequences agree on the elements before their last ones |
| PathDedup.StrictlySortedUnique | rust/src/path.rs:187-191 | a strictly increasing sequence is determined by its elements, so the result of `deduplicate_paths` does not depend on how the sort is done |
| PathSearchSteps.RoutesUnfold | rust/src/path.rs:241-263 | away from the target, the routes are those found through the next biomes |
| PathSearchSteps.RoutesFromSnoc | rust/src/path.rs:256-261 | one more next biome appends the routes through it |
| PathSearchSteps.ThroughOne | rust/src/path.rs:241-263 | a biome with one next biome passes the search on to it |
| PathSearchSteps.ThroughTwo | rust/src/path.rs:241-263 | a biome with two next biomes concatenates the routes through each, in order |
| PathSearchSteps.ThroughThree | rust/src/path.rs:241-263 | a biome with three next biomes concatenates the routes through each, in order |
| PathSearchSteps.AtTarget | rust/src/path.rs:241-243 | at the target, the current route alone is found |
| PathSearchSteps.DeadEnd | rust/src/path.rs:250-263 | a biome with no next biome, away from the target, yields no route |
| PathScenario.TestBiome | rust/src/path.rs:489-506 | the test conversion builds an enabled biome named by its id's display name, with one bare exit per id and nothing to collect |
| PathScenario.TestBiomesShape | rust/src/path.rs:377-390 | the seven test biomes have the ids, rows and exits of the test |
| PathScenario.ShapeRowsIncrease | rust/src/path.rs:377-390 | the exits of the test graph climb rows, so the search applies to it |
| PathScenario.SuccessorsOfPrisonquart | rust/src/path.rs:250-253 | the prison quarter leads to the arboretum, the promenade and the sewers, in list order |
| PathScenario.SuccessorsOfArboretum | rust/src/path.rs:250-253 | the arboretum leads to the prison depths |
| PathScenario.SuccessorsOfPromenade | rust/src/path.rs:250-253 | the promenade leads to the corrupted prison and the ossuary, in list order |
| PathScenario.SuccessorsOfToxicsewers | rust/src/path.rs:250-253 | the sewers lead nowhere |
| PathScenario.SuccessorsOfPrisondepths | rust/src/path.rs:250-253 | the prison depths lead to the ossuary |
| PathScenario.SuccessorsOfCorruptedprison | rust/src/path.rs:250-253 | the corrupted prison leads to the ossuary |
| PathScenario.ShapeRoutes | rust/src/path.rs:219-264 | on any graph shaped like the test, the search finds the three routes, in order |
| PathScenario.CalculateAllPathsRoutes | rust/src/path.rs:375-393 | `find_paths` on the test graph gives the routes via the arboretum and prison depths, via the promenade and corrupted prison, and via the promenade alone |
| PathScenario.CalculateAllPathsBlacklist | rust/src/path.rs:393 | blacklisting the arboretum disables the first of these routes and keeps the other two |
| CoreModels.Level | rust/src/core.rs:78-84 | the levels run from one to five |
| CoreModels.GetFragmentsIsGreatestDefinedLevel | rust/src/core.rs:60-76 | the lookup at level L gives the entry of the greatest defined level from 1 to L, and 0 when none is defined |
| CoreModels.DefaultTableIsZero | rust/src/core.rs:60-76 | the default table yields no fragments at any level |
| CoreModels.GetFragments | rust/src/core.rs:61-75 | `get_fragments`: a level with its own entry reads that entry, and any other result is 0 or the entry of a defined level at or below the one asked for |
| CoreModels.ExitFrom | rust/src/core.rs:94-102 | `Exit::from(String)`: an exit to that name with no requirement and no scrolls |
| CoreModels.ExitNames | rust/src/core.rs:151-155 | the destinations of the exits, in order |
| CoreModels.BiomeFrom | rust/src/core.rs:25-43 | `Biome::from((name, exits))`: the name, one bare exit per name in order, zeros elsewhere and the default table |
| CoreModels.BiomeFromTuple | rust/src/core.rs:268-296 | the conversion test's biome is the one expected |
| CoreSearch.StepMovesForward | rust/src/core.rs:151-159 | on a graph whose exits point later in the list, every step moves forward |
| CoreSearch.Successors | rust/src/core.rs:151-159 | the next biomes are the listed biomes, in list order, whose name is an exit of the current biome |
| CoreSearch.SuccessorsKeepListOrder | rust/src/core.rs:156-159 | the next biomes come in the order of the biome list: filtering a concatenation gives the concatenation of the filtered parts |
| CoreSearch.ReachesShrink | rust/src/core.rs:147-168 | a route found from an extension of the current route is a route from the current route |
| CoreSearch.RoutesSound | rust/src/core.rs:139-170 | every route found runs by exits from the current route to a biome with the target name |
| CoreSearch.RoutesFromSound | rust/src/core.rs:161-169 | every route found through the next biomes reaches the target |
| CoreSearch.RoutesComplete | rust/src/core.rs:139-170 | every route by exits to the target is found |
| CoreSearch.RoutesFromContains | rust/src/core.rs:161-169 | a route found through one next biome is in the concatenated result |
| CoreSearch.RoutesExactly | rust/src/core.rs:139-170 | a route is found if and only if it runs by exits from the current route to the target |
| CoreSearch.SearchStep | rust/src/core.rs:162-167 | one loop iteration appends the routes through the next biome, which lies later in the list |
| CoreSearch.Routes | rust/src/core.rs:139-170 | the routes `find_path_rec` returns; `RoutesSound`, `RoutesComplete` and `RoutesExactly` state which they are |
| CoreSearch.RoutesFrom | rust/src/core.rs:161-169 | the routes through the next biomes, in their order; `RoutesFromSound` and `RoutesFromContains` state which they are |
| CoreSearch.FindPathRec | rust/src/core.rs:139-170 | the recursive search with its loop returns the specified routes, in order |
| CoreSearch.FindByName | rust/src/core.rs:129-132 | the start lookup returns the first biome of the list with the name, and fails if and only if there is none |
| CoreSearch.AllRoutes | rust/src/core.rs:124-137 | `find_paths` fails if and only if no biome has the start name; otherwise every route starts at a biome with that name and ends at one named `end` |
| CoreSearch.FindPaths | rust/src/core.rs:124-137 | `find_paths` fails when the start is missing and otherwise returns the specified routes |
| CoreSearch.AllRoutesCharacterized | rust/src/core.rs:124-170 | it fails if and only if no biome has the start name; otherwise a route is returned if and only if it starts at the first biome with that name, follows exits, and reaches the end name for the first time at its end |
| CoreSearch.TestExits | rust/src/core.rs:298-306 | the five test biomes have the exits of the test, and their exits point later in the list |
| CoreSearch.TestSuccessors | rust/src/core.rs:298-306 | the next biomes of each test biome |
| CoreSearch.RoutesThroughOne | rust/src/core.rs:147-169 | a biome with one next biome passes the search on to it |
| CoreSearch.RoutesThroughTwo | rust/src/core.rs:147-169 | a biome with two next biomes concatenates the routes through each, in order |
| CoreSearch.TestShapeRoutes | rust/src/core.rs:298-322 | on any graph shaped like the test, the search finds the two expected routes, in order |
| CoreSearch.TestRoutes | rust/src/core.rs:298-322 | the recursive search on the test graph finds the two expected routes |
| CoreSearch.FindPathBetweenNodes | rust/src/core.rs:298-322 | `find_paths(start, end)` on the test graph succeeds with the two expected routes, in order |
| CoreScore.AddAssociative | rust/src/core.rs:211-222 | adding tallies is associative |
| CoreScore.SumSnoc | rust/src/core.rs:207-223 | the tally of one more biome adds that biome's collectibles |
| CoreScore.SumCollectibles | rust/src/core.rs:207-223 | the fold's tally is at least each biome's own contribution, and each total is at most 255 per biome |
| CoreScore.SumAppend | rust/src/core.rs:207-223 | the tally of two route pieces is the sum of their tallies |
| CoreScore.SumOrderIndependent | rust/src/core.rs:207-223 | the tally does not depend on the order of the biomes |
| CoreScore.RunningTotalsBelow | rust/src/core.rs:211-222 | every running total is at most the final one, so the fold cannot overflow before its end unless the end overflows |
| CoreScore.ChestScrolls | rust/src/core.rs:225-227 | the expected chest count is `probability / 100` rounded half up, saturated at 255 |
| CoreScore.ChestScrollsIsNearest | rust/src/core.rs:225-227 | the rounded count is within half a chest of the probability |
| CoreScore.ScoreOf | rust/src/core.rs:188-205 | the score counts every power scroll and one scroll per four fragments, then adds at most 255 for the chests; with dual scrolls it counts those too |
| CoreScore.CalculateScrolls | rust/src/core.rs:188-205 | `calculate_scrolls` is at least the power scrolls of any biome on the route, and with dual scrolls at least the dual scrolls of any biome |
| CoreScore.DualScrollsAdd | rust/src/core.rs:200-204 | counting dual scrolls adds exactly the route's dual scrolls |
| CoreScore.ScoreOrderIndependent | rust/src/core.rs:188-223 | the score does not depend on the order of the biomes |
| CoreScore.FromFragments | rust/src/core.rs:229-235 | every four fragments become one scroll: the value is kept, fewer than four fragments are left, and nothing else changes |
| CoreScore.FromCursedChests | rust/src/core.rs:237-243 | every hundred points of chest chance become one scroll: the value is kept when the count fits a `u8`, under a hundred points are left, and nothing else changes |
| CoreScore.FromFragmentsExample | rust/src/core.rs:378-384 | (10, 0, 5, 0) becomes (11, 0, 1, 0) |
| CoreScore.FromCursedChestsExample | rust/src/core.rs:386-392 | (10, 0, 0, 190) becomes (11, 0, 0, 90) |
| CoreScore.RoundingSplits | rust/src/core.rs:225-243 | rounding the chest count equals the whole hundreds plus one for a remainder of fifty or more |
| CoreScore.ConversionAgreesWithScore | rust/src/core.rs:188-243 | converting fragments, then chests, then rounding the leftover chance gives the score without dual scrolls |
| CoreScore.GetPathWithMostScrolls | rust/src/core.rs:172-186 | returns a route of the list with its score, and no route of the list scores more |
| CoreScore.SumDependsOnlyOnCollectibles | rust/src/core.rs:207-223 | routes whose biomes contribute the same collectibles, one by one, have the same tally |
| CoreScore.ExitsDoNotCount | rust/src/core.rs:207-223 | exits play no part in the tally |
| CoreScore.DualScrollsIgnored | rust/src/core.rs:200-204 | without dual scrolls, the dual scrolls of the biomes play no part in the score |
| CoreScore.DualScrollsIgnoredSum | rust/src/core.rs:211-222 | dual scrolls affect only their own field of the tally |
| Layout.CalcXForArrow | web/src/svg/positionCalculations.js:1-23 | an arrow is placed if and only if its column is from 1 to the row's column count, and that count is at most 4 |
| Layout.ArrowsIncreaseWithColumn | web/src/svg/positionCalculations.js:1-23 | within a row, arrows in later columns start further right |
| Layout.ArrowsWithinDrawing | web/src/svg/positionCalculations.js:1-23 | every arrow starts between x = 80 and x = 850 |
| Layout.LoneArrowIsMiddleArrow | web/src/svg/positionCalculations.js:1-23 | the arrow of a lone biome starts where the middle arrow of a row of three does |
| Layout.CalcXForBiome | web/src/svg/positionCalculations.js:25-61 | a biome is placed if and only if its row has one biome, or two to four biomes and its position is in range; the single biome of a row is centred at 380; otherwise the error "bla" |
| Layout.BiomesEvenlySpaced | web/src/svg/positionCalculations.js:25-61 | the biomes of a row are evenly spaced left to right: 350 apart in rows of two and three, 250 apart in rows of four |
| Layout.RowsCentred | web/src/svg/positionCalculations.js:25-61 | rows of one to three biomes are centred on x = 380, rows of four on x = 375 |

## Left out

- I/O and glue: JSON parsing of the biome files, the lazily loaded statics and the WASM/JS bridge (`lazies.rs`, `lib.rs`, `callWasm.js`, `call_wasm.js`) have no model. `PathPipeline.GetPaths` takes the biome list that the statics load as a parameter, and enumerates the routes from it as `RAW_PATHS` does.
- Dead code has no model: `calculate_paths` (never called), `get_all_paths` (empty), the commented-out searches, `take_string_return_string`, `take_int_return_int` and the `Add<i32>` impl.
- Exit requirements: `boss_cell_requirement` and the exits' `power_scrolls` are carried in the records, but no core function reads them.
- Floating point: `calculate_scrolls_from_cursed_chests` divides and rounds an `f64`, then casts it to `u8`, which saturates at 255. The model uses the exact integer rounding `min(255, (p + 50) / 100)`. That gives the same value for every `u16` input.
- CoreScore.FromCursedChests: `(chance / 100) as u8` wraps when the chance reaches 25600. The model wraps it too (`% 256`). The ensures that the value is kept is therefore stated only for chances below 25600.
- u8/u16 overflow: additions that would panic in a debug build are preconditions (`Fits`, `ScoreDefined`, the requires of the two conversions). The model has no panicking branch.
- Release-build wrapping: a release build wraps those overflowing additions and the row underflow modulo the width of their type (`u8`, `u16`, `usize`) instead of panicking. The model does not compute the wrapped values; its preconditions exclude those inputs.
- PathFind.FindPaths: `biomes.first().unwrap()` and `biomes.last().unwrap()` panic on an empty list. The model requires a non-empty list (part of `Enumerable`).
- Termination: both searches loop forever, or overflow the stack, on a cyclic graph. The model requires a sufficient condition for acyclicity, which the source's test graphs meet: climbing rows (`RowsIncrease`) for the search by id, exits pointing later in the list (`ExitsPointForward`) for the search by name. Acyclic graphs with an exit to a biome of the same row (search by id), or to a biome listed earlier (search by name), are outside the model. Whether the game's data file meets `RowsIncrease` is not modelled.
- PathReduce.BiomesPathsToPaths: `end.row - start.row` underflows when a route steps to a lower row; a debug build panics and a release build wraps. The model requires rows never to decrease along a route. The `panic!` for a vanished element cannot happen and has no model.
- PathFind.GetBiome: `expect` panics when no biome has the id. The model returns `None` instead. No core function calls `get_biome`.
- CoreScore.GetPathWithMostScrolls: `swap_remove(0)` panics on an empty list. The model requires a non-empty list. `sort_unstable_by` leaves open which of several equally scored routes comes first, so the contract promises only a route of greatest score. The method finds one with a scan.
- PathDedup.SortPaths: the library sort is modelled as an insertion sort. `StrictlySortedUnique` shows that the result of `deduplicate_paths` does not depend on the sorting algorithm.
- Models.Lower: `to_lowercase` is modelled on ASCII letters only. Every biome name is ASCII.
- The seven-biome test also checks the exact list of drawn edges and their layout fields. The model proves the routes of that test and their blacklist flags (`PathScenario.CalculateAllPathsRoutes`, `PathScenario.CalculateAllPathsBlacklist`). For the edges, it proves the general properties of the reducer and of `get_paths_from` rather than the concrete list.
- The scoring test `should_find_path_with_most_scrolls` runs on the game's full data file, which is not part of this model.
