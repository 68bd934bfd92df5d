/**
 * The name-keyed records of the scoring engine: biomes and exits named by
 * strings, and a fragment table with levels one to five.
 */
module CoreModels {
  import opened Wrappers
  import M = Models

  /** Boss-cell levels one to five; this copy has no level zero. */
  datatype BossCells = One | Two | Three | Four | Five

  function Level(bc: BossCells): (r: nat)
    ensures 1 <= r <= 5
  {
    match bc
    case One => 1
    case Two => 2
    case Three => 3
    case Four => 4
    case Five => 5
  }

  /** Fragments awarded at each boss-cell level, where one is defined. */
  datatype ScrollFragments = ScrollFragments(
    one: Option<U8>, two: Option<U8>, three: Option<U8>, four: Option<U8>, five: Option<U8>)

  /** `ScrollFragments::default()`: every level undefined. */
  const DefaultFragments := ScrollFragments(None, None, None, None, None)

  /** The entry of level `k`, for `1 <= k <= 5`. */
  function Entry(sf: ScrollFragments, k: nat): Option<U8>
    requires 1 <= k <= 5
  {
    if k == 1 then sf.one else if k == 2 then sf.two else if k == 3 then sf.three
    else if k == 4 then sf.four else sf.five
  }

  /** `get_fragments`: each level falls back to the one below it, and an undefined chain gives 0. */
  function GetFragments(sf: ScrollFragments, bc: BossCells): (r: U8)
    ensures Entry(sf, Level(bc)).Some? ==> r == Entry(sf, Level(bc)).value
    ensures r == 0 || exists j :: 1 <= j <= Level(bc) && Entry(sf, j) == Some(r)
  {
    assert Entry(sf, 1) == sf.one && Entry(sf, 2) == sf.two && Entry(sf, 3) == sf.three;
    assert Entry(sf, 4) == sf.four && Entry(sf, 5) == sf.five;
    var one := sf.one;
    var two := M.OptionOr(sf.two, one);
    var three := M.OptionOr(sf.three, two);
    var four := M.OptionOr(sf.four, three);
    var five := M.OptionOr(sf.five, four);
    match bc
    case One => M.UnwrapOr(one, 0)
    case Two => M.UnwrapOr(two, 0)
    case Three => M.UnwrapOr(three, 0)
    case Four => M.UnwrapOr(four, 0)
    case Five => M.UnwrapOr(five, 0)
  }

  /** The lookup at level L is the entry of the greatest defined level at most L, or 0 when none is. */
  lemma GetFragmentsIsGreatestDefinedLevel(sf: ScrollFragments, bc: BossCells)
    ensures forall j :: 1 <= j <= Level(bc) && Entry(sf, j).Some?
                        && (forall m :: j < m <= Level(bc) ==> Entry(sf, m).None?)
                        ==> GetFragments(sf, bc) == Entry(sf, j).value
    ensures (forall j :: 1 <= j <= Level(bc) ==> Entry(sf, j).None?) ==> GetFragments(sf, bc) == 0
  {
    assert Entry(sf, 1) == sf.one && Entry(sf, 2) == sf.two && Entry(sf, 3) == sf.three;
    assert Entry(sf, 4) == sf.four && Entry(sf, 5) == sf.five;
  }

  /** The default table yields no fragments at any level. */
  lemma DefaultTableIsZero(bc: BossCells)
    ensures GetFragments(DefaultFragments, bc) == 0
  {
  }

  /** An exit, named by the name of the biome it leads to. */
  datatype Exit = Exit(destination: string, bossCellRequirement: Option<U8>, powerScrolls: Option<U8>)

  /** `Exit::from(String)`: an exit to `destination` with no requirement and no scrolls. */
  function ExitFrom(destination: string): (e: Exit)
    ensures e.destination == destination
    ensures e.bossCellRequirement.None? && e.powerScrolls.None?
  {
    Exit(destination, None, None)
  }

  datatype Biome = Biome(
    name: string, row: nat, column: nat,
    powerScrolls: U8, dualPowerScrolls: U8, cursedChestChance: U8,
    scrollFragments: ScrollFragments, gearLevel: U8, exits: seq<Exit>)

  /** The destinations of a biome's exits, in the order of its exits. */
  function ExitNames(b: Biome): (r: seq<string>)
    ensures |r| == |b.exits|
    ensures forall i :: 0 <= i < |b.exits| ==> r[i] == b.exits[i].destination
  {
    seq(|b.exits|, i requires 0 <= i < |b.exits| => b.exits[i].destination)
  }

  /**
   * `Biome::from((name, exits))`: a biome with that name, one exit per name in
   * order, everything else zero and the default fragment table.
   */
  function BiomeFrom(name: string, exits: seq<string>): (b: Biome)
    ensures b.name == name && ExitNames(b) == exits
    ensures forall i :: 0 <= i < |b.exits| ==> b.exits[i] == ExitFrom(exits[i])
    ensures b.row == 0 && b.column == 0 && b.gearLevel == 0
    ensures b.powerScrolls == 0 && b.dualPowerScrolls == 0 && b.cursedChestChance == 0
    ensures b.scrollFragments == DefaultFragments
  {
    Biome(name, 0, 0, 0, 0, 0, DefaultFragments, 0,
          seq(|exits|, i requires 0 <= i < |exits| => ExitFrom(exits[i])))
  }

  /** The conversion test: a biome named "name" with two bare exits and nothing else. */
  lemma BiomeFromTuple()
    ensures BiomeFrom("name", ["destination1", "destination2"])
      == Biome("name", 0, 0, 0, 0, 0, DefaultFragments, 0,
               [Exit("destination1", None, None), Exit("destination2", None, None)])
  {
    var b := BiomeFrom("name", ["destination1", "destination2"]);
    assert b.exits == [ExitFrom("destination1"), ExitFrom("destination2")];
  }
}
