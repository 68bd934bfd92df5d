/**
 * The id-keyed data model of the route engine: biome identities, the tiered
 * scroll-fragment table with its fallback lookup, exits and biomes.
 */
module Models {
  import opened Wrappers

  /** The closed set of biome identities. */
  datatype Id =
    | Prisonquart | Arboretum | Promenade | Toxicsewers | Prisondepths
    | Corruptedprison | Morass | Ossuary | Ramparts | Ancientsewers
    | Nest | Bridge | Crypt | Stilt | Slumbering
    | Graveyard | Clocktower | Sepulcher | Cavern | Clockroom
    | Haven | Castle | Throne | Lab | Observatory

  /** `Display` of an id: it delegates to `Debug`, which prints the variant name. */
  function Display(id: Id): (r: string)
    ensures |r| > 0 && 'A' <= r[0] <= 'Z'
  {
    match id
    case Prisonquart => "Prisonquart"
    case Arboretum => "Arboretum"
    case Promenade => "Promenade"
    case Toxicsewers => "Toxicsewers"
    case Prisondepths => "Prisondepths"
    case Corruptedprison => "Corruptedprison"
    case Morass => "Morass"
    case Ossuary => "Ossuary"
    case Ramparts => "Ramparts"
    case Ancientsewers => "Ancientsewers"
    case Nest => "Nest"
    case Bridge => "Bridge"
    case Crypt => "Crypt"
    case Stilt => "Stilt"
    case Slumbering => "Slumbering"
    case Graveyard => "Graveyard"
    case Clocktower => "Clocktower"
    case Sepulcher => "Sepulcher"
    case Cavern => "Cavern"
    case Clockroom => "Clockroom"
    case Haven => "Haven"
    case Castle => "Castle"
    case Throne => "Throne"
    case Lab => "Lab"
    case Observatory => "Observatory"
  }

  /** The name each variant is serialized under (its serde rename). */
  function SerdeName(id: Id): (r: string)
    ensures |r| > 0 && 'a' <= r[0] <= 'z'
  {
    match id
    case Prisonquart => "prisonquart"
    case Arboretum => "arboretum"
    case Promenade => "promenade"
    case Toxicsewers => "toxicsewers"
    case Prisondepths => "prisondepths"
    case Corruptedprison => "corruptedprison"
    case Morass => "morass"
    case Ossuary => "ossuary"
    case Ramparts => "ramparts"
    case Ancientsewers => "ancientsewers"
    case Nest => "nest"
    case Bridge => "bridge"
    case Crypt => "crypt"
    case Stilt => "stilt"
    case Slumbering => "slumbering"
    case Graveyard => "graveyard"
    case Clocktower => "clocktower"
    case Sepulcher => "sepulcher"
    case Cavern => "cavern"
    case Clockroom => "clockroom"
    case Haven => "haven"
    case Castle => "castle"
    case Throne => "throne"
    case Lab => "lab"
    case Observatory => "observatory"
  }

  /**
   * Deserialization of an id from its serde name; `None` for an unknown name.
   * The names are told apart by their first letter, then compared whole.
   */
  function FromSerdeName(s: string): (r: Option<Id>)
    ensures r.Some? ==> SerdeName(r.value) == s
  {
    if s == [] then None
    else match s[0]
      case 'p' => FromP(s)
      case 'a' => FromA(s)
      case 't' => FromT(s)
      case 'c' => FromC(s)
      case 'o' => FromO(s)
      case 's' => FromS(s)
      case 'm' => if s == "morass" then Some(Morass) else None
      case 'r' => if s == "ramparts" then Some(Ramparts) else None
      case 'n' => if s == "nest" then Some(Nest) else None
      case 'b' => if s == "bridge" then Some(Bridge) else None
      case 'g' => if s == "graveyard" then Some(Graveyard) else None
      case 'h' => if s == "haven" then Some(Haven) else None
      case 'l' => if s == "lab" then Some(Lab) else None
      case _ => None
  }

  // The names sharing a first letter, one helper per letter so that each
  // proof of the contract unfolds only a few names.

  function FromP(s: string): (r: Option<Id>)
    ensures r.Some? ==> SerdeName(r.value) == s
  {
    if s == "prisonquart" then Some(Prisonquart)
    else if s == "promenade" then Some(Promenade)
    else if s == "prisondepths" then Some(Prisondepths)
    else None
  }

  function FromA(s: string): (r: Option<Id>)
    ensures r.Some? ==> SerdeName(r.value) == s
  {
    if s == "arboretum" then Some(Arboretum)
    else if s == "ancientsewers" then Some(Ancientsewers)
    else None
  }

  function FromT(s: string): (r: Option<Id>)
    ensures r.Some? ==> SerdeName(r.value) == s
  {
    if s == "toxicsewers" then Some(Toxicsewers)
    else if s == "throne" then Some(Throne)
    else None
  }

  function FromC(s: string): (r: Option<Id>)
    ensures r.Some? ==> SerdeName(r.value) == s
  {
    if s == "corruptedprison" then Some(Corruptedprison)
    else if s == "crypt" then Some(Crypt)
    else if s == "clocktower" then Some(Clocktower)
    else if s == "cavern" then Some(Cavern)
    else if s == "clockroom" then Some(Clockroom)
    else if s == "castle" then Some(Castle)
    else None
  }

  function FromO(s: string): (r: Option<Id>)
    ensures r.Some? ==> SerdeName(r.value) == s
  {
    if s == "ossuary" then Some(Ossuary)
    else if s == "observatory" then Some(Observatory)
    else None
  }

  function FromS(s: string): (r: Option<Id>)
    ensures r.Some? ==> SerdeName(r.value) == s
  {
    if s == "stilt" then Some(Stilt)
    else if s == "slumbering" then Some(Slumbering)
    else if s == "sepulcher" then Some(Sepulcher)
    else None
  }

  /** ASCII lower-casing of one character (the only characters ids contain). */
  function LowerChar(c: char): (r: char)
    ensures 'A' <= c <= 'Z' ==> 'a' <= r <= 'z' && r as int - 'a' as int == c as int - 'A' as int
    ensures !('A' <= c <= 'Z') ==> r == c
  {
    if 'A' <= c <= 'Z' then (c as int + 32) as char else c
  }

  /** `to_lowercase` restricted to ASCII text. */
  function Lower(s: string): (r: string)
    ensures |r| == |s|
    ensures forall i :: 0 <= i < |s| ==> if 'A' <= s[i] <= 'Z' then r[i] as int == s[i] as int + 32 else r[i] == s[i]
  {
    seq(|s|, i requires 0 <= i < |s| => LowerChar(s[i]))
  }

  /** Lower-casing the `Display` of an id gives exactly its serde name. */
  lemma DisplayLowerIsSerdeName(id: Id)
    ensures Lower(Display(id)) == SerdeName(id)
  {
    if id.Prisonquart? || id.Arboretum? || id.Promenade? || id.Toxicsewers? || id.Prisondepths? {
      DisplayLowerPart1(id);
    } else if id.Corruptedprison? || id.Morass? || id.Ossuary? || id.Ramparts? || id.Ancientsewers? {
      DisplayLowerPart2(id);
    } else if id.Nest? || id.Bridge? || id.Crypt? || id.Stilt? || id.Slumbering? {
      DisplayLowerPart3(id);
    } else if id.Graveyard? || id.Clocktower? || id.Sepulcher? || id.Cavern? || id.Clockroom? {
      DisplayLowerPart4(id);
    } else {
      DisplayLowerPart5(id);
    }
  }

  // The five variants of each part are unfolded by a lemma of their own: all
  // twenty-five names in one proof exceed the solver's budget.
  lemma DisplayLowerPart1(id: Id)
    requires id.Prisonquart? || id.Arboretum? || id.Promenade? || id.Toxicsewers? || id.Prisondepths?
    ensures Lower(Display(id)) == SerdeName(id)
  {
    if id.Prisonquart? { assert Lower("Prisonquart") == "prisonquart"; }
    if id.Arboretum? { assert Lower("Arboretum") == "arboretum"; }
    if id.Promenade? { assert Lower("Promenade") == "promenade"; }
    if id.Toxicsewers? { assert Lower("Toxicsewers") == "toxicsewers"; }
    if id.Prisondepths? { assert Lower("Prisondepths") == "prisondepths"; }
  }

  lemma DisplayLowerPart2(id: Id)
    requires id.Corruptedprison? || id.Morass? || id.Ossuary? || id.Ramparts? || id.Ancientsewers?
    ensures Lower(Display(id)) == SerdeName(id)
  {
    if id.Corruptedprison? { assert Lower("Corruptedprison") == "corruptedprison"; }
    if id.Morass? { assert Lower("Morass") == "morass"; }
    if id.Ossuary? { assert Lower("Ossuary") == "ossuary"; }
    if id.Ramparts? { assert Lower("Ramparts") == "ramparts"; }
    if id.Ancientsewers? { assert Lower("Ancientsewers") == "ancientsewers"; }
  }

  lemma DisplayLowerPart3(id: Id)
    requires id.Nest? || id.Bridge? || id.Crypt? || id.Stilt? || id.Slumbering?
    ensures Lower(Display(id)) == SerdeName(id)
  {
    if id.Nest? { assert Lower("Nest") == "nest"; }
    if id.Bridge? { assert Lower("Bridge") == "bridge"; }
    if id.Crypt? { assert Lower("Crypt") == "crypt"; }
    if id.Stilt? { assert Lower("Stilt") == "stilt"; }
    if id.Slumbering? { assert Lower("Slumbering") == "slumbering"; }
  }

  lemma DisplayLowerPart4(id: Id)
    requires id.Graveyard? || id.Clocktower? || id.Sepulcher? || id.Cavern? || id.Clockroom?
    ensures Lower(Display(id)) == SerdeName(id)
  {
    if id.Graveyard? { assert Lower("Graveyard") == "graveyard"; }
    if id.Clocktower? { assert Lower("Clocktower") == "clocktower"; }
    if id.Sepulcher? { assert Lower("Sepulcher") == "sepulcher"; }
    if id.Cavern? { assert Lower("Cavern") == "cavern"; }
    if id.Clockroom? { assert Lower("Clockroom") == "clockroom"; }
  }

  lemma DisplayLowerPart5(id: Id)
    requires id.Haven? || id.Castle? || id.Throne? || id.Lab? || id.Observatory?
    ensures Lower(Display(id)) == SerdeName(id)
  {
    if id.Haven? { assert Lower("Haven") == "haven"; }
    if id.Castle? { assert Lower("Castle") == "castle"; }
    if id.Throne? { assert Lower("Throne") == "throne"; }
    if id.Lab? { assert Lower("Lab") == "lab"; }
    if id.Observatory? { assert Lower("Observatory") == "observatory"; }
  }

  /** Deserializing the serde name of an id gives the id back. */
  lemma SerdeNameRoundTrip(id: Id)
    ensures FromSerdeName(SerdeName(id)) == Some(id)
  {
  }

  /** Distinct ids have distinct serde names, hence distinct lower-cased displays. */
  lemma SerdeNameInjective(a: Id, b: Id)
    ensures SerdeName(a) == SerdeName(b) <==> a == b
    ensures Lower(Display(a)) == Lower(Display(b)) <==> a == b
  {
    SerdeNameRoundTrip(a);
    SerdeNameRoundTrip(b);
    DisplayLowerIsSerdeName(a);
    DisplayLowerIsSerdeName(b);
  }

  /** No serde name contains the dash that separates the two halves of an edge id. */
  lemma SerdeNameHasNoDash(id: Id)
    ensures '-' !in SerdeName(id)
    ensures '-' !in Lower(Display(id))
  {
    DisplayLowerIsSerdeName(id);
    if id.Prisonquart? || id.Arboretum? || id.Promenade? || id.Toxicsewers? || id.Prisondepths? {
      NoDashPart1(id);
    } else if id.Corruptedprison? || id.Morass? || id.Ossuary? || id.Ramparts? || id.Ancientsewers? {
      NoDashPart2(id);
    } else if id.Nest? || id.Bridge? || id.Crypt? || id.Stilt? || id.Slumbering? {
      NoDashPart3(id);
    } else if id.Graveyard? || id.Clocktower? || id.Sepulcher? || id.Cavern? || id.Clockroom? {
      NoDashPart4(id);
    } else {
      NoDashPart5(id);
    }
  }

  // Split by five variants for the same reason as the parts above.
  lemma NoDashPart1(id: Id)
    requires id.Prisonquart? || id.Arboretum? || id.Promenade? || id.Toxicsewers? || id.Prisondepths?
    ensures '-' !in SerdeName(id)
  {
  }

  lemma NoDashPart2(id: Id)
    requires id.Corruptedprison? || id.Morass? || id.Ossuary? || id.Ramparts? || id.Ancientsewers?
    ensures '-' !in SerdeName(id)
  {
  }

  lemma NoDashPart3(id: Id)
    requires id.Nest? || id.Bridge? || id.Crypt? || id.Stilt? || id.Slumbering?
    ensures '-' !in SerdeName(id)
  {
  }

  lemma NoDashPart4(id: Id)
    requires id.Graveyard? || id.Clocktower? || id.Sepulcher? || id.Cavern? || id.Clockroom?
    ensures '-' !in SerdeName(id)
  {
  }

  lemma NoDashPart5(id: Id)
    requires id.Haven? || id.Castle? || id.Throne? || id.Lab? || id.Observatory?
    ensures '-' !in SerdeName(id)
  {
  }

  /** The boss-cell (difficulty) level the player has unlocked. */
  datatype BossCells = Zero | One | Two | Three | Four | Five

  function Level(bc: BossCells): (r: nat)
    ensures r <= 5
  {
    match bc
    case Zero => 0
    case One => 1
    case Two => 2
    case Three => 3
    case Four => 4
    case Five => 5
  }

  /** The boss-cell level with the given number. */
  function BossCellsOf(k: nat): (bc: BossCells)
    requires k <= 5
    ensures Level(bc) == k
  {
    if k == 0 then Zero else if k == 1 then One else if k == 2 then Two
    else if k == 3 then Three else if k == 4 then Four else Five
  }

  /** A sparse table of scroll fragments per boss-cell level 0..5. */
  datatype ScrollFragments = ScrollFragments(
    zero: Option<U8>, one: Option<U8>, two: Option<U8>,
    three: Option<U8>, four: Option<U8>, five: Option<U8>)

  /** `ScrollFragments::default()`: no level is defined. */
  const DefaultFragments := ScrollFragments(None, None, None, None, None, None)

  /** The entry of the table at level `k`. */
  function Entry(sf: ScrollFragments, k: nat): Option<U8>
    requires k <= 5
  {
    if k == 0 then sf.zero else if k == 1 then sf.one else if k == 2 then sf.two
    else if k == 3 then sf.three else if k == 4 then sf.four else sf.five
  }

  /** The table with the entry at level `k` replaced by `v`. */
  function WithEntry(sf: ScrollFragments, k: nat, v: Option<U8>): (r: ScrollFragments)
    requires k <= 5
    ensures Entry(r, k) == v
    ensures forall j :: 0 <= j <= 5 && j != k ==> Entry(r, j) == Entry(sf, j)
  {
    if k == 0 then sf.(zero := v) else if k == 1 then sf.(one := v)
    else if k == 2 then sf.(two := v) else if k == 3 then sf.(three := v)
    else if k == 4 then sf.(four := v) else sf.(five := v)
  }

  /**
   * The fragments found at a boss-cell level: each level falls back to the
   * level below when it is not defined, and to 0 below level 0.
   * The result is the entry of the greatest defined level not above `bc`.
   */
  function GetFragments(sf: ScrollFragments, bc: BossCells): (r: U8)
    ensures Entry(sf, Level(bc)).Some? ==> r == Entry(sf, Level(bc)).value
    ensures r == 0 || exists j :: 0 <= j <= Level(bc) && Entry(sf, j) == Some(r)
  {
    assert Entry(sf, 0) == sf.zero && Entry(sf, 1) == sf.one && Entry(sf, 2) == sf.two;
    assert Entry(sf, 3) == sf.three && Entry(sf, 4) == sf.four && Entry(sf, 5) == sf.five;
    var zero := sf.zero;
    var one := OptionOr(sf.one, zero);
    var two := OptionOr(sf.two, one);
    var three := OptionOr(sf.three, two);
    var four := OptionOr(sf.four, three);
    var five := OptionOr(sf.five, four);
    match bc
    case Zero => UnwrapOr(zero, 0)
    case One => UnwrapOr(one, 0)
    case Two => UnwrapOr(two, 0)
    case Three => UnwrapOr(three, 0)
    case Four => UnwrapOr(four, 0)
    case Five => UnwrapOr(five, 0)
  }

  /** Rust's `Option::or`. */
  function OptionOr<T>(a: Option<T>, b: Option<T>): (r: Option<T>)
    ensures a.Some? ==> r == a
    ensures a.None? ==> r == b
  {
    if a.Some? then a else b
  }

  /** Rust's `Option::unwrap_or`. */
  function UnwrapOr<T>(a: Option<T>, d: T): (r: T)
    ensures a.Some? ==> r == a.value
    ensures a.None? ==> r == d
  {
    if a.Some? then a.value else d
  }

  /**
   * The lookup at `bc` is the entry of the greatest defined level not above
   * `bc`, or 0 when no such level is defined.
   */
  lemma GetFragmentsIsGreatestDefinedLevel(sf: ScrollFragments, bc: BossCells)
    ensures forall j :: 0 <= j <= Level(bc) && Entry(sf, j).Some?
                        && (forall m :: j < m <= Level(bc) ==> Entry(sf, m).None?)
                        ==> GetFragments(sf, bc) == Entry(sf, j).value
    ensures (forall j :: 0 <= j <= Level(bc) ==> Entry(sf, j).None?) ==> GetFragments(sf, bc) == 0
  {
    assert Entry(sf, 0) == sf.zero && Entry(sf, 1) == sf.one && Entry(sf, 2) == sf.two;
    assert Entry(sf, 3) == sf.three && Entry(sf, 4) == sf.four && Entry(sf, 5) == sf.five;
  }

  /** A level that is defined is read exactly, without falling back. */
  lemma DefinedLevelIsExact(sf: ScrollFragments, bc: BossCells)
    requires Entry(sf, Level(bc)).Some?
    ensures GetFragments(sf, bc) == Entry(sf, Level(bc)).value
  {
  }

  /** Level zero reads only the zero entry. */
  lemma ZeroReadsOnlyZero(sf: ScrollFragments)
    ensures GetFragments(sf, Zero) == UnwrapOr(sf.zero, 0)
  {
  }

  /** The default table yields no fragments at any level. */
  lemma DefaultTableIsZero(bc: BossCells)
    ensures GetFragments(DefaultFragments, bc) == 0
  {
  }

  /** Changing the entry at level `k` changes nothing below level `k`. */
  lemma EntryChangeAffectsOnlyHigherLevels(sf: ScrollFragments, k: nat, v: Option<U8>, bc: BossCells)
    requires k <= 5 && Level(bc) < k
    ensures GetFragments(WithEntry(sf, k, v), bc) == GetFragments(sf, bc)
  {
  }

  /**
   * The fallback lookup is not monotone in the level: a higher level may be
   * defined with fewer fragments than a lower one.
   */
  lemma LookupNotMonotone()
    ensures GetFragments(ScrollFragments(None, Some(10), Some(2), None, None, None), Two)
          < GetFragments(ScrollFragments(None, Some(10), Some(2), None, None, None), One)
  {
  }

  /** An exit from one biome to another. */
  datatype Exit = Exit(destination: Id, bossCellRequirement: Option<U8>, powerScrolls: Option<U8>)

  /** `Exit::from(id)`: an ungated exit without bonus scrolls. */
  function ExitFrom(destination: Id): (e: Exit)
    ensures e.destination == destination
    ensures e.bossCellRequirement == None && e.powerScrolls == None
  {
    Exit(destination, None, None)
  }

  /** A biome: one level of the game, with its collectibles and its exits. */
  datatype Biome = Biome(
    id: Id, name: string, row: nat, column: nat,
    powerScrolls: U8, dualPowerScrolls: U8, cursedChestChance: U8,
    scrollFragments: ScrollFragments, gearLevel: U8,
    exits: seq<Exit>, enabled: bool)
}
