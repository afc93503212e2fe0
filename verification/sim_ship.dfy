/**
 * A ship in the combat simulator: its defaults, how choosing a hull derives
 * the weapons loadout from the ship list, whether a ship is consistent with
 * a ship list, and which abilities its configuration implies.
 */
module SimShip {

  /** The hull data the simulator reads from the ship list. */
  datatype Hull = Hull(maxBeams: nat, numBays: nat, maxLaunchers: nat, maxCargo: nat, maxCrew: nat, mass: nat)

  /** The hulls by number, and the number of beam and torpedo types. */
  datatype ShipList = ShipList(hulls: map<int, Hull>, numBeamTypes: nat, numTorpedoTypes: nat)

  /** The simulator's aggressiveness settings; their numeric codes live in a header not modelled here. */
  datatype Aggressiveness = Passive | Kill | NoFuel | Other(code: int)

  datatype Ship = Ship(
    owner: int,
    experienceLevel: int,
    crew: int,
    hullType: int,
    mass: int,
    beamType: int,
    numBeams: int,
    torpedoType: int,
    numLaunchers: int,
    numBays: int,
    ammo: int,
    engineType: int,
    aggressiveness: Aggressiveness,
    interceptId: int)

  /**
   * A new ship: 10 crew, no hull, mass 100, engine 1, passive, no weapons.
   * Owner and experience level belong to the simulator object part, which is
   * not modelled here, and are taken as given.
   */
  function NewShip(owner: int, experienceLevel: int): (s: Ship)
    ensures s.crew == 10 && s.hullType == 0 && s.mass == 100 && s.engineType == 1 && s.aggressiveness == Passive
    ensures s.beamType == 0 && s.numBeams == 0 && s.torpedoType == 0 && s.numLaunchers == 0 && s.numBays == 0
    ensures s.ammo == 0 && s.interceptId == 0
    ensures s.owner == owner && s.experienceLevel == experienceLevel
  {
    Ship(owner, experienceLevel, 10, 0, 100, 0, 0, 0, 0, 0, 0, 1, Passive, 0)
  }

  /** A custom ship has no hull from the ship list. */
  predicate IsCustomShip(s: Ship) {
    s.hullType == 0
  }

  /**
   * Chooses a hull. For a hull the list knows, the beam count, the
   * launchers or bays with their ammunition, the crew and the mass are taken
   * from the hull; a ship that had no beam type gets the last beam type, a
   * torpedo ship the last torpedo type. The second component says whether
   * the ship changed.
   */
  function SetHullType(s: Ship, hullType: int, list: ShipList): (r: (Ship, bool))
    ensures r.1 <==> hullType != s.hullType
    ensures r.0.hullType == hullType
  {
    if hullType == s.hullType then (s, false)
    else if hullType !in list.hulls then (s.(hullType := hullType), true)
    else
      var hull := list.hulls[hullType];
      var beamType := if hull.maxBeams != 0 && s.beamType == 0 then list.numBeamTypes else s.beamType;
      var armed :=
        if hull.numBays != 0 then
          s.(numLaunchers := 0, torpedoType := 0, numBays := hull.numBays, ammo := hull.maxCargo)
        else if hull.maxLaunchers != 0 then
          s.(numLaunchers := hull.maxLaunchers, torpedoType := list.numTorpedoTypes, numBays := 0, ammo := hull.maxCargo)
        else
          s.(numLaunchers := 0, torpedoType := 0, numBays := 0, ammo := 0);
      (armed.(hullType := hullType, numBeams := hull.maxBeams, beamType := beamType, crew := hull.maxCrew, mass := hull.mass), true)
  }

  /** Choosing the current hull again changes nothing. */
  lemma SameHullIsNoop(s: Ship, list: ShipList)
    ensures SetHullType(s, s.hullType, list) == (s, false)
  {
  }

  /** Choosing a hull the list does not know changes only the hull number. */
  lemma UnknownHullOnlyRenumbers(s: Ship, hullType: int, list: ShipList)
    requires hullType != s.hullType && hullType !in list.hulls
    ensures SetHullType(s, hullType, list).0 == s.(hullType := hullType)
  {
  }

  /**
   * The loadout a known hull gives: bays with full ammunition for a carrier,
   * all launchers of the last torpedo type with full ammunition for a torpedo
   * ship, no secondary weapons otherwise; always all beams, the hull's crew
   * and mass, and a beam type only when the ship had none and the hull has
   * beams. Owner, experience, engine, aggressiveness and intercept stay.
   */
  lemma KnownHullLoadout(s: Ship, hullType: int, list: ShipList)
    requires hullType != s.hullType && hullType in list.hulls
    ensures var r := SetHullType(s, hullType, list).0;
      var hull := list.hulls[hullType];
      && r.numBeams == hull.maxBeams && r.crew == hull.maxCrew && r.mass == hull.mass
      && (r.beamType != s.beamType <==> s.beamType == 0 && hull.maxBeams != 0 && list.numBeamTypes != 0)
      && (r.beamType != s.beamType ==> r.beamType == list.numBeamTypes)
      && (hull.numBays != 0 ==>
            r.numBays == hull.numBays && r.numLaunchers == 0 && r.torpedoType == 0 && r.ammo == hull.maxCargo)
      && (hull.numBays == 0 && hull.maxLaunchers != 0 ==>
            r.numBays == 0 && r.numLaunchers == hull.maxLaunchers && r.torpedoType == list.numTorpedoTypes && r.ammo == hull.maxCargo)
      && (hull.numBays == 0 && hull.maxLaunchers == 0 ==>
            r.numBays == 0 && r.numLaunchers == 0 && r.torpedoType == 0 && r.ammo == 0)
      && r.owner == s.owner && r.experienceLevel == s.experienceLevel && r.engineType == s.engineType
      && r.aggressiveness == s.aggressiveness && r.interceptId == s.interceptId
  {
  }

  /**
   * Whether the ship fits the ship list: a custom ship always does; otherwise
   * the hull must be known, beams and launchers within the hull's maximum,
   * bays exactly the hull's, and ammunition within its cargo.
   */
  predicate IsMatchingShipList(s: Ship, list: ShipList) {
    if IsCustomShip(s) then true
    else if s.hullType !in list.hulls then false
    else
      var hull := list.hulls[s.hullType];
      s.numBeams <= hull.maxBeams && s.numLaunchers <= hull.maxLaunchers
      && s.numBays == hull.numBays && s.ammo <= hull.maxCargo
  }

  /** A ship whose hull was just derived from the list fits the list. */
  lemma DerivedLoadoutMatches(s: Ship, hullType: int, list: ShipList)
    requires hullType != s.hullType && (hullType in list.hulls || hullType == 0)
    ensures IsMatchingShipList(SetHullType(s, hullType, list).0, list)
  {
  }

  /** A ship with a hull the list does not know never fits it. */
  lemma UnknownHullNeverMatches(s: Ship, list: ShipList)
    requires !IsCustomShip(s) && s.hullType !in list.hulls
    ensures !IsMatchingShipList(s, list)
  {
  }

  /** A new ship is a custom ship and fits every ship list. */
  lemma DefaultShipMatches(owner: int, level: int, list: ShipList)
    ensures IsCustomShip(NewShip(owner, level)) && IsMatchingShipList(NewShip(owner, level), list)
  {
  }

  // ---- Implied abilities ----

  datatype Ability =
    | PlanetImmunityAbility | FullWeaponryAbility | CommanderAbility | TripleBeamKillAbility
    | DoubleBeamChargeAbility | DoubleTorpedoChargeAbility | ElusiveAbility | SquadronAbility
    | ShieldGeneratorAbility | CloakedBaysAbility

  /** Abilities a ship only has when they are set on it explicitly. */
  predicate ExplicitOnly(a: Ability) {
    a in {DoubleBeamChargeAbility, DoubleTorpedoChargeAbility, ElusiveAbility, SquadronAbility,
          ShieldGeneratorAbility, CloakedBaysAbility}
  }

  datatype BasicFunction = PlanetImmunity | FullWeaponry | Commander

  /**
   * What the configuration and the ship list say: each player's race, the
   * two "planets attack" options, and which players can use a basic hull
   * function on a hull at an experience level.
   */
  datatype Environment = Environment(
    raceOf: int -> int,
    planetsAttackKlingons: bool,
    planetsAttackRebels: bool,
    playersThatCan: (BasicFunction, int, int) -> set<int>)

  predicate HasHullFunction(s: Ship, env: Environment, f: BasicFunction) {
    s.owner in env.playersThatCan(f, s.hullType, s.experienceLevel)
  }

  /** The abilities a ship has from its configuration rather than from explicit settings. */
  predicate HasImpliedAbility(s: Ship, which: Ability, env: Environment) {
    match which
    case PlanetImmunityAbility =>
      HasHullFunction(s, env, PlanetImmunity)
      || (env.raceOf(s.owner) == 4 && !env.planetsAttackKlingons)
      || (env.raceOf(s.owner) == 10 && !env.planetsAttackRebels)
    case FullWeaponryAbility => HasHullFunction(s, env, FullWeaponry)
    case CommanderAbility => HasHullFunction(s, env, Commander)
    case TripleBeamKillAbility => env.raceOf(s.owner) == 5
    case _ => false
  }

  /**
   * Triple beam kill comes with race 5; Klingon and Rebel ships are immune
   * to planets unless planets may attack them; the six explicit-only
   * abilities are never implied.
   */
  lemma ImpliedAbilities(s: Ship, env: Environment, which: Ability)
    ensures HasImpliedAbility(s, TripleBeamKillAbility, env) <==> env.raceOf(s.owner) == 5
    ensures env.raceOf(s.owner) == 4 && !env.planetsAttackKlingons ==> HasImpliedAbility(s, PlanetImmunityAbility, env)
    ensures env.raceOf(s.owner) == 10 && !env.planetsAttackRebels ==> HasImpliedAbility(s, PlanetImmunityAbility, env)
    ensures ExplicitOnly(which) ==> !HasImpliedAbility(s, which, env)
  {
  }
}
