/**
 * Team settings: which team each player belongs to, team names, the
 * viewpoint player, and the data-transfer settings read from a team file.
 *
 * Per-player arrays cover players 0..MaxPlayers; reading outside that range
 * yields the default value and writing outside it is ignored. Operations
 * that raise the change signal return whether they did.
 */
module TeamSettings {
  import opened Wrappers
  import opened Strings

  type Text = seq<char>

  /** The highest player number. */
  const MaxPlayers: nat := 31

  /** Number of team entries in a file header, and of players with transfer settings. */
  const NumHeaderTeams: nat := 12
  const NumDataPlayers: nat := 11

  /** The 8-byte file signature: "CCteam0" followed by the byte 26. */
  const TeamMagic: seq<int> := [0x43, 0x43, 0x74, 0x65, 0x61, 0x6D, 0x30, 26]

  datatype Settings = Settings(
    flags: int,
    viewpoint: int,
    passcode: int,
    teams: seq<int>,
    names: seq<Text>,
    sendConfig: seq<int>,
    receiveConfig: seq<int>)

  /** Every per-player array has an entry for each player 0..MaxPlayers. */
  predicate Valid(s: Settings) {
    |s.teams| == MaxPlayers + 1 && |s.names| == MaxPlayers + 1
    && |s.sendConfig| == MaxPlayers + 1 && |s.receiveConfig| == MaxPlayers + 1
  }

  predicate IsPlayer(p: int) {
    0 <= p <= MaxPlayers
  }

  /** Every player in a team of its own, no names, no viewpoint, no transfer settings. */
  function Clear(): (s: Settings)
    ensures Valid(s)
    ensures forall p | 0 <= p <= MaxPlayers :: s.teams[p] == p && s.names[p] == []
    ensures s.viewpoint == 0 && s.flags == 0 && s.passcode == 0
  {
    Settings(0, 0, 0, seq(MaxPlayers + 1, p => p), seq(MaxPlayers + 1, _ => []),
             seq(MaxPlayers + 1, _ => 0), seq(MaxPlayers + 1, _ => 0))
  }

  function Team(s: Settings, p: int): int
    requires Valid(s)
  {
    if IsPlayer(p) then s.teams[p] else 0
  }

  function Name(s: Settings, t: int): Text
    requires Valid(s)
  {
    if IsPlayer(t) then s.names[t] else []
  }

  /**
   * Moves player p to team t; the signal is raised exactly when the team
   * read for p differs from t. An out-of-range player reads as team 0, so
   * the signal is raised for any other t although nothing is stored.
   */
  function SetPlayerTeam(s: Settings, p: int, t: int): (r: (Settings, bool))
    requires Valid(s)
    ensures Valid(r.0)
    ensures r.1 <==> Team(s, p) != t
    ensures IsPlayer(p) ==> Team(r.0, p) == t
    ensures !IsPlayer(p) ==> r.0 == s
    ensures forall q | 0 <= q <= MaxPlayers && q != p :: r.0.teams[q] == s.teams[q]
    ensures r.0.(teams := s.teams) == s
  {
    if t == Team(s, p) then (s, false)
    else if IsPlayer(p) then (s.(teams := s.teams[p := t]), true)
    else (s, true)
  }

  // ---- Counting team members ----

  /** The members of team t among players lo..MaxPlayers, counted in order. */
  function CountFrom(teams: seq<int>, t: int, lo: nat): nat
    requires lo <= |teams|
    decreases |teams| - lo
  {
    if lo == |teams| then 0 else (if teams[lo] == t then 1 else 0) + CountFrom(teams, t, lo + 1)
  }

  /** The number of players 1..MaxPlayers in team t; player 0 is not counted. */
  function NumTeamMembers(s: Settings, t: int): nat
    requires Valid(s)
  {
    CountFrom(s.teams, t, 1)
  }

  /** The players from lo on in team t. */
  function MemberSet(teams: seq<int>, t: int, lo: nat): set<int> {
    set i | lo <= i < |teams| && teams[i] == t
  }

  /** The count is the size of the member set. */
  lemma {:induction false} CountIsMemberSetSize(teams: seq<int>, t: int, lo: nat)
    requires lo <= |teams|
    ensures CountFrom(teams, t, lo) == |MemberSet(teams, t, lo)|
    decreases |teams| - lo
  {
    if lo < |teams| {
      CountIsMemberSetSize(teams, t, lo + 1);
      var rest := MemberSet(teams, t, lo + 1);
      if teams[lo] == t {
        assert MemberSet(teams, t, lo) == rest + {lo};
      } else {
        assert MemberSet(teams, t, lo) == rest;
      }
    }
  }

  /** Changing one entry moves one count from the old team to the new one. */
  lemma {:induction false} CountAfterUpdate(teams: seq<int>, t: int, lo: nat, p: nat, v: int)
    requires lo <= |teams| && p < |teams|
    ensures CountFrom(teams[p := v], t, lo)
         == CountFrom(teams, t, lo) - (if lo <= p && teams[p] == t then 1 else 0) + (if lo <= p && v == t then 1 else 0)
    decreases |teams| - lo
  {
    if lo < |teams| {
      CountAfterUpdate(teams, t, lo + 1, p, v);
    }
  }

  /** The first team among lo..MaxPlayers without members. */
  function FirstEmptyTeam(s: Settings, lo: nat): (e: Option<int>)
    requires Valid(s)
    ensures e.Some? ==> lo <= e.value <= MaxPlayers && NumTeamMembers(s, e.value) == 0
    ensures e.Some? ==> forall k | lo <= k < e.value :: NumTeamMembers(s, k) != 0
    ensures e.None? ==> forall k | lo <= k <= MaxPlayers :: NumTeamMembers(s, k) != 0
    decreases MaxPlayers + 1 - lo
  {
    if lo > MaxPlayers then None
    else if NumTeamMembers(s, lo) == 0 then Some(lo)
    else FirstEmptyTeam(s, lo + 1)
  }

  /**
   * Moves player p out of a shared team: to the team with p's own number if
   * that is empty, else to the lowest-numbered empty team. A player alone in
   * the team stays.
   */
  function RemovePlayerTeam(s: Settings, p: int): (r: (Settings, bool))
    requires Valid(s)
    ensures Valid(r.0)
    ensures r.0.(teams := s.teams) == s
    ensures forall q | 0 <= q <= MaxPlayers && q != p :: r.0.teams[q] == s.teams[q]
    ensures r.1 ==> NumTeamMembers(s, Team(s, p)) > 1
    ensures r.1 && IsPlayer(p) ==> Team(r.0, p) != Team(s, p)
    ensures !IsPlayer(p) ==> r.0 == s
    ensures !r.1 ==> r.0 == s
  {
    if NumTeamMembers(s, Team(s, p)) > 1 then
      if NumTeamMembers(s, p) == 0 then SetPlayerTeam(s, p, p)
      else match FirstEmptyTeam(s, 1)
        case Some(e) => SetPlayerTeam(s, p, e)
        case None => (s, false)
    else (s, false)
  }

  /** A player with no team mate is left where it is. */
  lemma RemoveAloneIsNoop(s: Settings, p: int)
    requires Valid(s) && NumTeamMembers(s, Team(s, p)) <= 1
    ensures RemovePlayerTeam(s, p) == (s, false)
  {
  }

  /** The teams that players lo..hi-1 are in. */
  function UsedTeams(teams: seq<int>, lo: nat, hi: nat): set<int>
    requires hi <= |teams|
  {
    set i | lo <= i < hi :: teams[i]
  }

  /** The players lo..hi-1 are in at most hi - lo teams. */
  lemma {:induction false} UsedTeamsBound(teams: seq<int>, lo: nat, hi: nat)
    requires lo <= hi <= |teams|
    ensures |UsedTeams(teams, lo, hi)| <= hi - lo
    decreases hi - lo
  {
    if lo < hi {
      UsedTeamsBound(teams, lo + 1, hi);
      assert UsedTeams(teams, lo, hi) == UsedTeams(teams, lo + 1, hi) + {teams[lo]};
    }
  }

  /** When players a and b of lo..hi-1 share a team, those players are in fewer than hi - lo teams. */
  lemma {:induction false} SharedTeamBound(teams: seq<int>, lo: nat, hi: nat, a: nat, b: nat)
    requires lo <= a < b < hi <= |teams| && teams[a] == teams[b]
    ensures |UsedTeams(teams, lo, hi)| < hi - lo
    decreases hi - lo
  {
    var rest := UsedTeams(teams, lo + 1, hi);
    assert UsedTeams(teams, lo, hi) == rest + {teams[lo]};
    if a == lo {
      UsedTeamsBound(teams, lo + 1, hi);
      assert teams[lo] in rest;
    } else {
      SharedTeamBound(teams, lo + 1, hi, a, b);
    }
  }

  /** The numbers lo..hi-1. */
  function Numbers(lo: int, hi: int): (r: set<int>)
    ensures forall k :: k in r <==> lo <= k < hi
    ensures lo <= hi ==> |r| == hi - lo
    decreases hi - lo
  {
    if lo >= hi then {} else {lo} + Numbers(lo + 1, hi)
  }

  /** A team without members has no player among 1..MaxPlayers. */
  lemma NoMembers(s: Settings, e: int, i: int)
    requires Valid(s) && NumTeamMembers(s, e) == 0 && 1 <= i <= MaxPlayers
    ensures s.teams[i] != e
  {
    CountIsMemberSetSize(s.teams, e, 1);
    assert i !in MemberSet(s.teams, e, 1);
  }

  /**
   * Pigeonhole: when two of the players 1..MaxPlayers share a team, some
   * team number among 1..MaxPlayers has no member.
   */
  lemma SharedTeamLeavesEmptyTeam(s: Settings, a: int, b: int)
    requires Valid(s) && 1 <= a < b <= MaxPlayers && s.teams[a] == s.teams[b]
    ensures FirstEmptyTeam(s, 1).Some?
  {
    var used := UsedTeams(s.teams, 1, MaxPlayers + 1);
    SharedTeamBound(s.teams, 1, MaxPlayers + 1, a, b);
    var numbers := Numbers(1, MaxPlayers + 1);
    assert |numbers - used| > 0 by {
      assert |numbers - used| >= |numbers| - |used|;
    }
    var e :| e in numbers - used;
    assert MemberSet(s.teams, e, 1) == {} by {
      forall i | 1 <= i < |s.teams| ensures s.teams[i] != e {
        assert s.teams[i] in used;
      }
    }
    CountIsMemberSetSize(s.teams, e, 1);
    assert NumTeamMembers(s, e) == 0;
  }

  /** A team with more than one member has a member other than p. */
  lemma OtherMember(s: Settings, p: int) returns (q: int)
    requires Valid(s) && 1 <= p <= MaxPlayers && NumTeamMembers(s, s.teams[p]) > 1
    ensures 1 <= q <= MaxPlayers && q != p && s.teams[q] == s.teams[p]
  {
    var m := MemberSet(s.teams, s.teams[p], 1);
    CountIsMemberSetSize(s.teams, s.teams[p], 1);
    assert m - {p} != {} by {
      assert |m - {p}| >= |m| - 1;
    }
    q :| q in m - {p};
  }

  /**
   * Removing player p from a shared team leaves p alone in a team numbered
   * 1..MaxPlayers; only p's entry changes and the signal is raised. The
   * destination is team p when that team is empty, and otherwise the
   * lowest-numbered empty team.
   */
  lemma RemoveLeavesPlayerAlone(s: Settings, p: int)
    requires Valid(s) && 1 <= p <= MaxPlayers && NumTeamMembers(s, Team(s, p)) > 1
    ensures var (r, changed) := RemovePlayerTeam(s, p);
      && changed
      && 1 <= Team(r, p) <= MaxPlayers
      && NumTeamMembers(r, Team(r, p)) == 1
      && r.teams == s.teams[p := Team(r, p)]
      && NumTeamMembers(s, Team(r, p)) == 0
      && (NumTeamMembers(s, p) == 0 ==> Team(r, p) == p)
      && (NumTeamMembers(s, p) != 0 ==>
            && FirstEmptyTeam(s, 1) == Some(Team(r, p))
            && forall k | 1 <= k < Team(r, p) :: NumTeamMembers(s, k) != 0)
  {
    var q := OtherMember(s, p);
    var e: int;
    if NumTeamMembers(s, p) == 0 {
      e := p;
    } else {
      if p < q {
        SharedTeamLeavesEmptyTeam(s, p, q);
      } else {
        SharedTeamLeavesEmptyTeam(s, q, p);
      }
      e := FirstEmptyTeam(s, 1).value;
    }
    NoMembers(s, e, p);
    CountAfterUpdate(s.teams, e, 1, p, e);
  }

  // ---- Names ----

  /** The stored name of team t, or "Team <t>" when there is none. */
  function TeamName(s: Settings, t: int): (r: Text)
    requires Valid(s)
    ensures |r| > 0
  {
    if Name(s, t) == [] then "Team " + IntText(t) else Name(s, t)
  }

  predicate IsNamedTeam(s: Settings, t: int)
    requires Valid(s)
  {
    Name(s, t) != []
  }

  /** The stored name is reported exactly for named teams; the others get the default. */
  lemma TeamNameFallback(s: Settings, t: int)
    requires Valid(s)
    ensures IsNamedTeam(s, t) <==> TeamName(s, t) == Name(s, t)
    ensures !IsNamedTeam(s, t) ==> TeamName(s, t) == "Team " + IntText(t)
  {
  }

  /**
   * Renames team t; the signal is raised exactly when the name read for t
   * differs. An out-of-range team reads as unnamed, so the signal is raised
   * for any non-empty name although nothing is stored.
   */
  function SetTeamName(s: Settings, t: int, name: Text): (r: (Settings, bool))
    requires Valid(s)
    ensures Valid(r.0)
    ensures r.1 <==> Name(s, t) != name
    ensures IsPlayer(t) ==> Name(r.0, t) == name
    ensures !IsPlayer(t) ==> r.0 == s
    ensures forall q | 0 <= q <= MaxPlayers && q != t :: r.0.names[q] == s.names[q]
    ensures r.0.(names := s.names) == s
  {
    if Name(s, t) == name then (s, false)
    else if IsPlayer(t) then (s.(names := s.names[t := name]), true)
    else (s, true)
  }

  /** Whether any player of 1..MaxPlayers is in another player's team or its team has a name. */
  function AnyTeamsFrom(s: Settings, i: nat): bool
    requires Valid(s)
    decreases MaxPlayers + 1 - i
  {
    if i > MaxPlayers then false
    else if s.teams[i] != i || s.names[i] != [] then true
    else AnyTeamsFrom(s, i + 1)
  }

  function HasAnyTeams(s: Settings): bool
    requires Valid(s)
  {
    AnyTeamsFrom(s, 1)
  }

  /** The search answers the question it asks. */
  lemma {:induction false} AnyTeamsFromExists(s: Settings, i: nat)
    requires Valid(s) && 1 <= i
    ensures AnyTeamsFrom(s, i) <==> exists k | i <= k <= MaxPlayers :: s.teams[k] != k || s.names[k] != []
    decreases MaxPlayers + 1 - i
  {
    if i <= MaxPlayers {
      AnyTeamsFromExists(s, i + 1);
    }
  }

  /** A configuration has teams exactly when some player is not alone under its own number, or a team is named. */
  lemma HasAnyTeamsMeans(s: Settings)
    requires Valid(s)
    ensures HasAnyTeams(s) <==> exists k | 1 <= k <= MaxPlayers :: s.teams[k] != k || s.names[k] != []
    ensures !HasAnyTeams(Clear())
  {
    AnyTeamsFromExists(s, 1);
    AnyTeamsFromExists(Clear(), 1);
  }

  // ---- Viewpoint and relations ----

  function SetViewpointPlayer(s: Settings, p: int): (r: (Settings, bool))
    ensures r.0.viewpoint == p && (r.1 <==> s.viewpoint != p)
    ensures r.0.(viewpoint := s.viewpoint) == s
  {
    if s.viewpoint != p then (s.(viewpoint := p), true) else (s, false)
  }

  datatype Relation = ThisPlayer | AlliedPlayer | EnemyPlayer
  datatype Color = Green | Yellow | Red

  /** The viewpoint itself; a player sharing the viewpoint's non-zero team; everyone else. */
  function PlayerRelation(s: Settings, p: int): Relation
    requires Valid(s)
  {
    if p == s.viewpoint then ThisPlayer
    else if Team(s, s.viewpoint) != 0 && Team(s, p) == Team(s, s.viewpoint) then AlliedPlayer
    else EnemyPlayer
  }

  function RelationColor(r: Relation): (c: Color) {
    match r
    case ThisPlayer => Green
    case AlliedPlayer => Yellow
    case EnemyPlayer => Red
  }

  function PlayerColor(s: Settings, p: int): Color
    requires Valid(s)
  {
    RelationColor(PlayerRelation(s, p))
  }

  /** Relations and colours determine each other. */
  lemma ColorsIdentifyRelations(a: Relation, b: Relation)
    ensures RelationColor(a) == RelationColor(b) <==> a == b
  {
  }

  /**
   * Another player is shown as allied exactly when it shares the viewpoint's
   * non-zero team; so with every player in a team of its own everyone else
   * is an enemy.
   */
  lemma AlliedMeansSameTeam(s: Settings, p: int)
    requires Valid(s) && p != s.viewpoint
    ensures PlayerColor(s, p) == Yellow <==> Team(s, s.viewpoint) != 0 && Team(s, p) == Team(s, s.viewpoint)
    ensures PlayerColor(s, p) != Green
    ensures s.teams == Clear().teams && IsPlayer(p) ==> PlayerColor(s, p) == Red
  {
  }

  // ---- Loading a team file ----

  datatype Transfer = Transfer(send: seq<int>, receive: seq<int>, passcode: int)

  /**
   * A team file as read: the header's signature, flags and team bytes; each
   * of the team names, None when it could not be read; the transfer
   * settings, None when the file ends before them.
   */
  datatype TeamFile = TeamFile(signature: seq<int>, flags: int, playerTeams: seq<int>, names: seq<Option<Text>>, transfer: Option<Transfer>)

  /** The field sizes the file layout fixes. */
  predicate WellFormedFile(f: TeamFile) {
    |f.signature| == 8 && |f.playerTeams| == NumHeaderTeams && |f.names| == NumHeaderTeams
    && (f.transfer.Some? ==> |f.transfer.value.send| == NumDataPlayers && |f.transfer.value.receive| == NumDataPlayers)
  }

  datatype LoadError = MissingSignature

  /** Header team of player i (1-based), if it is a team number. */
  function HeaderTeam(f: TeamFile, i: int, current: int): int
    requires WellFormedFile(f)
  {
    if 1 <= i <= NumHeaderTeams && 0 <= f.playerTeams[i - 1] <= MaxPlayers then f.playerTeams[i - 1] else current
  }

  /**
   * Starts from the cleared settings; no file leaves them so. A file with a
   * wrong signature is rejected. Otherwise the header's team numbers are taken
   * where they are player numbers, the names that could be read replace the
   * empty ones, and complete transfer settings are taken for players 1..11.
   */
  function Load(file: Option<TeamFile>): (r: Result<Settings, LoadError>)
    requires file.Some? ==> WellFormedFile(file.value)
    ensures r.Success? ==> Valid(r.value)
    ensures file.None? ==> r == Success(Clear())
    ensures file.Some? ==> (r.Failure? <==> file.value.signature != TeamMagic)
  {
    var c := Clear();
    match file
    case None => Success(c)
    case Some(f) =>
      if f.signature != TeamMagic then Failure(MissingSignature)
      else
        var teams := seq(MaxPlayers + 1, i requires 0 <= i <= MaxPlayers => HeaderTeam(f, i, c.teams[i]));
        var names := seq(MaxPlayers + 1, i requires 0 <= i <= MaxPlayers =>
                       if 1 <= i <= NumHeaderTeams && f.names[i - 1].Some? then f.names[i - 1].value else c.names[i]);
        match f.transfer
        case Some(t) =>
          var send := seq(MaxPlayers + 1, i requires 0 <= i <= MaxPlayers => if 1 <= i <= NumDataPlayers then t.send[i - 1] else 0);
          var receive := seq(MaxPlayers + 1, i requires 0 <= i <= MaxPlayers => if 1 <= i <= NumDataPlayers then t.receive[i - 1] else 0);
          Success(Settings(f.flags, 0, t.passcode, teams, names, send, receive))
        case None =>
          Success(Settings(f.flags, 0, 0, teams, names, c.sendConfig, c.receiveConfig))
  }

  /**
   * After loading, player i of 1..12 is in the header's team when that is a
   * player number and otherwise keeps its own team; players beyond the
   * header and player 0 keep their own team; the viewpoint is 0.
   */
  lemma LoadFiltersTeams(f: TeamFile, i: int)
    requires WellFormedFile(f) && f.signature == TeamMagic && IsPlayer(i)
    ensures Load(Some(f)).Success?
    ensures var s := Load(Some(f)).value;
      && s.viewpoint == 0 && s.flags == f.flags
      && (1 <= i <= NumHeaderTeams && 0 <= f.playerTeams[i - 1] <= MaxPlayers ==> Team(s, i) == f.playerTeams[i - 1])
      && (1 <= i <= NumHeaderTeams && !(0 <= f.playerTeams[i - 1] <= MaxPlayers) ==> Team(s, i) == i)
      && (i == 0 || i > NumHeaderTeams ==> Team(s, i) == i && Name(s, i) == [])
  {
  }

  /**
   * After loading, team i of 1..12 has the name the file gives, or none when
   * the file's name could not be read; a complete transfer block sets the
   * send and receive settings of players 1..11 and the passcode, and without
   * one they stay 0.
   */
  lemma LoadReadsNamesAndTransfer(f: TeamFile, i: int)
    requires WellFormedFile(f) && f.signature == TeamMagic && IsPlayer(i)
    ensures Load(Some(f)).Success?
    ensures var s := Load(Some(f)).value;
      && (1 <= i <= NumHeaderTeams ==> Name(s, i) == (if f.names[i - 1].Some? then f.names[i - 1].value else []))
      && (f.transfer.Some? ==> s.passcode == f.transfer.value.passcode)
      && (f.transfer.Some? && 1 <= i <= NumDataPlayers ==>
            s.sendConfig[i] == f.transfer.value.send[i - 1] && s.receiveConfig[i] == f.transfer.value.receive[i - 1])
      && (f.transfer.None? || !(1 <= i <= NumDataPlayers) ==> s.sendConfig[i] == 0 && s.receiveConfig[i] == 0)
      && (f.transfer.None? ==> s.passcode == 0)
  {
  }
}
