/**
 The lobby tables and what one transaction does to them: create, join, leave, configure, nominate,
 start a round, end a round. A refused transaction leaves the tables as they were.
 */
module LobbyTables {
  import opened Wrappers
  import opened RoundRoles
  import opened HidingSlots

  datatype Lobby = Lobby(host: string, isPrivate: bool, passwordHash: string, maxPlayers: int, version: nat,
                         closed: bool, configuration: Configuration, hasMap: bool)

  datatype Membership = Membership(lobby: string, player: string, joinedAt: nat, open: bool, nominated: bool)

  datatype HostReason = Creator | HostLeft | HostDisconnected | OtherReason

  datatype HostAssignment = HostAssignment(lobby: string, player: string, reason: HostReason, open: bool)

  datatype Status = Active | Completed | Aborted

  /** Who plays which role, and how many slots there are to hide in. */
  datatype Cast = Cast(targets: nat, assignments: seq<Assignment>)

  /** `participants` are the players the round was started with. */
  datatype GameRound = GameRound(lobby: string, sequence: nat, status: Status, participants: set<string>,
                                 configuration: Configuration, cast: Cast)

  datatype Tables = Tables(lobbies: map<string, Lobby>, members: seq<Membership>, hosts: seq<HostAssignment>,
                           rounds: seq<GameRound>)

  const NO_LOBBIES := Tables(map[], [], [], [])

  datatype Problem =
    | NotFound | Closed | WrongPassword | InAnotherLobby | Full | RoundIsActive | HostRequired | VersionChanged
    | MembershipRequired | InvalidRequest | NoMap | TooFewPlayers | Internal

  // ---- Reading ----------------------------------------------------------------------------------------

  predicate IsOpenIn(member: Membership, lobby: string) {
    member.open && member.lobby == lobby
  }

  /** The row of the open membership of a player, if there is one. */
  function OpenMembership(members: seq<Membership>, player: string): Option<nat> {
    if members == [] then None
    else
      var n := |members| - 1;
      var earlier := OpenMembership(members[..n], player);
      if earlier.Some? then earlier
      else if members[n].open && members[n].player == player then Some(n)
      else None
  }

  function CountOpen(members: seq<Membership>, lobby: string): nat {
    if members == [] then 0
    else CountOpen(members[..|members| - 1], lobby) + if IsOpenIn(members[|members| - 1], lobby) then 1 else 0
  }

  function OpenPlayers(members: seq<Membership>, lobby: string): set<string> {
    set m | m in members && IsOpenIn(m, lobby) :: m.player
  }

  /** The open membership with the smallest join stamp; of equal ones, the first row. */
  function EarliestOpen(members: seq<Membership>, lobby: string): Option<nat> {
    if members == [] then None
    else
      var n := |members| - 1;
      var earlier := EarliestOpen(members[..n], lobby);
      if !IsOpenIn(members[n], lobby) then earlier
      else if earlier.Some? && earlier.value < n && members[earlier.value].joinedAt <= members[n].joinedAt then earlier
      else Some(n)
  }

  function OpenHost(hosts: seq<HostAssignment>, lobby: string): Option<string> {
    if hosts == [] then None
    else
      var n := |hosts| - 1;
      var earlier := OpenHost(hosts[..n], lobby);
      if earlier.Some? then earlier
      else if hosts[n].open && hosts[n].lobby == lobby then Some(hosts[n].player)
      else None
  }

  predicate ActiveRoundExists(rounds: seq<GameRound>, lobby: string) {
    exists i :: 0 <= i < |rounds| && rounds[i].lobby == lobby && rounds[i].status == Active
  }

  function NextVersion(t: Tables, lobby: string): Tables
    requires lobby in t.lobbies
  {
    t.(lobbies := t.lobbies[lobby := t.lobbies[lobby].(version := t.lobbies[lobby].version + 1)])
  }

  // ---- Create and join --------------------------------------------------------------------------------

  function DefaultConfiguration(maxPlayers: int): Configuration {
    Configuration("casual", 1, 60, 180, true, Some(30), 6, 2000, if maxPlayers < 7 then maxPlayers else 7)
  }

  function Create(t: Tables, player: string, id: string, isPrivate: bool, passwordHash: string, maxPlayers: int,
                  now: nat)
    : Result<Tables, Problem>
  {
    if maxPlayers < 2 || maxPlayers > 10 then Failure(InvalidRequest)
    else if OpenMembership(t.members, player).Some? then Success(t)
    else if (isPrivate && passwordHash == "") || id in t.lobbies then Failure(Internal)
    else
      Success(Tables(
        t.lobbies[id := Lobby(player, isPrivate, if isPrivate then passwordHash else "", maxPlayers, 1, false,
                              DefaultConfiguration(maxPlayers), false)],
        t.members + [Membership(id, player, now, true, false)],
        t.hosts + [HostAssignment(id, player, Creator, true)],
        t.rounds))
  }

  function Join(t: Tables, player: string, lobby: string, passwordMatches: string -> bool, now: nat)
    : Result<Tables, Problem>
  {
    if lobby !in t.lobbies then Failure(NotFound)
    else
      var l := t.lobbies[lobby];
      if l.closed then Failure(Closed)
      else if l.isPrivate && (l.passwordHash == "" || !passwordMatches(l.passwordHash)) then Failure(WrongPassword)
      else
        var current := OpenMembership(t.members, player);
        if current.Some? && current.value < |t.members| then
          if t.members[current.value].lobby != lobby then Failure(InAnotherLobby) else Success(t)
        else if CountOpen(t.members, lobby) >= l.maxPlayers then Failure(Full)
        else if ActiveRoundExists(t.rounds, lobby) then Failure(RoundIsActive)
        else Success(NextVersion(t.(members := t.members + [Membership(lobby, player, now, true, false)]), lobby))
  }

  // ---- Leave ------------------------------------------------------------------------------------------

  predicate Leaves(member: Membership, lobby: string, players: set<string>) {
    IsOpenIn(member, lobby) && member.player in players
  }

  function CloseMember(member: Membership, lobby: string, players: set<string>): Membership {
    if Leaves(member, lobby, players) then member.(open := false) else member
  }

  function CloseMembers(members: seq<Membership>, lobby: string, players: set<string>): (r: seq<Membership>)
    ensures |r| == |members|
  {
    seq(|members|, i requires 0 <= i < |members| => CloseMember(members[i], lobby, players))
  }

  function Affected(members: seq<Membership>, lobby: string, players: set<string>): set<string> {
    set m | m in members && Leaves(m, lobby, players) :: m.player
  }

  function EndHost(host: HostAssignment, lobby: string): HostAssignment {
    if host.open && host.lobby == lobby then host.(open := false) else host
  }

  function EndHosts(hosts: seq<HostAssignment>, lobby: string): (r: seq<HostAssignment>)
    ensures |r| == |hosts|
  {
    seq(|hosts|, i requires 0 <= i < |hosts| => EndHost(hosts[i], lobby))
  }

  function AbortRound(round: GameRound, lobby: string): GameRound {
    if round.lobby == lobby && round.status == Active then round.(status := Aborted) else round
  }

  function AbortRounds(rounds: seq<GameRound>, lobby: string): (r: seq<GameRound>)
    ensures |r| == |rounds|
  {
    seq(|rounds|, i requires 0 <= i < |rounds| => AbortRound(rounds[i], lobby))
  }

  /** After the host has left: the next host takes over, or the empty lobby is closed. */
  function ReplaceHost(t: Tables, lobby: string, reason: HostReason): Tables
    requires lobby in t.lobbies
  {
    var ended := t.(hosts := EndHosts(t.hosts, lobby));
    var next := EarliestOpen(t.members, lobby);
    if next.None? || next.value >= |t.members| then
      NextVersion(ended.(lobbies := t.lobbies[lobby := t.lobbies[lobby].(closed := true)],
                         rounds := AbortRounds(t.rounds, lobby)), lobby)
    else
      var player := t.members[next.value].player;
      NextVersion(ended.(hosts := ended.hosts + [HostAssignment(lobby, player, reason, true)],
                         lobbies := t.lobbies[lobby := t.lobbies[lobby].(host := player)]), lobby)
  }

  function Leave(t: Tables, lobby: string, players: set<string>, reason: HostReason): Result<Tables, Problem> {
    if lobby !in t.lobbies then Failure(NotFound)
    else if t.lobbies[lobby].closed || players == {} then Success(t)
    else
      var affected := Affected(t.members, lobby, players);
      var left := t.(members := CloseMembers(t.members, lobby, players));
      if affected == {} then Success(t)
      else if t.lobbies[lobby].host !in affected then Success(NextVersion(left, lobby))
      else if reason != HostLeft && reason != HostDisconnected then Failure(Internal)
      else Success(ReplaceHost(left, lobby, reason))
  }

  // ---- What only the host may do ----------------------------------------------------------------------

  /** The checks every host command starts with. */
  function HostObjection(t: Tables, lobby: string, player: string, expected: nat): Option<Problem> {
    if lobby !in t.lobbies || OpenHost(t.hosts, lobby).None? then Some(NotFound)
    else if t.lobbies[lobby].closed then Some(Closed)
    else if t.lobbies[lobby].host != OpenHost(t.hosts, lobby).value then Some(Internal)
    else if player != OpenHost(t.hosts, lobby).value then Some(HostRequired)
    else if t.lobbies[lobby].version != expected then Some(VersionChanged)
    else None
  }

  function Configure(t: Tables, lobby: string, player: string, expected: nat, patch: Patch, mapChosen: bool)
    : Result<Tables, Problem>
  {
    var objection := HostObjection(t, lobby, player, expected);
    if objection.Some? then Failure(objection.value)
    else if ActiveRoundExists(t.rounds, lobby) then Failure(RoundIsActive)
    else
      var next := ApplyPatch(t.lobbies[lobby].configuration, patch, t.lobbies[lobby].maxPlayers);
      if next.None? then Failure(InvalidRequest)
      else
        Success(NextVersion(t.(lobbies := t.lobbies[lobby :=
          t.lobbies[lobby].(configuration := next.value, hasMap := mapChosen)]), lobby))
  }

  function NominateMember(member: Membership, lobby: string, player: string, nominated: bool): Membership {
    if IsOpenIn(member, lobby) && member.player == player then member.(nominated := nominated) else member
  }

  function NominateMembers(members: seq<Membership>, lobby: string, player: string, nominated: bool)
    : (r: seq<Membership>)
    ensures |r| == |members|
  {
    seq(|members|, i requires 0 <= i < |members| => NominateMember(members[i], lobby, player, nominated))
  }

  function Nominate(t: Tables, lobby: string, player: string, expected: nat, nominated: bool)
    : Result<Tables, Problem>
  {
    if lobby !in t.lobbies then Failure(NotFound)
    else if t.lobbies[lobby].closed then Failure(Closed)
    else if t.lobbies[lobby].version != expected then Failure(VersionChanged)
    else if ActiveRoundExists(t.rounds, lobby) then Failure(RoundIsActive)
    else if player !in OpenPlayers(t.members, lobby) then Failure(MembershipRequired)
    else Success(NextVersion(t.(members := NominateMembers(t.members, lobby, player, nominated)), lobby))
  }

  function NextSequence(rounds: seq<GameRound>, lobby: string): (n: nat)
    ensures forall i :: 0 <= i < |rounds| && rounds[i].lobby == lobby ==> rounds[i].sequence < n
    ensures n > 0
  {
    if rounds == [] then 1
    else
      var n := |rounds| - 1;
      var earlier := NextSequence(rounds[..n], lobby);
      if rounds[n].lobby == lobby && rounds[n].sequence >= earlier then rounds[n].sequence + 1 else earlier
  }

  function ForgetNomination(member: Membership, lobby: string): Membership {
    if IsOpenIn(member, lobby) then member.(nominated := false) else member
  }

  function ForgetNominations(members: seq<Membership>, lobby: string): (r: seq<Membership>)
    ensures |r| == |members|
  {
    seq(|members|, i requires 0 <= i < |members| => ForgetNomination(members[i], lobby))
  }

  /** The open members of the lobby, in the order they joined. */
  function OpenNames(members: seq<Membership>, lobby: string): seq<string> {
    if members == [] then []
    else
      var n := |members| - 1;
      OpenNames(members[..n], lobby) + if IsOpenIn(members[n], lobby) then [members[n].player] else []
  }

  function NominatedNames(members: seq<Membership>, lobby: string): set<string> {
    set m | m in members && IsOpenIn(m, lobby) && m.nominated :: m.player
  }

  /** Selects the roles and, for a casual round, the slots; `None` is any failure. */
  function CastRound(c: Configuration, names: seq<string>, nominated: set<string>, answers: nat -> Option<nat>, at: nat)
    : Option<Cast>
  {
    var roles := SelectRoles(names, nominated, c.hunterCount, answers, at);
    if roles.Failure? then None
    else if c.mode != "casual" then Some(Cast(0, roles.value))
    else
      var slots := AssignSlots(roles.value, answers, at + RolesDraws(names, nominated));
      if slots.Failure? then None else Some(Cast(slots.value.0, slots.value.1))
  }

  /** `answers` are the draws of the random source, `at` of which were used before. */
  function StartRound(t: Tables, lobby: string, player: string, expected: nat, mapPublished: bool,
                      answers: nat -> Option<nat>, at: nat)
    : Result<Tables, Problem>
  {
    var objection := HostObjection(t, lobby, player, expected);
    if objection.Some? then Failure(objection.value)
    else if !t.lobbies[lobby].hasMap || !mapPublished then Failure(NoMap)
    else if ActiveRoundExists(t.rounds, lobby) then Failure(RoundIsActive)
    else
      var c, names := t.lobbies[lobby].configuration, OpenNames(t.members, lobby);
      if |names| < c.hunterCount + 1 then Failure(TooFewPlayers)
      else
        var cast := CastRound(c, names, NominatedNames(t.members, lobby), answers, at);
        if cast.None? then Failure(Internal)
        else
          var round := GameRound(lobby, NextSequence(t.rounds, lobby), Active, OpenPlayers(t.members, lobby), c,
                                 cast.value);
          Success(NextVersion(t.(rounds := t.rounds + [round], members := ForgetNominations(t.members, lobby)), lobby))
  }

  /** The terminal commit of a round, by its row. */
  function EndRound(t: Tables, row: nat, status: Status): Result<Tables, Problem> {
    if row >= |t.rounds| || t.rounds[row].status != Active || status == Active then Failure(NotFound)
    else Success(t.(rounds := t.rounds[row := t.rounds[row].(status := status)]))
  }
}
