/**
 What each lobby transaction does in every reachable state: when it succeeds, with which problem it is
 refused, and which rows it changes.
 */
module LobbyEffects {
  import opened Wrappers
  import opened RoundRoles
  import opened LobbyTables
  import opened LobbyTheorems
  import opened HidingSlots
  import opened RoundStart

  // ---- Who is where ---------------------------------------------------------------------------------

  predicate IsMember(t: Tables, i: nat, player: string, lobby: string) {
    i < |t.members| && t.members[i].open && t.members[i].player == player && t.members[i].lobby == lobby
  }

  ghost predicate IsIn(t: Tables, player: string, lobby: string) {
    exists i: nat :: IsMember(t, i, player, lobby)
  }

  predicate IsInNone(t: Tables, player: string) {
    forall i :: 0 <= i < |t.members| && t.members[i].open ==> t.members[i].player != player
  }

  /** The rows of the open memberships of a lobby. */
  function OpenRows(members: seq<Membership>, lobby: string): set<int> {
    set i | 0 <= i < |members| && IsOpenIn(members[i], lobby)
  }

  predicate IsPlaying(t: Tables, lobby: string) {
    exists i :: 0 <= i < |t.rounds| && t.rounds[i].lobby == lobby && t.rounds[i].status == Active
  }

  predicate IsOpenLobby(t: Tables, lobby: string) {
    lobby in t.lobbies && !t.lobbies[lobby].closed
  }

  /** The lobby row is as before but for what `now` says, and one version later; all other lobbies are as before. */
  predicate OnlyLobbyMoves(t: Tables, u: Tables, lobby: string, now: Lobby) {
    && lobby in t.lobbies && u.lobbies.Keys == t.lobbies.Keys
    && u.lobbies[lobby] == now.(version := t.lobbies[lobby].version + 1)
    && forall other :: other in t.lobbies && other != lobby ==> u.lobbies[other] == t.lobbies[other]
  }

  lemma {:induction false} CountIsRows(members: seq<Membership>, lobby: string)
    ensures CountOpen(members, lobby) == |OpenRows(members, lobby)|
  {
    if members != [] {
      var n := |members| - 1;
      CountIsRows(members[..n], lobby);
      forall i | 0 <= i < n ensures members[..n][i] == members[i] {
      }
      assert OpenRows(members, lobby)
          == OpenRows(members[..n], lobby) + if IsOpenIn(members[n], lobby) then {n} else {};
    }
  }

  /** The membership that is found says where the player is: it is the only open one. */
  lemma WhereIs(t: Tables, player: string, lobby: string)
    requires MembersFit(t)
    ensures var found := OpenMembership(t.members, player);
            && (found.None? <==> IsInNone(t, player))
            && (found.Some? ==> found.value < |t.members|)
            && (IsIn(t, player, lobby) <==> found.Some? && t.members[found.value].lobby == lobby)
  {
    FindsOpen(t.members, player);
    var found := OpenMembership(t.members, player);
    if found.Some? && t.members[found.value].lobby == lobby {
      assert IsMember(t, found.value, player, lobby);
    }
    if i: nat :| IsMember(t, i, player, lobby) {
      OnlyMembership(t, player, i, found.value);
    }
  }

  lemma OnlyMembership(t: Tables, player: string, i: nat, j: nat)
    requires MembersFit(t) && i < |t.members| && j < |t.members|
    requires t.members[i].open && t.members[i].player == player && t.members[j].open && t.members[j].player == player
    ensures i == j
  {
  }

  // ---- Create ---------------------------------------------------------------------------------------

  /** The lobby as it is created. */
  predicate IsNewLobby(l: Lobby, player: string, isPrivate: bool, passwordHash: string, maxPlayers: int) {
    && l.host == player && l.isPrivate == isPrivate && l.passwordHash == (if isPrivate then passwordHash else "")
    && l.maxPlayers == maxPlayers && l.version == 1 && !l.closed && !l.hasMap
    && var c := l.configuration;
       && c.mode == "casual" && c.hunterCount == 1 && c.hidingSeconds == 60 && c.huntingSeconds == 180
       && c.tauntEnabled && c.tauntInterval == Some(30) && c.shellLimit == 6 && c.reloadMs == 2000
       && c.autoStartThreshold <= 7 && c.autoStartThreshold <= maxPlayers
       && (c.autoStartThreshold == 7 || c.autoStartThreshold == maxPlayers)
  }

  ghost predicate IsCreate(t: Tables, player: string, id: string, isPrivate: bool, passwordHash: string,
                           maxPlayers: int, now: nat, r: Result<Tables, Problem>)
  {
    && (r.Success? <==>
          2 <= maxPlayers <= 10 && (!IsInNone(t, player) || (id !in t.lobbies && (isPrivate ==> passwordHash != ""))))
    && (r == Failure(InvalidRequest) <==> !(2 <= maxPlayers <= 10))
    && (r.Success? && !IsInNone(t, player) ==> r.value == t)
    && (r.Success? && IsInNone(t, player) ==>
          && r.value.lobbies.Keys == t.lobbies.Keys + {id} && id !in t.lobbies
          && IsNewLobby(r.value.lobbies[id], player, isPrivate, passwordHash, maxPlayers)
          && (forall other :: other in t.lobbies ==> r.value.lobbies[other] == t.lobbies[other])
          && r.value.members == t.members + [Membership(id, player, now, true, false)]
          && r.value.hosts == t.hosts + [HostAssignment(id, player, Creator, true)]
          && r.value.rounds == t.rounds)
  }

  lemma CreateEffect(t: Tables, player: string, id: string, isPrivate: bool, passwordHash: string, maxPlayers: int,
                     now: nat)
    requires Consistent(t)
    ensures IsCreate(t, player, id, isPrivate, passwordHash, maxPlayers, now,
                     Create(t, player, id, isPrivate, passwordHash, maxPlayers, now))
  {
    WhereIs(t, player, id);
  }

  // ---- Join -----------------------------------------------------------------------------------------

  /** The lobby is public, or it has a password and the player knows it. */
  predicate MayEnter(l: Lobby, passwordMatches: string -> bool) {
    l.isPrivate ==> l.passwordHash != "" && passwordMatches(l.passwordHash)
  }

  ghost predicate IsAdmitted(t: Tables, lobby: string, passwordMatches: string -> bool) {
    IsOpenLobby(t, lobby) && MayEnter(t.lobbies[lobby], passwordMatches)
  }

  predicate HasRoom(t: Tables, lobby: string)
    requires lobby in t.lobbies
  {
    |OpenRows(t.members, lobby)| < t.lobbies[lobby].maxPlayers
  }

  /** When a player may join, and why not. */
  ghost predicate IsJoinAnswer(t: Tables, player: string, lobby: string, passwordMatches: string -> bool,
                               r: Result<Tables, Problem>)
  {
    var admitted, newcomer := IsAdmitted(t, lobby, passwordMatches), IsInNone(t, player);
    && (r.Success? <==>
          admitted && (IsIn(t, player, lobby) || (newcomer && HasRoom(t, lobby) && !IsPlaying(t, lobby))))
    && (r == Failure(NotFound) <==> lobby !in t.lobbies)
    && (r == Failure(Closed) <==> lobby in t.lobbies && t.lobbies[lobby].closed)
    && (r == Failure(WrongPassword) <==> IsOpenLobby(t, lobby) && !MayEnter(t.lobbies[lobby], passwordMatches))
    && (r == Failure(InAnotherLobby) <==> admitted && !IsIn(t, player, lobby) && !newcomer)
    && (r == Failure(Full) <==> admitted && newcomer && !HasRoom(t, lobby))
    && (r == Failure(RoundIsActive) <==> admitted && newcomer && HasRoom(t, lobby) && IsPlaying(t, lobby))
  }

  /** Who is in the lobby already changes nothing; a newcomer gets one membership, and the version rises. */
  ghost predicate IsJoin(t: Tables, player: string, lobby: string, passwordMatches: string -> bool, now: nat,
                         r: Result<Tables, Problem>)
  {
    && IsJoinAnswer(t, player, lobby, passwordMatches, r)
    && (r.Success? && IsIn(t, player, lobby) ==> r.value == t)
    && (r.Success? && IsInNone(t, player) ==>
          && OnlyLobbyMoves(t, r.value, lobby, t.lobbies[lobby])
          && r.value.members == t.members + [Membership(lobby, player, now, true, false)]
          && r.value.hosts == t.hosts && r.value.rounds == t.rounds)
  }

  lemma JoinEffect(t: Tables, player: string, lobby: string, passwordMatches: string -> bool, now: nat)
    requires MembersFit(t)
    ensures IsJoin(t, player, lobby, passwordMatches, now, Join(t, player, lobby, passwordMatches, now))
  {
    WhereIs(t, player, lobby);
    CountIsRows(t.members, lobby);
    PlayingIff(t, lobby);
  }

  lemma PlayingIff(t: Tables, lobby: string)
    ensures ActiveRoundExists(t.rounds, lobby) <==> IsPlaying(t, lobby)
  {
  }

  // ---- Leave ----------------------------------------------------------------------------------------

  /** The open membership of the lobby belongs to one of the players. */
  predicate IsLeaver(t: Tables, i: nat, lobby: string, players: set<string>)
    requires i < |t.members|
  {
    t.members[i].open && t.members[i].lobby == lobby && t.members[i].player in players
  }

  ghost predicate SomeLeave(t: Tables, lobby: string, players: set<string>) {
    exists i: nat :: i < |t.members| && IsLeaver(t, i, lobby, players)
  }

  ghost predicate HostLeaves(t: Tables, lobby: string, players: set<string>) {
    lobby in t.lobbies && t.lobbies[lobby].host in players && IsIn(t, t.lobbies[lobby].host, lobby)
  }

  /** Row `e` has stayed and joined before everyone else who has. */
  predicate IsHeir(u: Tables, lobby: string, e: nat) {
    && e < |u.members| && u.members[e].open && u.members[e].lobby == lobby
    && forall i :: 0 <= i < |u.members| && i != e && u.members[i].open && u.members[i].lobby == lobby ==>
         u.members[e].joinedAt < u.members[i].joinedAt
  }

  predicate IsEmptyLobby(u: Tables, lobby: string) {
    forall i :: 0 <= i < |u.members| && u.members[i].open ==> u.members[i].lobby != lobby
  }

  /** The open assignments of the lobby end; all others stay. */
  predicate HostsEnd(before: seq<HostAssignment>, after: seq<HostAssignment>, lobby: string) {
    && |after| >= |before|
    && forall i :: 0 <= i < |before| ==>
         after[i] == if before[i].lobby == lobby then before[i].(open := false) else before[i]
  }

  /** Active rounds of the lobby are aborted; all others stay. */
  predicate RoundsAbort(before: seq<GameRound>, after: seq<GameRound>, lobby: string) {
    && |after| == |before|
    && forall i :: 0 <= i < |before| ==>
         after[i] == if before[i].lobby == lobby && before[i].status == Active then before[i].(status := Aborted)
                     else before[i]
  }

  /** The memberships of the players in the lobby end; all others stay. */
  predicate LeaversGo(t: Tables, u: Tables, lobby: string, players: set<string>) {
    && |u.members| == |t.members|
    && forall i :: 0 <= i < |t.members| ==>
         u.members[i] == if IsLeaver(t, i, lobby, players) then t.members[i].(open := false) else t.members[i]
  }

  /** What becomes of the lobby when the host has left: it passes to the heir, or it closes. */
  ghost predicate PassesOn(t: Tables, u: Tables, lobby: string, reason: HostReason) {
    && lobby in t.lobbies && HostsEnd(t.hosts, u.hosts, lobby)
    && if IsEmptyLobby(u, lobby) then
         && OnlyLobbyMoves(t, u, lobby, t.lobbies[lobby].(closed := true))
         && |u.hosts| == |t.hosts| && RoundsAbort(t.rounds, u.rounds, lobby)
       else
         exists e: nat ::
           && IsHeir(u, lobby, e)
           && OnlyLobbyMoves(t, u, lobby, t.lobbies[lobby].(host := u.members[e].player))
           && |u.hosts| == |t.hosts| + 1
           && u.hosts[|t.hosts|] == HostAssignment(lobby, u.members[e].player, reason, true)
           && u.rounds == t.rounds
  }

  /** The players are gone and the host has been replaced if need be; all else is as before. */
  ghost predicate IsLeft(t: Tables, u: Tables, lobby: string, players: set<string>, reason: HostReason) {
    && LeaversGo(t, u, lobby, players)
    && if HostLeaves(t, lobby, players) then PassesOn(t, u, lobby, reason)
       else
         lobby in t.lobbies && OnlyLobbyMoves(t, u, lobby, t.lobbies[lobby]) && u.hosts == t.hosts
         && u.rounds == t.rounds
  }

  ghost predicate IsLeave(t: Tables, lobby: string, players: set<string>, reason: HostReason,
                          r: Result<Tables, Problem>)
  {
    && (r == Failure(NotFound) <==> lobby !in t.lobbies)
    && (r.Success? <==>
          lobby in t.lobbies && (HostLeaves(t, lobby, players) ==> reason == HostLeft || reason == HostDisconnected))
    && (r.Success? ==>
          if SomeLeave(t, lobby, players) then IsLeft(t, r.value, lobby, players, reason) else r.value == t)
  }

  lemma AffectedIff(t: Tables, lobby: string, players: set<string>)
    ensures Affected(t.members, lobby, players) == {} <==> !SomeLeave(t, lobby, players)
    ensures lobby in t.lobbies ==>
              (t.lobbies[lobby].host in Affected(t.members, lobby, players) <==> HostLeaves(t, lobby, players))
  {
    if i: nat :| i < |t.members| && IsLeaver(t, i, lobby, players) {
      assert t.members[i] in t.members && Leaves(t.members[i], lobby, players);
      assert t.members[i].player in Affected(t.members, lobby, players);
    }
    if p :| p in Affected(t.members, lobby, players) {
      var m :| m in t.members && Leaves(m, lobby, players) && m.player == p;
      var i :| 0 <= i < |t.members| && t.members[i] == m;
      assert IsLeaver(t, i, lobby, players);
    }
    if lobby in t.lobbies {
      var host := t.lobbies[lobby].host;
      if host in Affected(t.members, lobby, players) {
        var m :| m in t.members && Leaves(m, lobby, players) && m.player == host;
        var i :| 0 <= i < |t.members| && t.members[i] == m;
        assert IsMember(t, i, host, lobby);
      }
      if HostLeaves(t, lobby, players) {
        var i: nat :| IsMember(t, i, host, lobby);
        assert t.members[i] in t.members && Leaves(t.members[i], lobby, players);
      }
    }
  }

  lemma StampsStay(t: Tables, u: Tables, lobby: string, players: set<string>)
    requires Stamped(t.members) && LeaversGo(t, u, lobby, players)
    ensures Stamped(u.members)
  {
    forall i | 0 <= i < |t.members| ensures u.members[i].joinedAt == t.members[i].joinedAt {
    }
  }

  lemma EarliestIsHeir(u: Tables, lobby: string)
    requires Stamped(u.members)
    ensures EarliestOpen(u.members, lobby).None? <==> IsEmptyLobby(u, lobby)
    ensures EarliestOpen(u.members, lobby).Some? ==>
              && EarliestOpen(u.members, lobby).value < |u.members|
              && IsHeir(u, lobby, EarliestOpen(u.members, lobby).value)
  {
    EarliestIsFirst(u.members, lobby);
    if EarliestOpen(u.members, lobby).Some? {
      var e := EarliestOpen(u.members, lobby).value;
      forall i | 0 <= i < |u.members| && i != e && u.members[i].open && u.members[i].lobby == lobby
        ensures u.members[e].joinedAt < u.members[i].joinedAt
      {
        assert IsOpenIn(u.members[i], lobby) && i > e;
      }
    }
  }

  lemma ReplacePassesOn(t: Tables, left: Tables, lobby: string, reason: HostReason)
    requires lobby in t.lobbies && Stamped(left.members) && left == t.(members := left.members)
    ensures PassesOn(t, ReplaceHost(left, lobby, reason), lobby, reason)
  {
    var u := ReplaceHost(left, lobby, reason);
    EarliestIsHeir(left, lobby);
    assert u.members == left.members;
    if EarliestOpen(left.members, lobby).Some? {
      var e := EarliestOpen(left.members, lobby).value;
      assert IsHeir(u, lobby, e) && !IsEmptyLobby(u, lobby);
    } else {
      assert IsEmptyLobby(u, lobby);
    }
  }

  /** Nobody is in a closed lobby, so leaving it changes nothing. */
  lemma ClosedIsEmpty(t: Tables, lobby: string, players: set<string>)
    requires Consistent(t) && lobby in t.lobbies && t.lobbies[lobby].closed
    ensures !SomeLeave(t, lobby, players) && !HostLeaves(t, lobby, players)
  {
    assert LobbyFits(t, lobby);
    forall i: nat | i < |t.members| ensures !IsOpenIn(t.members[i], lobby) {
    }
  }

  lemma LeaversLeave(t: Tables, lobby: string, players: set<string>)
    ensures LeaversGo(t, t.(members := CloseMembers(t.members, lobby, players)), lobby, players)
  {
  }

  /** With the sets it computes spelled out. */
  lemma LeaveCases(t: Tables, lobby: string, players: set<string>, reason: HostReason)
    requires lobby in t.lobbies && !t.lobbies[lobby].closed
    ensures var r, affected := Leave(t, lobby, players, reason), Affected(t.members, lobby, players);
            var left := t.(members := CloseMembers(t.members, lobby, players));
            if affected == {} then r == Success(t)
            else if t.lobbies[lobby].host !in affected then r == Success(NextVersion(left, lobby))
            else if reason != HostLeft && reason != HostDisconnected then r == Failure(Internal)
            else r == Success(ReplaceHost(left, lobby, reason))
  {
    if players == {} {
      assert Affected(t.members, lobby, players) == {};
    }
  }

  lemma LeaveEffect(t: Tables, lobby: string, players: set<string>, reason: HostReason)
    requires Consistent(t)
    ensures IsLeave(t, lobby, players, reason, Leave(t, lobby, players, reason))
  {
    if lobby in t.lobbies {
      AffectedIff(t, lobby, players);
      if t.lobbies[lobby].closed {
        ClosedIsEmpty(t, lobby, players);
      } else {
        OpenLeaveEffect(t, lobby, players, reason);
      }
    }
  }

  lemma LeaversAreLeft(t: Tables, lobby: string, players: set<string>, reason: HostReason)
    requires Stamped(t.members) && lobby in t.lobbies
    ensures var left := t.(members := CloseMembers(t.members, lobby, players));
            IsLeft(t, if HostLeaves(t, lobby, players) then ReplaceHost(left, lobby, reason)
                      else NextVersion(left, lobby), lobby, players, reason)
  {
    var left := t.(members := CloseMembers(t.members, lobby, players));
    LeaversLeave(t, lobby, players);
    if HostLeaves(t, lobby, players) {
      StampsStay(t, left, lobby, players);
      ReplacePassesOn(t, left, lobby, reason);
      assert ReplaceHost(left, lobby, reason).members == left.members;
      GoneStayGone(t, left, ReplaceHost(left, lobby, reason), lobby, players);
    } else {
      GoneStayGone(t, left, NextVersion(left, lobby), lobby, players);
    }
  }

  lemma OpenLeaveEffect(t: Tables, lobby: string, players: set<string>, reason: HostReason)
    requires Stamped(t.members) && lobby in t.lobbies && !t.lobbies[lobby].closed
    ensures IsLeave(t, lobby, players, reason, Leave(t, lobby, players, reason))
  {
    AffectedIff(t, lobby, players);
    LeaveCases(t, lobby, players, reason);
    LeaversAreLeft(t, lobby, players, reason);
    if HostLeaves(t, lobby, players) {
      HostIsLeaver(t, lobby, players);
    }
  }

  lemma HostIsLeaver(t: Tables, lobby: string, players: set<string>)
    requires HostLeaves(t, lobby, players)
    ensures SomeLeave(t, lobby, players)
  {
    var i: nat :| IsMember(t, i, t.lobbies[lobby].host, lobby);
    assert IsLeaver(t, i, lobby, players);
  }

  lemma GoneStayGone(t: Tables, left: Tables, u: Tables, lobby: string, players: set<string>)
    requires LeaversGo(t, left, lobby, players) && u.members == left.members
    ensures LeaversGo(t, u, lobby, players)
  {
  }

  // ---- Configure ------------------------------------------------------------------------------------

  /** Every field that the patch carries has its value, every other one stays; without taunts there is no interval. */
  predicate IsPatched(current: Configuration, patch: Patch, next: Configuration) {
    && next.mode == (if patch.mode.Some? then patch.mode.value else current.mode)
    && next.hunterCount == (if patch.hunterCount.Some? then patch.hunterCount.value else current.hunterCount)
    && next.hidingSeconds == (if patch.hidingSeconds.Some? then patch.hidingSeconds.value else current.hidingSeconds)
    && next.huntingSeconds == (if patch.huntingSeconds.Some? then patch.huntingSeconds.value
                               else current.huntingSeconds)
    && next.tauntEnabled == (if patch.tauntEnabled.Some? then patch.tauntEnabled.value else current.tauntEnabled)
    && next.tauntInterval == (if !next.tauntEnabled then None
                              else if patch.tauntInterval.Some? then patch.tauntInterval
                              else current.tauntInterval)
    && next.shellLimit == (if patch.shellLimit.Some? then patch.shellLimit.value else current.shellLimit)
    && next.reloadMs == (if patch.reloadMs.Some? then patch.reloadMs.value else current.reloadMs)
    && next.autoStartThreshold == (if patch.autoStartThreshold.Some? then patch.autoStartThreshold.value
                                   else current.autoStartThreshold)
  }

  predicate IsWithinBounds(c: Configuration, maxPlayers: int) {
    && (c.mode == "casual" || c.mode == "infection") && 1 <= c.hunterCount <= 2
    && 10 <= c.hidingSeconds <= 600 && 30 <= c.huntingSeconds <= 1800
    && (c.tauntEnabled ==> c.tauntInterval.Some? && 5 <= c.tauntInterval.value <= 300)
    && 1 <= c.shellLimit <= 100 && 100 <= c.reloadMs <= 30000 && 2 <= c.autoStartThreshold <= maxPlayers
  }

  ghost predicate IsAcceptable(current: Configuration, patch: Patch, maxPlayers: int) {
    exists next :: IsPatched(current, patch, next) && IsWithinBounds(next, maxPlayers)
  }

  lemma AcceptableIff(current: Configuration, patch: Patch, maxPlayers: int)
    ensures ApplyPatch(current, patch, maxPlayers).Some? <==> IsAcceptable(current, patch, maxPlayers)
    ensures ApplyPatch(current, patch, maxPlayers).Some? ==>
              var next := ApplyPatch(current, patch, maxPlayers).value;
              IsPatched(current, patch, next) && IsWithinBounds(next, maxPlayers)
  {
    if ApplyPatch(current, patch, maxPlayers).Some? {
      PatchIff(current, patch, maxPlayers, ApplyPatch(current, patch, maxPlayers).value);
    }
    if next :| IsPatched(current, patch, next) && IsWithinBounds(next, maxPlayers) {
      PatchIff(current, patch, maxPlayers, next);
    }
  }

  lemma PatchIff(current: Configuration, patch: Patch, maxPlayers: int, next: Configuration)
    ensures ApplyPatch(current, patch, maxPlayers) == Some(next)
       <==> IsPatched(current, patch, next) && IsWithinBounds(next, maxPlayers)
  {
  }

  /** The host of an open lobby gives the command, with its current version. */
  predicate IsHostCommand(t: Tables, lobby: string, player: string, expected: nat) {
    IsOpenLobby(t, lobby) && t.lobbies[lobby].host == player && t.lobbies[lobby].version == expected
  }

  /** How a command is refused before it is looked at. */
  predicate IsHostRefusal(t: Tables, lobby: string, player: string, expected: nat, r: Result<Tables, Problem>) {
    && (r == Failure(NotFound) <==> !IsOpenLobby(t, lobby))
    && (r == Failure(HostRequired) <==> IsOpenLobby(t, lobby) && t.lobbies[lobby].host != player)
    && (r == Failure(VersionChanged) <==>
          IsOpenLobby(t, lobby) && t.lobbies[lobby].host == player && t.lobbies[lobby].version != expected)
  }

  /** The lobby has a configuration patched within its bounds, and its map; all else is as before. */
  ghost predicate IsConfigured(t: Tables, u: Tables, lobby: string, patch: Patch, mapChosen: bool) {
    && lobby in t.lobbies && lobby in u.lobbies
    && var next := u.lobbies[lobby].configuration;
       && IsPatched(t.lobbies[lobby].configuration, patch, next)
       && IsWithinBounds(next, t.lobbies[lobby].maxPlayers)
       && OnlyLobbyMoves(t, u, lobby, t.lobbies[lobby].(configuration := next, hasMap := mapChosen))
       && u.members == t.members && u.hosts == t.hosts && u.rounds == t.rounds
  }

  ghost predicate IsConfigure(t: Tables, lobby: string, player: string, expected: nat, patch: Patch, mapChosen: bool,
                              r: Result<Tables, Problem>)
  {
    && IsHostRefusal(t, lobby, player, expected, r)
    && (r == Failure(RoundIsActive) <==> IsHostCommand(t, lobby, player, expected) && IsPlaying(t, lobby))
    && (r.Success? <==>
          && IsHostCommand(t, lobby, player, expected) && !IsPlaying(t, lobby)
          && IsAcceptable(t.lobbies[lobby].configuration, patch, t.lobbies[lobby].maxPlayers))
    && (r.Success? ==> IsConfigured(t, r.value, lobby, patch, mapChosen))
  }

  /** In a consistent state the two records of the host agree. */
  lemma HostIsRecorded(t: Tables, lobby: string, player: string, expected: nat)
    requires Consistent(t)
    ensures var objection := HostObjection(t, lobby, player, expected);
            && (objection.None? <==> IsHostCommand(t, lobby, player, expected))
            && (objection.Some? ==> IsHostRefusal(t, lobby, player, expected, Failure(objection.value)))
            && (objection.Some? ==> objection.value in {NotFound, HostRequired, VersionChanged})
  {
    if lobby in t.lobbies {
      assert LobbyFits(t, lobby);
      if t.lobbies[lobby].closed {
        NoHostIsFound(t.hosts, lobby);
      } else {
        OnlyHostIsFound(t.hosts, lobby, t.lobbies[lobby].host);
      }
    }
  }

  lemma PatchConfigures(t: Tables, lobby: string, patch: Patch, mapChosen: bool, next: Configuration)
    requires lobby in t.lobbies
    requires IsPatched(t.lobbies[lobby].configuration, patch, next)
    requires IsWithinBounds(next, t.lobbies[lobby].maxPlayers)
    ensures var now := t.lobbies[lobby].(configuration := next, hasMap := mapChosen);
            IsConfigured(t, NextVersion(t.(lobbies := t.lobbies[lobby := now]), lobby), lobby, patch, mapChosen)
  {
  }

  lemma ConfigureEffect(t: Tables, lobby: string, player: string, expected: nat, patch: Patch, mapChosen: bool)
    requires Consistent(t)
    ensures IsConfigure(t, lobby, player, expected, patch, mapChosen,
                        Configure(t, lobby, player, expected, patch, mapChosen))
  {
    HostIsRecorded(t, lobby, player, expected);
    PlayingIff(t, lobby);
    if lobby in t.lobbies {
      var current, maxPlayers := t.lobbies[lobby].configuration, t.lobbies[lobby].maxPlayers;
      AcceptableIff(current, patch, maxPlayers);
      if ApplyPatch(current, patch, maxPlayers).Some? {
        PatchConfigures(t, lobby, patch, mapChosen, ApplyPatch(current, patch, maxPlayers).value);
      }
    }
  }

  // ---- Nominate -------------------------------------------------------------------------------------

  ghost predicate IsNominate(t: Tables, lobby: string, player: string, expected: nat, nominated: bool,
                             r: Result<Tables, Problem>)
  {
    var current := IsOpenLobby(t, lobby) && t.lobbies[lobby].version == expected;
    && (r == Failure(NotFound) <==> lobby !in t.lobbies)
    && (r == Failure(Closed) <==> lobby in t.lobbies && t.lobbies[lobby].closed)
    && (r == Failure(VersionChanged) <==> IsOpenLobby(t, lobby) && t.lobbies[lobby].version != expected)
    && (r == Failure(RoundIsActive) <==> current && IsPlaying(t, lobby))
    && (r == Failure(MembershipRequired) <==> current && !IsPlaying(t, lobby) && !IsIn(t, player, lobby))
    && (r.Success? <==> current && !IsPlaying(t, lobby) && IsIn(t, player, lobby))
    && (r.Success? ==>
          && OnlyLobbyMoves(t, r.value, lobby, t.lobbies[lobby]) && r.value.hosts == t.hosts
          && r.value.rounds == t.rounds && IsNominated(t, r.value, lobby, player, nominated))
  }

  /** Only the nomination of the player's membership of the lobby has changed. */
  predicate IsNominated(t: Tables, u: Tables, lobby: string, player: string, nominated: bool) {
    && |u.members| == |t.members|
    && forall i :: 0 <= i < |t.members| ==>
         u.members[i] == if IsMember(t, i, player, lobby) then t.members[i].(nominated := nominated) else t.members[i]
  }

  lemma NominateEffect(t: Tables, lobby: string, player: string, expected: nat, nominated: bool)
    ensures IsNominate(t, lobby, player, expected, nominated, Nominate(t, lobby, player, expected, nominated))
  {
    PlayingIff(t, lobby);
    PlayersAreIn(t, lobby);
    NominatesOnly(t, lobby, player, nominated);
  }

  lemma NominatesOnly(t: Tables, lobby: string, player: string, nominated: bool)
    ensures IsNominated(t, t.(members := NominateMembers(t.members, lobby, player, nominated)), lobby, player,
                        nominated)
  {
  }

  // ---- Start and end --------------------------------------------------------------------------------

  /** An active round of everyone in the lobby, numbered after all its rounds. */
  ghost predicate IsNewRound(t: Tables, lobby: string, round: GameRound) {
    && lobby in t.lobbies && round.lobby == lobby && round.status == Active
    && round.configuration == t.lobbies[lobby].configuration
    && (forall p :: p in round.participants <==> IsIn(t, p, lobby))
    && (forall i :: 0 <= i < |t.rounds| && t.rounds[i].lobby == lobby ==> t.rounds[i].sequence < round.sequence)
  }

  /** Row `i` belongs to somebody in the lobby who wants to hunt. */
  predicate WantsToHunt(t: Tables, i: nat, player: string, lobby: string) {
    IsMember(t, i, player, lobby) && t.members[i].nominated
  }

  ghost predicate IsVolunteer(t: Tables, player: string, lobby: string) {
    exists i: nat :: WantsToHunt(t, i, player, lobby)
  }

  /** Nobody is made to hunt while somebody who wants to hunt hides. */
  predicate VolunteersGoFirst(cast: seq<Assignment>) {
    forall i, j :: 0 <= i < |cast| && 0 <= j < |cast| && cast[i].role.Hunter? && cast[j].role.Hider? ==>
      cast[i].volunteer || !cast[j].volunteer
  }

  /** Who hunts: everybody in the lobby has a role, and as many hunt as the configuration says. */
  ghost predicate IsFairlyCast(t: Tables, lobby: string, round: GameRound) {
    var cast := round.cast.assignments;
    && (forall i :: 0 <= i < |cast| ==>
          IsIn(t, cast[i].player, lobby) && (cast[i].volunteer <==> IsVolunteer(t, cast[i].player, lobby)))
    && (forall p :: IsIn(t, p, lobby) ==> exists i :: 0 <= i < |cast| && cast[i].player == p)
    && VolunteersGoFirst(cast) && |HuntersOf(cast)| == round.configuration.hunterCount
  }

  lemma VolunteersAre(t: Tables, lobby: string, player: string)
    ensures player in NominatedNames(t.members, lobby) <==> IsVolunteer(t, player, lobby)
  {
    if player in NominatedNames(t.members, lobby) {
      var m :| m in t.members && IsOpenIn(m, lobby) && m.nominated && m.player == player;
      var i :| 0 <= i < |t.members| && t.members[i] == m;
      assert WantsToHunt(t, i, player, lobby);
    }
    if i: nat :| WantsToHunt(t, i, player, lobby) {
      assert t.members[i] in t.members;
    }
  }

  /** The roles of the players named, of whom `hunters` hunt. */
  predicate AreRoles(names: seq<string>, nominated: set<string>, hunters: int, cast: seq<Assignment>) {
    && |cast| == |names| && |HuntersOf(cast)| == hunters && VolunteersGoFirst(cast)
    && forall i :: 0 <= i < |names| ==>
         cast[i].player == names[i] && (cast[i].volunteer <==> names[i] in nominated)
  }

  lemma FairRoles(names: seq<string>, nominated: set<string>, hunters: nat, roles: seq<Assignment>)
    requires AreFair(names, nominated, hunters, roles)
    ensures AreRoles(names, nominated, hunters, roles)
  {
    forall i, j | 0 <= i < |roles| && 0 <= j < |roles| && roles[i].role.Hunter? && roles[j].role.Hider?
      ensures roles[i].volunteer || !roles[j].volunteer
    {
      assert Drafted(roles[i]) || roles[i].volunteer;
    }
  }

  lemma HiddenRoles(names: seq<string>, nominated: set<string>, hunters: int, roles: seq<Assignment>, targets: nat,
                    cast: seq<Assignment>)
    requires AreRoles(names, nominated, hunters, roles) && AreHidden(roles, targets, cast)
    ensures AreRoles(names, nominated, hunters, cast)
  {
    HiddenKeepsSides(roles, targets, cast);
    forall i | 0 <= i < |roles| ensures cast[i].volunteer == roles[i].volunteer {
    }
  }

  /** The roles that are cast, with and without slots. */
  lemma CastIsFair(c: Configuration, names: seq<string>, nominated: set<string>, answers: nat -> Option<nat>, at: nat)
    requires CastRound(c, names, nominated, answers, at).Some?
    ensures AreRoles(names, nominated, c.hunterCount, CastRound(c, names, nominated, answers, at).value.assignments)
  {
    var roles := SelectRoles(names, nominated, c.hunterCount, answers, at).value;
    SelectRolesIsFair(names, nominated, c.hunterCount, answers, at);
    FairRoles(names, nominated, c.hunterCount, roles);
    if c.mode == "casual" {
      AssignSlotsHides(roles, answers, at + RolesDraws(names, nominated));
      var cast := CastRound(c, names, nominated, answers, at).value;
      HiddenRoles(names, nominated, c.hunterCount, roles, cast.targets, cast.assignments);
    }
  }

  lemma RoundIsFairlyCast(t: Tables, lobby: string, round: GameRound, answers: nat -> Option<nat>, at: nat)
    requires CastRound(round.configuration, OpenNames(t.members, lobby), NominatedNames(t.members, lobby), answers, at)
          == Some(round.cast)
    ensures IsFairlyCast(t, lobby, round)
  {
    var names, cast := OpenNames(t.members, lobby), round.cast.assignments;
    CastIsFair(round.configuration, names, NominatedNames(t.members, lobby), answers, at);
    NamesAreOpen(t.members, lobby);
    PlayersAreIn(t, lobby);
    forall i | 0 <= i < |cast|
      ensures IsIn(t, cast[i].player, lobby) && (cast[i].volunteer <==> IsVolunteer(t, cast[i].player, lobby))
    {
      assert names[i] in names;
      VolunteersAre(t, lobby, names[i]);
    }
    forall p | IsIn(t, p, lobby) ensures exists i :: 0 <= i < |cast| && cast[i].player == p {
      var i :| 0 <= i < |names| && names[i] == p;
      assert cast[i].player == p;
    }
  }

  /** The nominations of the lobby are used up. */
  predicate AreForgotten(t: Tables, u: Tables, lobby: string) {
    && |u.members| == |t.members|
    && forall i :: 0 <= i < |t.members| ==>
         u.members[i] == if IsOpenIn(t.members[i], lobby) then t.members[i].(nominated := false) else t.members[i]
  }

  /** One new round and no nominations; all else is as before. */
  ghost predicate IsStarted(t: Tables, lobby: string, u: Tables) {
    && lobby in t.lobbies && OnlyLobbyMoves(t, u, lobby, t.lobbies[lobby]) && u.hosts == t.hosts
    && |u.rounds| == |t.rounds| + 1 && u.rounds[..|t.rounds|] == t.rounds
    && IsNewRound(t, lobby, u.rounds[|t.rounds|]) && IsFairlyCast(t, lobby, u.rounds[|t.rounds|])
    && AreForgotten(t, u, lobby)
  }

  ghost predicate IsStart(t: Tables, lobby: string, player: string, expected: nat, mapPublished: bool,
                          r: Result<Tables, Problem>)
  {
    var inOrder := IsHostCommand(t, lobby, player, expected);
    && IsHostRefusal(t, lobby, player, expected, r)
    && (r == Failure(NoMap) <==> inOrder && !(t.lobbies[lobby].hasMap && mapPublished))
    && (r == Failure(RoundIsActive) <==>
          inOrder && t.lobbies[lobby].hasMap && mapPublished && IsPlaying(t, lobby))
    && (r == Failure(TooFewPlayers) <==>
          && inOrder && t.lobbies[lobby].hasMap && mapPublished && !IsPlaying(t, lobby)
          && |OpenRows(t.members, lobby)| < t.lobbies[lobby].configuration.hunterCount + 1)
    && (r.Success? ==> IsStarted(t, lobby, r.value))
  }

  lemma {:induction false} NamesAreRows(members: seq<Membership>, lobby: string)
    ensures |OpenNames(members, lobby)| == CountOpen(members, lobby)
  {
    if members != [] {
      NamesAreRows(members[..|members| - 1], lobby);
    }
  }

  lemma PlayersAreIn(t: Tables, lobby: string)
    ensures forall p :: p in OpenPlayers(t.members, lobby) <==> IsIn(t, p, lobby)
  {
    forall p ensures p in OpenPlayers(t.members, lobby) <==> IsIn(t, p, lobby) {
      if p in OpenPlayers(t.members, lobby) {
        var m :| m in t.members && IsOpenIn(m, lobby) && m.player == p;
        var i :| 0 <= i < |t.members| && t.members[i] == m;
        assert IsMember(t, i, p, lobby);
      }
      if i: nat :| IsMember(t, i, p, lobby) {
        assert t.members[i] in t.members && IsOpenIn(t.members[i], lobby);
      }
    }
  }

  lemma StartEffect(t: Tables, lobby: string, player: string, expected: nat, mapPublished: bool,
                    answers: nat -> Option<nat>, at: nat)
    requires Consistent(t)
    ensures IsStart(t, lobby, player, expected, mapPublished,
                    StartRound(t, lobby, player, expected, mapPublished, answers, at))
  {
    HostIsRecorded(t, lobby, player, expected);
    NamesAreRows(t.members, lobby);
    CountIsRows(t.members, lobby);
    PlayingIff(t, lobby);
    if StartRound(t, lobby, player, expected, mapPublished, answers, at).Success? {
      StartRows(t, lobby, player, expected, mapPublished, answers, at);
    }
  }

  lemma StartRows(t: Tables, lobby: string, player: string, expected: nat, mapPublished: bool,
                  answers: nat -> Option<nat>, at: nat)
    requires StartRound(t, lobby, player, expected, mapPublished, answers, at).Success?
    ensures IsStarted(t, lobby, StartRound(t, lobby, player, expected, mapPublished, answers, at).value)
  {
    PlayersAreIn(t, lobby);
    var u := StartRound(t, lobby, player, expected, mapPublished, answers, at).value;
    assert u.rounds == t.rounds + [u.rounds[|t.rounds|]];
    RoundIsFairlyCast(t, lobby, u.rounds[|t.rounds|], answers, at);
    Forgets(t, u, lobby);
  }

  lemma Forgets(t: Tables, u: Tables, lobby: string)
    requires u.members == ForgetNominations(t.members, lobby)
    ensures AreForgotten(t, u, lobby)
  {
  }

  ghost predicate IsEnd(t: Tables, row: nat, status: Status, r: Result<Tables, Problem>) {
    && (r.Success? <==> row < |t.rounds| && t.rounds[row].status == Active && status != Active)
    && (r.Success? ==>
          && r.value.lobbies == t.lobbies && r.value.members == t.members && r.value.hosts == t.hosts
          && |r.value.rounds| == |t.rounds| && r.value.rounds[row] == t.rounds[row].(status := status)
          && forall i :: 0 <= i < |t.rounds| && i != row ==> r.value.rounds[i] == t.rounds[i])
  }

  lemma EndEffect(t: Tables, row: nat, status: Status)
    ensures IsEnd(t, row, status, EndRound(t, row, status))
  {
  }

  // ---- In every reachable state ---------------------------------------------------------------------

  ghost predicate HasEffect(t: Tables, action: Action, r: Result<Tables, Problem>) {
    match action
    case Creates(player, id, isPrivate, hash, maxPlayers, now) =>
      IsCreate(t, player, id, isPrivate, hash, maxPlayers, now, r)
    case Joins(player, lobby, matches, now) => IsJoin(t, player, lobby, matches, now, r)
    case LeavesLobby(lobby, players, reason) => IsLeave(t, lobby, players, reason, r)
    case Configures(lobby, player, expected, patch, mapChosen) =>
      IsConfigure(t, lobby, player, expected, patch, mapChosen, r)
    case Nominates(lobby, player, expected, nominated) => IsNominate(t, lobby, player, expected, nominated, r)
    case Starts(lobby, player, expected, published, answers, at) => IsStart(t, lobby, player, expected, published, r)
    case Ends(row, status) => IsEnd(t, row, status, r)
  }

  /**
   In every state that any transactions lead to, every transaction succeeds exactly under its conditions, is
   refused with each problem exactly under that one's, and changes exactly the rows it should.
   */
  lemma ActionHasEffect(actions: seq<Action>, action: Action)
    requires InOrder(actions)
    ensures HasEffect(Run(actions), action, Attempt(Run(actions), action))
  {
    RunIsConsistent(actions);
    var t := Run(actions);
    match action
    case Creates(player, id, isPrivate, hash, maxPlayers, now) =>
      CreateEffect(t, player, id, isPrivate, hash, maxPlayers, now);
    case Joins(player, lobby, matches, now) => JoinEffect(t, player, lobby, matches, now);
    case LeavesLobby(lobby, players, reason) => LeaveEffect(t, lobby, players, reason);
    case Configures(lobby, player, expected, patch, mapChosen) =>
      ConfigureEffect(t, lobby, player, expected, patch, mapChosen);
    case Nominates(lobby, player, expected, nominated) => NominateEffect(t, lobby, player, expected, nominated);
    case Starts(lobby, player, expected, published, answers, at) =>
      StartEffect(t, lobby, player, expected, published, answers, at);
    case Ends(row, status) => EndEffect(t, row, status);
  }
}
