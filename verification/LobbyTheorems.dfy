/** What every run of lobby transactions keeps. */
module LobbyTheorems {
  import opened Wrappers
  import opened RoundRoles
  import opened LobbyTables

  // ---- Reading functions, characterised ---------------------------------------------------------------

  /** Join stamps increase from row to row. */
  predicate Stamped(members: seq<Membership>) {
    forall i, j :: 0 <= i < j < |members| ==> members[i].joinedAt < members[j].joinedAt
  }

  predicate IsFirstOpen(members: seq<Membership>, lobby: string, e: nat) {
    e < |members| && IsOpenIn(members[e], lobby) && forall i :: 0 <= i < e ==> !IsOpenIn(members[i], lobby)
  }

  predicate NoneOpen(members: seq<Membership>, lobby: string) {
    forall i :: 0 <= i < |members| ==> !IsOpenIn(members[i], lobby)
  }

  /** With increasing stamps the earliest-joined open member is the first open row. */
  lemma {:induction false} EarliestIsFirst(members: seq<Membership>, lobby: string)
    requires Stamped(members)
    ensures EarliestOpen(members, lobby).Some? ==> IsFirstOpen(members, lobby, EarliestOpen(members, lobby).value)
    ensures EarliestOpen(members, lobby).None? <==> NoneOpen(members, lobby)
  {
    if members != [] {
      EarliestIsFirst(members[..|members| - 1], lobby);
    }
  }

  lemma FirstIsEarliest(members: seq<Membership>, lobby: string, e: nat)
    requires Stamped(members) && IsFirstOpen(members, lobby, e)
    ensures EarliestOpen(members, lobby) == Some(e)
  {
    EarliestIsFirst(members, lobby);
    assert !NoneOpen(members, lobby);
    var f := EarliestOpen(members, lobby).value;
    assert IsFirstOpen(members, lobby, f);
    assert f == e;
  }

  lemma {:induction false} CountsOpen(members: seq<Membership>, lobby: string)
    ensures CountOpen(members, lobby) == 0 <==> NoneOpen(members, lobby)
  {
    if members != [] {
      CountsOpen(members[..|members| - 1], lobby);
    }
  }

  lemma {:induction false} FindsOpen(members: seq<Membership>, player: string)
    ensures var r := OpenMembership(members, player);
            && (r.Some? ==> r.value < |members| && members[r.value].open && members[r.value].player == player)
            && (r.None? ==> forall i :: 0 <= i < |members| ==> !(members[i].open && members[i].player == player))
  {
    if members != [] {
      FindsOpen(members[..|members| - 1], player);
    }
  }

  /** The open members of the lobby are the same in both, row by row. */
  predicate OpenAlike(a: seq<Membership>, b: seq<Membership>, lobby: string) {
    && |a| == |b|
    && forall i :: 0 <= i < |a| ==>
         IsOpenIn(a[i], lobby) == IsOpenIn(b[i], lobby) && a[i].player == b[i].player && a[i].joinedAt == b[i].joinedAt
  }

  lemma {:induction false} AlikeCounts(a: seq<Membership>, b: seq<Membership>, lobby: string)
    requires OpenAlike(a, b, lobby)
    ensures CountOpen(a, lobby) == CountOpen(b, lobby)
  {
    if a != [] {
      AlikeCounts(a[..|a| - 1], b[..|b| - 1], lobby);
    }
  }

  lemma {:induction false} AlikeEarliest(a: seq<Membership>, b: seq<Membership>, lobby: string)
    requires OpenAlike(a, b, lobby)
    ensures EarliestOpen(a, lobby) == EarliestOpen(b, lobby)
  {
    if a != [] {
      AlikeEarliest(a[..|a| - 1], b[..|b| - 1], lobby);
    }
  }

  // ---- The invariant ----------------------------------------------------------------------------------

  predicate MembersFit(t: Tables) {
    && Stamped(t.members)
    && (forall i :: 0 <= i < |t.members| && t.members[i].open ==> t.members[i].lobby in t.lobbies)
    && (forall i, j :: 0 <= i < j < |t.members| && t.members[i].open && t.members[j].open ==>
          t.members[i].player != t.members[j].player)
  }

  predicate IsOpenHost(host: HostAssignment, lobby: string) {
    host.open && host.lobby == lobby
  }

  predicate NoHost(hosts: seq<HostAssignment>, lobby: string) {
    forall i :: 0 <= i < |hosts| ==> !IsOpenHost(hosts[i], lobby)
  }

  /** The player holds the only open host assignment of the lobby. */
  predicate OnlyHost(hosts: seq<HostAssignment>, lobby: string, player: string) {
    exists i :: 0 <= i < |hosts| && IsTheHost(hosts, lobby, player, i)
  }

  predicate IsTheHost(hosts: seq<HostAssignment>, lobby: string, player: string, i: nat)
    requires i < |hosts|
  {
    && IsOpenHost(hosts[i], lobby) && hosts[i].player == player
    && forall j :: 0 <= j < |hosts| && IsOpenHost(hosts[j], lobby) ==> j == i
  }

  predicate HostFits(t: Tables, id: string)
    requires id in t.lobbies
  {
    var earliest := EarliestOpen(t.members, id);
    && earliest.Some? && earliest.value < |t.members|
    && t.members[earliest.value].player == t.lobbies[id].host
    && OnlyHost(t.hosts, id, t.lobbies[id].host)
  }

  predicate LobbyFits(t: Tables, id: string)
    requires id in t.lobbies
  {
    var l := t.lobbies[id];
    && CountOpen(t.members, id) <= l.maxPlayers
    && (l.closed <==> NoneOpen(t.members, id))
    && (if l.closed then NoHost(t.hosts, id) && !ActiveRoundExists(t.rounds, id) else HostFits(t, id))
  }

  /** The open members of a lobby with an active round were there when it started. */
  predicate RoundFits(t: Tables, i: nat)
    requires i < |t.rounds|
  {
    t.rounds[i].status == Active ==> OpenPlayers(t.members, t.rounds[i].lobby) <= t.rounds[i].participants
  }

  predicate RoundsFit(t: Tables) {
    && (forall i :: 0 <= i < |t.rounds| ==> t.rounds[i].lobby in t.lobbies && RoundFits(t, i))
    && (forall i, j :: 0 <= i < j < |t.rounds| && t.rounds[i].lobby == t.rounds[j].lobby ==>
          && t.rounds[i].sequence < t.rounds[j].sequence
          && !(t.rounds[i].status == Active && t.rounds[j].status == Active))
  }

  ghost predicate Consistent(t: Tables) {
    && MembersFit(t) && RoundsFit(t)
    && (forall i :: 0 <= i < |t.hosts| && t.hosts[i].open ==> t.hosts[i].lobby in t.lobbies)
    && (forall id :: id in t.lobbies ==> LobbyFits(t, id))
  }

  // ---- Frames -----------------------------------------------------------------------------------------

  /** A lobby none of whose rows changed still fits. */
  lemma LobbyFrame(t: Tables, u: Tables, id: string)
    requires id in t.lobbies && id in u.lobbies && LobbyFits(t, id)
    requires u.lobbies[id] == t.lobbies[id].(version := u.lobbies[id].version,
                                             configuration := u.lobbies[id].configuration,
                                             hasMap := u.lobbies[id].hasMap)
    requires OpenAlike(t.members, u.members, id)
    requires u.hosts == t.hosts
    requires t.lobbies[id].closed ==> (ActiveRoundExists(u.rounds, id) ==> ActiveRoundExists(t.rounds, id))
    ensures LobbyFits(u, id)
  {
    AlikeCounts(t.members, u.members, id);
    AlikeEarliest(t.members, u.members, id);
  }

  lemma PlayersAlike(a: seq<Membership>, b: seq<Membership>, lobby: string)
    requires OpenAlike(a, b, lobby)
    ensures OpenPlayers(a, lobby) == OpenPlayers(b, lobby)
  {
    forall p | p in OpenPlayers(a, lobby) ensures p in OpenPlayers(b, lobby) {
      var i :| 0 <= i < |a| && IsOpenIn(a[i], lobby) && a[i].player == p;
      assert b[i] in b && IsOpenIn(b[i], lobby);
    }
    forall p | p in OpenPlayers(b, lobby) ensures p in OpenPlayers(a, lobby) {
      var i :| 0 <= i < |b| && IsOpenIn(b[i], lobby) && b[i].player == p;
      assert a[i] in a && IsOpenIn(a[i], lobby);
    }
  }

  /** No membership opens or closes, and no host or round changes. */
  predicate IsQuiet(t: Tables, u: Tables) {
    && u.lobbies.Keys == t.lobbies.Keys && u.hosts == t.hosts && u.rounds == t.rounds
    && (forall id :: id in t.lobbies && id in u.lobbies ==>
          u.lobbies[id] == t.lobbies[id].(version := u.lobbies[id].version,
                                          configuration := u.lobbies[id].configuration,
                                          hasMap := u.lobbies[id].hasMap))
    && |u.members| == |t.members|
    && (forall i :: 0 <= i < |t.members| ==> u.members[i] == t.members[i].(nominated := u.members[i].nominated))
  }

  lemma QuietKeeps(t: Tables, u: Tables)
    requires Consistent(t) && IsQuiet(t, u)
    ensures Consistent(u)
  {
    forall id | id in u.lobbies ensures LobbyFits(u, id) {
      assert id in u.lobbies.Keys;
      LobbyFrame(t, u, id);
    }
    forall i | 0 <= i < |u.rounds| ensures u.rounds[i].lobby in u.lobbies && RoundFits(u, i) {
      assert RoundFits(t, i);
      PlayersAlike(t.members, u.members, t.rounds[i].lobby);
      assert t.rounds[i].lobby in t.lobbies.Keys;
    }
    forall i | 0 <= i < |u.members| && u.members[i].open ensures u.members[i].lobby in u.lobbies {
      assert t.members[i].lobby in t.lobbies.Keys;
    }
    forall i | 0 <= i < |u.hosts| && u.hosts[i].open ensures u.hosts[i].lobby in u.lobbies {
      assert t.hosts[i].lobby in t.lobbies.Keys;
    }
  }

  lemma ConfigureIsQuiet(t: Tables, lobby: string, player: string, expected: nat, patch: Patch, mapChosen: bool,
                         u: Tables)
    requires Configure(t, lobby, player, expected, patch, mapChosen) == Success(u)
    ensures IsQuiet(t, u)
  {
  }

  lemma NominateIsQuiet(t: Tables, lobby: string, player: string, expected: nat, nominated: bool, u: Tables)
    requires Nominate(t, lobby, player, expected, nominated) == Success(u)
    ensures IsQuiet(t, u)
  {
  }

  lemma ConfigureKeeps(t: Tables, lobby: string, player: string, expected: nat, patch: Patch, mapChosen: bool)
    requires Consistent(t) && Configure(t, lobby, player, expected, patch, mapChosen).Success?
    ensures Consistent(Configure(t, lobby, player, expected, patch, mapChosen).value)
  {
    var u := Configure(t, lobby, player, expected, patch, mapChosen).value;
    ConfigureIsQuiet(t, lobby, player, expected, patch, mapChosen, u);
    QuietKeeps(t, u);
  }

  lemma NominateKeeps(t: Tables, lobby: string, player: string, expected: nat, nominated: bool)
    requires Consistent(t) && Nominate(t, lobby, player, expected, nominated).Success?
    ensures Consistent(Nominate(t, lobby, player, expected, nominated).value)
  {
    var u := Nominate(t, lobby, player, expected, nominated).value;
    NominateIsQuiet(t, lobby, player, expected, nominated, u);
    QuietKeeps(t, u);
  }

  // ---- Create and join --------------------------------------------------------------------------------

  predicate IsNewStamp(members: seq<Membership>, now: nat) {
    forall i :: 0 <= i < |members| ==> members[i].joinedAt < now
  }

  /** A new member of another lobby changes nothing for this one. */
  lemma AppendElsewhere(members: seq<Membership>, m: Membership, lobby: string)
    requires m.lobby != lobby
    ensures CountOpen(members + [m], lobby) == CountOpen(members, lobby)
    ensures EarliestOpen(members + [m], lobby) == EarliestOpen(members, lobby)
    ensures NoneOpen(members + [m], lobby) <==> NoneOpen(members, lobby)
    ensures OpenPlayers(members + [m], lobby) == OpenPlayers(members, lobby)
  {
    assert (members + [m])[..|members|] == members;
    forall i | 0 <= i < |members| ensures (members + [m])[i] == members[i] {
    }
  }

  lemma AppendHost(hosts: seq<HostAssignment>, h: HostAssignment, lobby: string, player: string)
    requires !IsOpenHost(h, lobby)
    ensures NoHost(hosts, lobby) ==> NoHost(hosts + [h], lobby)
    ensures OnlyHost(hosts, lobby, player) ==> OnlyHost(hosts + [h], lobby, player)
  {
    if OnlyHost(hosts, lobby, player) {
      var i :| 0 <= i < |hosts| && IsTheHost(hosts, lobby, player, i);
      assert IsTheHost(hosts + [h], lobby, player, i);
    }
  }

  lemma FirstHost(hosts: seq<HostAssignment>, lobby: string, player: string, reason: HostReason)
    requires NoHost(hosts, lobby)
    ensures OnlyHost(hosts + [HostAssignment(lobby, player, reason, true)], lobby, player)
  {
    assert IsTheHost(hosts + [HostAssignment(lobby, player, reason, true)], lobby, player, |hosts|);
  }

  lemma CreateKeeps(t: Tables, player: string, id: string, isPrivate: bool, passwordHash: string, maxPlayers: int,
                    now: nat)
    requires Consistent(t) && IsNewStamp(t.members, now)
    requires Create(t, player, id, isPrivate, passwordHash, maxPlayers, now).Success?
    ensures Consistent(Create(t, player, id, isPrivate, passwordHash, maxPlayers, now).value)
  {
    var u := Create(t, player, id, isPrivate, passwordHash, maxPlayers, now).value;
    if OpenMembership(t.members, player).None? {
      FindsOpen(t.members, player);
      LobbyCreated(t, u, id, Membership(id, player, now, true, false));
    }
  }

  lemma LobbyCreated(t: Tables, u: Tables, id: string, m: Membership)
    requires Consistent(t) && id !in t.lobbies && IsOpenIn(m, id) && IsNewStamp(t.members, m.joinedAt)
    requires forall i :: 0 <= i < |t.members| && t.members[i].open ==> t.members[i].player != m.player
    requires id in u.lobbies && u.lobbies == t.lobbies[id := u.lobbies[id]]
    requires !u.lobbies[id].closed && u.lobbies[id].host == m.player && u.lobbies[id].maxPlayers >= 2
    requires u.members == t.members + [m] && u.rounds == t.rounds
    requires u.hosts == t.hosts + [HostAssignment(id, m.player, Creator, true)]
    ensures Consistent(u)
  {
    forall other | other in u.lobbies ensures LobbyFits(u, other) {
      if other != id {
        OtherLobbyFits(t, u, m, other);
      } else {
        NewLobbyFits(t, u, id, m);
      }
    }
    NewMemberKeepsMembers(t, u, m);
    forall i | 0 <= i < |u.rounds| ensures u.rounds[i].lobby in u.lobbies && RoundFits(u, i) {
      assert RoundFits(t, i);
      AppendElsewhere(t.members, m, t.rounds[i].lobby);
    }
  }

  lemma OtherLobbyFits(t: Tables, u: Tables, m: Membership, other: string)
    requires other in t.lobbies && other in u.lobbies && u.lobbies[other] == t.lobbies[other] && LobbyFits(t, other)
    requires other != m.lobby && u.members == t.members + [m] && u.rounds == t.rounds
    requires u.hosts == t.hosts + [HostAssignment(m.lobby, m.player, Creator, true)]
    ensures LobbyFits(u, other)
  {
    AppendElsewhere(t.members, m, other);
    AppendHost(t.hosts, HostAssignment(m.lobby, m.player, Creator, true), other, t.lobbies[other].host);
    LobbyFitsLike(t, u, other);
  }

  /** What a lobby is judged by, all in one place. */
  lemma LobbyFitsLike(t: Tables, u: Tables, id: string)
    requires id in t.lobbies && id in u.lobbies && u.lobbies[id] == t.lobbies[id] && LobbyFits(t, id)
    requires CountOpen(u.members, id) == CountOpen(t.members, id)
    requires EarliestOpen(u.members, id) == EarliestOpen(t.members, id)
    requires NoneOpen(u.members, id) <==> NoneOpen(t.members, id)
    requires |t.members| <= |u.members| && u.members[..|t.members|] == t.members
    requires NoHost(t.hosts, id) ==> NoHost(u.hosts, id)
    requires OnlyHost(t.hosts, id, t.lobbies[id].host) ==> OnlyHost(u.hosts, id, t.lobbies[id].host)
    requires u.rounds == t.rounds
    ensures LobbyFits(u, id)
  {
    if !t.lobbies[id].closed {
      var e := EarliestOpen(t.members, id).value;
      assert u.members[..|t.members|][e] == t.members[e];
    }
  }

  lemma NewMemberKeepsMembers(t: Tables, u: Tables, m: Membership)
    requires MembersFit(t) && u.members == t.members + [m] && m.lobby in u.lobbies
    requires t.lobbies.Keys <= u.lobbies.Keys
    requires IsNewStamp(t.members, m.joinedAt)
    requires forall i :: 0 <= i < |t.members| ==> !(t.members[i].open && t.members[i].player == m.player)
    ensures MembersFit(u)
  {
    forall i | 0 <= i < |u.members| && u.members[i].open ensures u.members[i].lobby in u.lobbies {
      if i < |t.members| {
        assert t.members[i].lobby in t.lobbies.Keys;
      }
    }
  }

  lemma NewLobbyFits(t: Tables, u: Tables, id: string, m: Membership)
    requires Consistent(t) && id !in t.lobbies && id in u.lobbies
    requires u.members == t.members + [m] && IsOpenIn(m, id) && IsNewStamp(t.members, m.joinedAt)
    requires u.hosts == t.hosts + [HostAssignment(id, m.player, Creator, true)] && u.rounds == t.rounds
    requires !u.lobbies[id].closed && u.lobbies[id].host == m.player && u.lobbies[id].maxPlayers >= 2
    ensures LobbyFits(u, id)
  {
    assert NoneOpen(t.members, id);
    CountsOpen(t.members, id);
    assert u.members[..|t.members|] == t.members;
    assert IsFirstOpen(u.members, id, |t.members|);
    FirstIsEarliest(u.members, id, |t.members|);
    FirstHost(t.hosts, id, m.player, Creator);
  }

  lemma MemberAdded(t: Tables, v: Tables, m: Membership)
    requires Consistent(t) && m.lobby in t.lobbies && !t.lobbies[m.lobby].closed && m.open
    requires v == t.(members := t.members + [m]) && IsNewStamp(t.members, m.joinedAt)
    requires forall i :: 0 <= i < |t.members| ==> !(t.members[i].open && t.members[i].player == m.player)
    requires CountOpen(t.members, m.lobby) < t.lobbies[m.lobby].maxPlayers
    requires !ActiveRoundExists(t.rounds, m.lobby)
    ensures Consistent(v)
  {
    forall other | other in v.lobbies ensures LobbyFits(v, other) {
      if other != m.lobby {
        AppendElsewhere(t.members, m, other);
        LobbyFitsLike(t, v, other);
      } else {
        JoinedLobbyFits(t, v, other, m);
      }
    }
    NewMemberKeepsMembers(t, v, m);
    forall i | 0 <= i < |v.rounds| ensures v.rounds[i].lobby in v.lobbies && RoundFits(v, i) {
      assert RoundFits(t, i);
      if t.rounds[i].lobby != m.lobby {
        AppendElsewhere(t.members, m, t.rounds[i].lobby);
      }
    }
  }

  lemma VersionKeeps(t: Tables, lobby: string)
    requires Consistent(t) && lobby in t.lobbies
    ensures Consistent(NextVersion(t, lobby))
  {
    QuietKeeps(t, NextVersion(t, lobby));
  }

  lemma JoinKeeps(t: Tables, player: string, lobby: string, passwordMatches: string -> bool, now: nat)
    requires Consistent(t) && IsNewStamp(t.members, now)
    requires Join(t, player, lobby, passwordMatches, now).Success?
    ensures Consistent(Join(t, player, lobby, passwordMatches, now).value)
  {
    FindsOpen(t.members, player);
    if OpenMembership(t.members, player).None? {
      var m := Membership(lobby, player, now, true, false);
      var v := t.(members := t.members + [m]);
      MemberAdded(t, v, m);
      VersionKeeps(v, lobby);
    }
  }

  lemma JoinedLobbyFits(t: Tables, v: Tables, id: string, m: Membership)
    requires Consistent(t) && id in t.lobbies && !t.lobbies[id].closed
    requires v == t.(members := t.members + [m]) && IsOpenIn(m, id) && IsNewStamp(t.members, m.joinedAt)
    requires CountOpen(t.members, id) < t.lobbies[id].maxPlayers
    ensures LobbyFits(v, id)
  {
    assert LobbyFits(t, id);
    EarliestIsFirst(t.members, id);
    var e := EarliestOpen(t.members, id).value;
    assert v.members[..|t.members|] == t.members;
    assert v.members[e] == t.members[e];
    assert IsFirstOpen(v.members, id, e);
    FirstIsEarliest(v.members, id, e);
  }

  // ---- Leave ------------------------------------------------------------------------------------------

  lemma CloseElsewhere(members: seq<Membership>, lobby: string, players: set<string>, other: string)
    requires other != lobby
    ensures OpenAlike(members, CloseMembers(members, lobby, players), other)
  {
  }

  lemma {:induction false} CloseCounts(members: seq<Membership>, lobby: string, players: set<string>)
    ensures CountOpen(CloseMembers(members, lobby, players), lobby) <= CountOpen(members, lobby)
  {
    if members != [] {
      var n := |members| - 1;
      CloseCounts(members[..n], lobby, players);
      assert CloseMembers(members, lobby, players)[..n] == CloseMembers(members[..n], lobby, players);
    }
  }

  lemma ClosePlayers(members: seq<Membership>, lobby: string, players: set<string>, other: string)
    ensures OpenPlayers(CloseMembers(members, lobby, players), other) <= OpenPlayers(members, other)
  {
    var closed := CloseMembers(members, lobby, players);
    forall p | p in OpenPlayers(closed, other) ensures p in OpenPlayers(members, other) {
      var i :| 0 <= i < |closed| && IsOpenIn(closed[i], other) && closed[i].player == p;
      assert members[i] in members && IsOpenIn(members[i], other);
    }
  }

  /** Everything but the lobby's own row: closing memberships keeps members and rounds in order. */
  lemma CloseKeepsRest(t: Tables, u: Tables, lobby: string, players: set<string>)
    requires Consistent(t) && u.members == CloseMembers(t.members, lobby, players)
    requires u.lobbies.Keys == t.lobbies.Keys && (u.rounds == t.rounds || u.rounds == AbortRounds(t.rounds, lobby))
    ensures MembersFit(u) && RoundsFit(u)
  {
    forall i | 0 <= i < |u.members| && u.members[i].open ensures u.members[i].lobby in u.lobbies {
      assert t.members[i].lobby in t.lobbies.Keys;
    }
    forall i | 0 <= i < |u.rounds| ensures u.rounds[i].lobby in u.lobbies && RoundFits(u, i) {
      assert RoundFits(t, i);
      ClosePlayers(t.members, lobby, players, t.rounds[i].lobby);
      assert t.rounds[i].lobby in t.lobbies.Keys;
    }
  }

  /** The other lobbies do not notice who left, who hosts, and which rounds were aborted here. */
  lemma LeaveElsewhere(t: Tables, u: Tables, lobby: string, players: set<string>, other: string)
    requires Consistent(t) && other != lobby && other in t.lobbies && other in u.lobbies
    requires u.lobbies[other] == t.lobbies[other]
    requires u.members == CloseMembers(t.members, lobby, players)
    requires NoHost(t.hosts, other) ==> NoHost(u.hosts, other)
    requires OnlyHost(t.hosts, other, t.lobbies[other].host) ==> OnlyHost(u.hosts, other, t.lobbies[other].host)
    requires ActiveRoundExists(u.rounds, other) ==> ActiveRoundExists(t.rounds, other)
    ensures LobbyFits(u, other)
  {
    assert LobbyFits(t, other);
    CloseElsewhere(t.members, lobby, players, other);
    AlikeCounts(t.members, u.members, other);
    AlikeEarliest(t.members, u.members, other);
  }

  lemma EndHostsEffect(hosts: seq<HostAssignment>, lobby: string, other: string, player: string)
    ensures NoHost(EndHosts(hosts, lobby), lobby)
    ensures other != lobby && NoHost(hosts, other) ==> NoHost(EndHosts(hosts, lobby), other)
    ensures other != lobby && OnlyHost(hosts, other, player) ==> OnlyHost(EndHosts(hosts, lobby), other, player)
  {
    var ended := EndHosts(hosts, lobby);
    if other != lobby && OnlyHost(hosts, other, player) {
      var i :| 0 <= i < |hosts| && IsTheHost(hosts, other, player, i);
      assert IsTheHost(ended, other, player, i);
    }
  }

  lemma AbortEffect(rounds: seq<GameRound>, lobby: string, other: string)
    ensures !ActiveRoundExists(AbortRounds(rounds, lobby), lobby)
    ensures other != lobby ==>
              (ActiveRoundExists(AbortRounds(rounds, lobby), other) ==> ActiveRoundExists(rounds, other))
  {
    var aborted := AbortRounds(rounds, lobby);
    if ActiveRoundExists(aborted, other) && other != lobby {
      var i :| 0 <= i < |aborted| && aborted[i].lobby == other && aborted[i].status == Active;
      assert rounds[i].lobby == other && rounds[i].status == Active;
    }
  }

  /** Someone other than the host left: the host stays the earliest open member. */
  lemma GuestsLeft(t: Tables, lobby: string, players: set<string>)
    requires Consistent(t) && lobby in t.lobbies && !t.lobbies[lobby].closed
    requires t.lobbies[lobby].host !in Affected(t.members, lobby, players)
    ensures Consistent(t.(members := CloseMembers(t.members, lobby, players)))
  {
    var u := t.(members := CloseMembers(t.members, lobby, players));
    CloseKeepsRest(t, u, lobby, players);
    forall other | other in u.lobbies ensures LobbyFits(u, other) {
      if other != lobby {
        LeaveElsewhere(t, u, lobby, players, other);
      } else {
        HostStays(t, u, lobby, players);
      }
    }
  }

  lemma HostStays(t: Tables, u: Tables, lobby: string, players: set<string>)
    requires Consistent(t) && lobby in t.lobbies && !t.lobbies[lobby].closed
    requires t.lobbies[lobby].host !in Affected(t.members, lobby, players)
    requires u == t.(members := CloseMembers(t.members, lobby, players)) && MembersFit(u)
    ensures LobbyFits(u, lobby)
  {
    assert LobbyFits(t, lobby);
    CloseCounts(t.members, lobby, players);
    EarliestIsFirst(t.members, lobby);
    var e := EarliestOpen(t.members, lobby).value;
    assert t.members[e] in t.members && !Leaves(t.members[e], lobby, players);
    assert IsFirstOpen(u.members, lobby, e);
    FirstIsEarliest(u.members, lobby, e);
  }

  lemma ReplacedElsewhere(t: Tables, u: Tables, lobby: string, players: set<string>, reason: HostReason,
                          other: string)
    requires Consistent(t) && lobby in t.lobbies && !t.lobbies[lobby].closed
    requires u == ReplaceHost(t.(members := CloseMembers(t.members, lobby, players)), lobby, reason)
    requires other != lobby && other in t.lobbies
    ensures LobbyFits(u, other)
  {
    var host := t.lobbies[other].host;
    EndHostsEffect(t.hosts, lobby, other, host);
    if |u.hosts| > |t.hosts| {
      AppendHost(EndHosts(t.hosts, lobby), u.hosts[|t.hosts|], other, host);
    }
    AbortEffect(t.rounds, lobby, other);
    LeaveElsewhere(t, u, lobby, players, other);
  }

  lemma ReplacedHostsHaveLobbies(t: Tables, u: Tables, lobby: string, players: set<string>, reason: HostReason)
    requires Consistent(t) && lobby in t.lobbies
    requires u == ReplaceHost(t.(members := CloseMembers(t.members, lobby, players)), lobby, reason)
    ensures forall i :: 0 <= i < |u.hosts| && u.hosts[i].open ==> u.hosts[i].lobby in u.lobbies
    ensures u.lobbies.Keys == t.lobbies.Keys
    ensures forall other :: other in t.lobbies && other != lobby ==> u.lobbies[other] == t.lobbies[other]
  {
    forall i | 0 <= i < |u.hosts| && u.hosts[i].open ensures u.hosts[i].lobby in u.lobbies {
      assert i < |t.hosts| ==> t.hosts[i].lobby == u.hosts[i].lobby && t.hosts[i].open;
    }
  }

  lemma HostReplaced(t: Tables, lobby: string, players: set<string>, reason: HostReason)
    requires Consistent(t) && lobby in t.lobbies && !t.lobbies[lobby].closed
    ensures Consistent(ReplaceHost(t.(members := CloseMembers(t.members, lobby, players)), lobby, reason))
  {
    var u := ReplaceHost(t.(members := CloseMembers(t.members, lobby, players)), lobby, reason);
    ReplacedHostsHaveLobbies(t, u, lobby, players, reason);
    CloseKeepsRest(t, u, lobby, players);
    forall other | other in u.lobbies ensures LobbyFits(u, other) {
      if other == lobby {
        NextHostFits(t, u, lobby, players, reason);
      } else {
        ReplacedElsewhere(t, u, lobby, players, reason, other);
      }
    }
  }

  lemma NextHostFits(t: Tables, u: Tables, lobby: string, players: set<string>, reason: HostReason)
    requires Consistent(t) && lobby in t.lobbies && !t.lobbies[lobby].closed
    requires u == ReplaceHost(t.(members := CloseMembers(t.members, lobby, players)), lobby, reason) && MembersFit(u)
    ensures LobbyFits(u, lobby)
  {
    assert LobbyFits(t, lobby);
    CloseCounts(t.members, lobby, players);
    EarliestIsFirst(u.members, lobby);
    EndHostsEffect(t.hosts, lobby, lobby, "");
    var next := EarliestOpen(u.members, lobby);
    if next.None? {
      AbortEffect(t.rounds, lobby, lobby);
    } else {
      FirstHost(EndHosts(t.hosts, lobby), lobby, u.members[next.value].player, reason);
    }
  }

  lemma LeaveKeeps(t: Tables, lobby: string, players: set<string>, reason: HostReason)
    requires Consistent(t) && Leave(t, lobby, players, reason).Success?
    ensures Consistent(Leave(t, lobby, players, reason).value)
  {
    var l := t.lobbies[lobby];
    var affected := Affected(t.members, lobby, players);
    if !l.closed && players != {} && affected != {} {
      if l.host in affected {
        HostReplaced(t, lobby, players, reason);
      } else {
        GuestsLeft(t, lobby, players);
        VersionKeeps(t.(members := CloseMembers(t.members, lobby, players)), lobby);
      }
    }
  }

  // ---- Rounds -----------------------------------------------------------------------------------------

  lemma RoundElsewhere(rounds: seq<GameRound>, round: GameRound, other: string)
    requires round.lobby != other
    ensures ActiveRoundExists(rounds + [round], other) <==> ActiveRoundExists(rounds, other)
  {
    if ActiveRoundExists(rounds, other) {
      var i :| 0 <= i < |rounds| && rounds[i].lobby == other && rounds[i].status == Active;
      assert (rounds + [round])[i] == rounds[i];
    }
  }

  lemma RoundAdded(t: Tables, u: Tables, lobby: string)
    requires Consistent(t) && lobby in t.lobbies && !t.lobbies[lobby].closed && !ActiveRoundExists(t.rounds, lobby)
    requires u.rounds != [] && u == t.(rounds := t.rounds + [u.rounds[|u.rounds| - 1]])
    requires var round := u.rounds[|u.rounds| - 1];
             && round.lobby == lobby && round.sequence == NextSequence(t.rounds, lobby)
             && round.status == Active && round.participants == OpenPlayers(t.members, lobby)
    ensures Consistent(u)
  {
    forall other | other in u.lobbies ensures LobbyFits(u, other) {
      assert LobbyFits(t, other);
      if other != lobby {
        RoundElsewhere(t.rounds, u.rounds[|t.rounds|], other);
      }
    }
    forall i | 0 <= i < |u.rounds| ensures u.rounds[i].lobby in u.lobbies && RoundFits(u, i) {
      assert i < |t.rounds| ==> RoundFits(t, i);
    }
  }

  lemma StartRoundKeeps(t: Tables, lobby: string, player: string, expected: nat, mapPublished: bool,
                        answers: nat -> Option<nat>, at: nat)
    requires Consistent(t) && StartRound(t, lobby, player, expected, mapPublished, answers, at).Success?
    ensures Consistent(StartRound(t, lobby, player, expected, mapPublished, answers, at).value)
  {
    var rounds := StartRound(t, lobby, player, expected, mapPublished, answers, at).value.rounds;
    var round := rounds[|rounds| - 1];
    var v := t.(rounds := t.rounds + [round]);
    RoundAdded(t, v, lobby);
    var w := v.(members := ForgetNominations(t.members, lobby));
    QuietKeeps(v, w);
    VersionKeeps(w, lobby);
  }

  lemma EndRoundKeeps(t: Tables, row: nat, status: Status)
    requires Consistent(t) && EndRound(t, row, status).Success?
    ensures Consistent(EndRound(t, row, status).value)
  {
    var u := EndRound(t, row, status).value;
    forall id | id in u.lobbies ensures LobbyFits(u, id) {
      assert LobbyFits(t, id);
      if ActiveRoundExists(u.rounds, id) {
        var i :| 0 <= i < |u.rounds| && u.rounds[i].lobby == id && u.rounds[i].status == Active;
        assert t.rounds[i] == u.rounds[i];
      }
    }
    forall i | 0 <= i < |u.rounds| ensures u.rounds[i].lobby in u.lobbies && RoundFits(u, i) {
      assert RoundFits(t, i);
    }
  }

  // ---- Runs -------------------------------------------------------------------------------------------

  datatype Action =
    | Creates(player: string, id: string, isPrivate: bool, passwordHash: string, maxPlayers: int, now: nat)
    | Joins(player: string, lobby: string, passwordMatches: string -> bool, now: nat)
    | LeavesLobby(lobby: string, players: set<string>, reason: HostReason)
    | Configures(lobby: string, player: string, expected: nat, patch: Patch, mapChosen: bool)
    | Nominates(lobby: string, player: string, expected: nat, nominated: bool)
    | Starts(lobby: string, player: string, expected: nat, mapPublished: bool, answers: nat -> Option<nat>, at: nat)
    | Ends(row: nat, status: Status)

  function Attempt(t: Tables, action: Action): Result<Tables, Problem> {
    match action
    case Creates(player, id, isPrivate, hash, maxPlayers, now) =>
      Create(t, player, id, isPrivate, hash, maxPlayers, now)
    case Joins(player, lobby, matches, now) => Join(t, player, lobby, matches, now)
    case LeavesLobby(lobby, players, reason) => Leave(t, lobby, players, reason)
    case Configures(lobby, player, expected, patch, mapChosen) =>
      Configure(t, lobby, player, expected, patch, mapChosen)
    case Nominates(lobby, player, expected, nominated) => Nominate(t, lobby, player, expected, nominated)
    case Starts(lobby, player, expected, published, answers, at) =>
      StartRound(t, lobby, player, expected, published, answers, at)
    case Ends(row, status) => EndRound(t, row, status)
  }

  function Run(actions: seq<Action>): Tables {
    if actions == [] then NO_LOBBIES
    else
      var n := |actions| - 1;
      var attempt := Attempt(Run(actions[..n]), actions[n]);
      if attempt.Success? then attempt.value else Run(actions[..n])
  }

  /** Whoever joins or creates does so later than everyone who joined before. */
  predicate InOrder(actions: seq<Action>) {
    forall k :: 0 <= k < |actions| && (actions[k].Creates? || actions[k].Joins?) ==>
      IsNewStamp(Run(actions[..k]).members, actions[k].now)
  }

  lemma AttemptKeeps(t: Tables, action: Action)
    requires Consistent(t) && Attempt(t, action).Success?
    requires action.Creates? || action.Joins? ==> IsNewStamp(t.members, action.now)
    ensures Consistent(Attempt(t, action).value)
  {
    match action
    case Creates(player, id, isPrivate, hash, maxPlayers, now) =>
      CreateKeeps(t, player, id, isPrivate, hash, maxPlayers, now);
    case Joins(player, lobby, matches, now) => JoinKeeps(t, player, lobby, matches, now);
    case LeavesLobby(lobby, players, reason) => LeaveKeeps(t, lobby, players, reason);
    case Configures(lobby, player, expected, patch, mapChosen) =>
      ConfigureKeeps(t, lobby, player, expected, patch, mapChosen);
    case Nominates(lobby, player, expected, nominated) => NominateKeeps(t, lobby, player, expected, nominated);
    case Starts(lobby, player, expected, published, answers, at) =>
      StartRoundKeeps(t, lobby, player, expected, published, answers, at);
    case Ends(row, status) => EndRoundKeeps(t, row, status);
  }

  /** Lobby invariant: every run of transactions leaves the tables consistent. */
  lemma {:induction false} RunIsConsistent(actions: seq<Action>)
    requires InOrder(actions)
    ensures Consistent(Run(actions))
  {
    if actions != [] {
      var n := |actions| - 1;
      forall k | 0 <= k < n ensures actions[..n][..k] == actions[..k] && actions[..n][k] == actions[k] {
      }
      RunIsConsistent(actions[..n]);
      if Attempt(Run(actions[..n]), actions[n]).Success? {
        AttemptKeeps(Run(actions[..n]), actions[n]);
      }
    }
  }

  /**
   What a consistent lobby looks like from outside: it is closed exactly when nobody is in it, and
   then nobody hosts it and no round is active; else its host is in it, joined before every other
   member and holds the only open assignment; and whoever is in it during a round started it.
   */
  lemma LobbyMeaning(actions: seq<Action>, id: string)
    requires InOrder(actions) && id in Run(actions).lobbies
    ensures var t := Run(actions);
            var l := t.lobbies[id];
            && CountOpen(t.members, id) <= l.maxPlayers
            && (l.closed <==> OpenPlayers(t.members, id) == {})
            && (l.closed ==> NoHost(t.hosts, id) && !ActiveRoundExists(t.rounds, id))
            && (!l.closed ==>
                  && OnlyHost(t.hosts, id, l.host) && OpenHost(t.hosts, id) == Some(l.host)
                  && exists e :: 0 <= e < |t.members| && HostsFromRow(t.members, id, l.host, e))
            && (forall i :: 0 <= i < |t.rounds| && t.rounds[i].lobby == id && t.rounds[i].status == Active ==>
                  OpenPlayers(t.members, id) <= t.rounds[i].participants)
  {
    RunIsConsistent(actions);
    var t := Run(actions);
    assert LobbyFits(t, id);
    if !NoneOpen(t.members, id) {
      EarliestIsFirst(t.members, id);
      var e := EarliestOpen(t.members, id).value;
      assert t.members[e] in t.members;
      assert t.members[e].player in OpenPlayers(t.members, id);
      assert HostsFromRow(t.members, id, t.lobbies[id].host, e);
      OnlyHostIsFound(t.hosts, id, t.lobbies[id].host);
    }
    forall i | 0 <= i < |t.rounds| && t.rounds[i].lobby == id && t.rounds[i].status == Active
      ensures OpenPlayers(t.members, id) <= t.rounds[i].participants
    {
      assert RoundFits(t, i);
    }
  }

  /** Nobody is ever an open member of two lobbies, or of one lobby twice. */
  lemma OneMembershipEach(actions: seq<Action>, i: nat, j: nat)
    requires InOrder(actions) && i < |Run(actions).members| && j < |Run(actions).members|
    requires Run(actions).members[i].open && Run(actions).members[j].open
    requires Run(actions).members[i].player == Run(actions).members[j].player
    ensures i == j
  {
    RunIsConsistent(actions);
  }

  /**
   Host commands never find the two records of the host at odds, and they answer a closed lobby with
   "not found": its last assignment is closed, so the check for a closed lobby is never reached.
   */
  lemma HostRecordsAgree(actions: seq<Action>, lobby: string, player: string, expected: nat)
    requires InOrder(actions)
    ensures var t := Run(actions);
            var objection := HostObjection(t, lobby, player, expected);
            && objection != Some(Internal) && objection != Some(Closed)
            && (objection == Some(NotFound) <==> lobby !in t.lobbies || t.lobbies[lobby].closed)
            && (objection.None? <==>
                  lobby in t.lobbies && !t.lobbies[lobby].closed && t.lobbies[lobby].host == player
                  && t.lobbies[lobby].version == expected)
  {
    RunIsConsistent(actions);
    var t := Run(actions);
    if lobby in t.lobbies {
      assert LobbyFits(t, lobby);
      if t.lobbies[lobby].closed {
        NoHostIsFound(t.hosts, lobby);
      } else {
        OnlyHostIsFound(t.hosts, lobby, t.lobbies[lobby].host);
      }
    }
  }

  /** The open membership of the host, joined before every other open membership of the lobby. */
  predicate HostsFromRow(members: seq<Membership>, lobby: string, host: string, e: nat)
    requires e < |members|
  {
    && IsOpenIn(members[e], lobby) && members[e].player == host
    && forall i :: 0 <= i < |members| && i != e && IsOpenIn(members[i], lobby) ==>
         members[e].joinedAt < members[i].joinedAt
  }

  lemma {:induction false} OnlyHostIsFound(hosts: seq<HostAssignment>, lobby: string, player: string)
    requires OnlyHost(hosts, lobby, player)
    ensures OpenHost(hosts, lobby) == Some(player)
  {
    var i :| 0 <= i < |hosts| && IsTheHost(hosts, lobby, player, i);
    var n := |hosts| - 1;
    if i < n {
      assert IsTheHost(hosts[..n], lobby, player, i);
      OnlyHostIsFound(hosts[..n], lobby, player);
    } else {
      NoHostIsFound(hosts[..n], lobby);
    }
  }

  lemma {:induction false} NoHostIsFound(hosts: seq<HostAssignment>, lobby: string)
    requires NoHost(hosts, lobby)
    ensures OpenHost(hosts, lobby).None?
  {
    if hosts != [] {
      NoHostIsFound(hosts[..|hosts| - 1], lobby);
    }
  }
}
