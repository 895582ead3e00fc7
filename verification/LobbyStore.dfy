/**
 The lobby store as it runs: tables changed in place, row by row. Every method is proved equal to its
 transaction on table values in LobbyTables, so whatever runs of those keep, this object keeps.
 */
module LobbyStore {
  import opened Wrappers
  import opened RoundRoles
  import opened LobbyTables
  import opened HidingSlots
  import opened Shuffle

  class Store {
    var lobbies: map<string, Lobby>
    var members: seq<Membership>
    var hosts: seq<HostAssignment>
    var rounds: seq<GameRound>

    constructor ()
      ensures Contents() == NO_LOBBIES
    {
      lobbies, members, hosts, rounds := map[], [], [], [];
    }

    function Contents(): Tables
      reads this
    {
      Tables(lobbies, members, hosts, rounds)
    }

    /** The outcome of a transaction: its effect if it succeeds, nothing if it is refused. */
    ghost predicate Did(before: Tables, expected: Result<Tables, Problem>, r: Option<Problem>)
      reads this
    {
      if expected.Success? then r.None? && Contents() == expected.value
      else r == Some(expected.error) && Contents() == before
    }

    method FindOpenMembership(player: string) returns (row: Option<nat>)
      ensures row == OpenMembership(members, player)
    {
      var i := 0;
      assert members[..0] == [];
      while i < |members|
        invariant i <= |members| && OpenMembership(members[..i], player).None?
      {
        assert members[..i + 1][..i] == members[..i];
        if members[i].open && members[i].player == player {
          FoundStays(members, player, i + 1);
          return Some(i);
        }
        i := i + 1;
      }
      assert members[..i] == members;
      return None;
    }

    method CountOpenMembers(lobby: string) returns (count: nat)
      ensures count == CountOpen(members, lobby)
    {
      count := 0;
      var i := 0;
      assert members[..0] == [];
      while i < |members|
        invariant i <= |members| && count == CountOpen(members[..i], lobby)
      {
        assert members[..i + 1][..i] == members[..i];
        if members[i].open && members[i].lobby == lobby {
          count := count + 1;
        }
        i := i + 1;
      }
      assert members[..i] == members;
    }

    method FindActiveRound(lobby: string) returns (active: bool)
      ensures active == ActiveRoundExists(rounds, lobby)
    {
      var i := 0;
      while i < |rounds|
        invariant i <= |rounds|
        invariant forall k :: 0 <= k < i ==> !(rounds[k].lobby == lobby && rounds[k].status == Active)
      {
        if rounds[i].lobby == lobby && rounds[i].status == Active {
          return true;
        }
        i := i + 1;
      }
      return false;
    }

    method AdvanceVersion(lobby: string)
      requires lobby in lobbies
      modifies `lobbies
      ensures Contents() == NextVersion(old(Contents()), lobby)
    {
      lobbies := lobbies[lobby := lobbies[lobby].(version := lobbies[lobby].version + 1)];
    }

    method CreateLobby(player: string, id: string, isPrivate: bool, passwordHash: string, maxPlayers: int, now: nat)
      returns (r: Option<Problem>)
      modifies this
      ensures Did(old(Contents()), Create(old(Contents()), player, id, isPrivate, passwordHash, maxPlayers, now), r)
    {
      if maxPlayers < 2 || maxPlayers > 10 {
        return Some(InvalidRequest);
      }
      var existing := FindOpenMembership(player);
      if existing.Some? {
        return None;
      }
      if (isPrivate && passwordHash == "") || id in lobbies {
        return Some(Internal);
      }
      lobbies := lobbies[id := Lobby(player, isPrivate, if isPrivate then passwordHash else "", maxPlayers, 1, false,
                                     DefaultConfiguration(maxPlayers), false)];
      members := members + [Membership(id, player, now, true, false)];
      hosts := hosts + [HostAssignment(id, player, Creator, true)];
      return None;
    }

    method JoinLobby(player: string, lobby: string, passwordMatches: string -> bool, now: nat)
      returns (r: Option<Problem>)
      modifies this
      ensures Did(old(Contents()), Join(old(Contents()), player, lobby, passwordMatches, now), r)
    {
      if lobby !in lobbies {
        return Some(NotFound);
      }
      if lobbies[lobby].closed {
        return Some(Closed);
      }
      if lobbies[lobby].isPrivate
         && (lobbies[lobby].passwordHash == "" || !passwordMatches(lobbies[lobby].passwordHash)) {
        return Some(WrongPassword);
      }
      var current := FindOpenMembership(player);
      if current.Some? && current.value < |members| {
        return if members[current.value].lobby != lobby then Some(InAnotherLobby) else None;
      }
      var count := CountOpenMembers(lobby);
      if count >= lobbies[lobby].maxPlayers {
        return Some(Full);
      }
      var active := FindActiveRound(lobby);
      if active {
        return Some(RoundIsActive);
      }
      members := members + [Membership(lobby, player, now, true, false)];
      AdvanceVersion(lobby);
      return None;
    }

    /** Closes the memberships and collects whose they were. */
    method CloseMemberships(lobby: string, players: set<string>) returns (affected: set<string>)
      modifies `members
      ensures members == CloseMembers(old(members), lobby, players)
      ensures affected == Affected(old(members), lobby, players)
    {
      affected := {};
      var i := 0;
      while i < |members|
        invariant i <= |members| == |old(members)|
        invariant forall k :: 0 <= k < i ==> members[k] == CloseMember(old(members)[k], lobby, players)
        invariant forall k :: i <= k < |members| ==> members[k] == old(members)[k]
        invariant affected == Affected(old(members)[..i], lobby, players)
      {
        assert old(members)[..i + 1] == old(members)[..i] + [members[i]];
        if members[i].open && members[i].lobby == lobby && members[i].player in players {
          affected := affected + {members[i].player};
          members := members[i := members[i].(open := false)];
        }
        i := i + 1;
      }
      assert old(members)[..i] == old(members);
    }

    method EndHostAssignments(lobby: string)
      modifies `hosts
      ensures hosts == EndHosts(old(hosts), lobby)
    {
      var i := 0;
      while i < |hosts|
        invariant i <= |hosts| == |old(hosts)|
        invariant forall k :: 0 <= k < i ==> hosts[k] == EndHost(old(hosts)[k], lobby)
        invariant forall k :: i <= k < |hosts| ==> hosts[k] == old(hosts)[k]
      {
        if hosts[i].open && hosts[i].lobby == lobby {
          hosts := hosts[i := hosts[i].(open := false)];
        }
        i := i + 1;
      }
    }

    /** The search for the next host: the open membership with the smallest join stamp. */
    method FindEarliest(lobby: string) returns (row: Option<nat>)
      ensures row == EarliestOpen(members, lobby)
    {
      row := None;
      var i := 0;
      assert members[..0] == [];
      while i < |members|
        invariant i <= |members| && row == EarliestOpen(members[..i], lobby)
        invariant row.Some? ==> row.value < i
      {
        assert members[..i + 1][..i] == members[..i];
        if members[i].open && members[i].lobby == lobby
           && (row.None? || members[i].joinedAt < members[row.value].joinedAt) {
          row := Some(i);
        }
        i := i + 1;
      }
      assert members[..i] == members;
    }

    method AbortActiveRounds(lobby: string)
      modifies `rounds
      ensures rounds == AbortRounds(old(rounds), lobby)
    {
      var i := 0;
      while i < |rounds|
        invariant i <= |rounds| == |old(rounds)|
        invariant forall k :: 0 <= k < i ==> rounds[k] == AbortRound(old(rounds)[k], lobby)
        invariant forall k :: i <= k < |rounds| ==> rounds[k] == old(rounds)[k]
      {
        if rounds[i].lobby == lobby && rounds[i].status == Active {
          rounds := rounds[i := rounds[i].(status := Aborted)];
        }
        i := i + 1;
      }
    }

    method HandOverHost(lobby: string, reason: HostReason)
      requires lobby in lobbies
      modifies this
      ensures Contents() == ReplaceHost(old(Contents()), lobby, reason)
    {
      EndHostAssignments(lobby);
      var next := FindEarliest(lobby);
      if next.None? || next.value >= |members| {
        lobbies := lobbies[lobby := lobbies[lobby].(closed := true)];
        AbortActiveRounds(lobby);
      } else {
        var player := members[next.value].player;
        hosts := hosts + [HostAssignment(lobby, player, reason, true)];
        lobbies := lobbies[lobby := lobbies[lobby].(host := player)];
      }
      AdvanceVersion(lobby);
    }

    method LeaveLobby(lobby: string, players: set<string>, reason: HostReason) returns (r: Option<Problem>)
      modifies this
      ensures Did(old(Contents()), Leave(old(Contents()), lobby, players, reason), r)
    {
      if lobby !in lobbies {
        return Some(NotFound);
      }
      if lobbies[lobby].closed || players == {} {
        return None;
      }
      var before := members;
      var affected := CloseMemberships(lobby, players);
      if affected == {} {
        members := before;
        return None;
      }
      if lobbies[lobby].host !in affected {
        AdvanceVersion(lobby);
        return None;
      }
      if reason != HostLeft && reason != HostDisconnected {
        members := before;
        return Some(Internal);
      }
      HandOverHost(lobby, reason);
      return None;
    }

    // ---- Host commands ----------------------------------------------------------------------------

    method FindOpenHost(lobby: string) returns (host: Option<string>)
      ensures host == OpenHost(hosts, lobby)
    {
      var i := 0;
      assert hosts[..0] == [];
      while i < |hosts|
        invariant i <= |hosts| && OpenHost(hosts[..i], lobby).None?
      {
        assert hosts[..i + 1][..i] == hosts[..i];
        if hosts[i].open && hosts[i].lobby == lobby {
          HostFoundStays(hosts, lobby, i + 1);
          return Some(hosts[i].player);
        }
        i := i + 1;
      }
      assert hosts[..i] == hosts;
      return None;
    }

    method LockHostConfiguration(lobby: string, player: string, expected: nat) returns (objection: Option<Problem>)
      ensures objection == HostObjection(Contents(), lobby, player, expected)
    {
      if lobby !in lobbies {
        return Some(NotFound);
      }
      var host := FindOpenHost(lobby);
      if host.None? {
        return Some(NotFound);
      }
      if lobbies[lobby].closed {
        return Some(Closed);
      }
      if lobbies[lobby].host != host.value {
        return Some(Internal);
      }
      if player != host.value {
        return Some(HostRequired);
      }
      return if lobbies[lobby].version != expected then Some(VersionChanged) else None;
    }

    method UpdateConfiguration(lobby: string, player: string, expected: nat, patch: Patch, mapChosen: bool)
      returns (r: Option<Problem>)
      modifies `lobbies
      ensures Did(old(Contents()), Configure(old(Contents()), lobby, player, expected, patch, mapChosen), r)
    {
      var objection := LockHostConfiguration(lobby, player, expected);
      if objection.Some? {
        return objection;
      }
      var active := FindActiveRound(lobby);
      if active {
        return Some(RoundIsActive);
      }
      var next := ApplyPatch(lobbies[lobby].configuration, patch, lobbies[lobby].maxPlayers);
      if next.None? {
        return Some(InvalidRequest);
      }
      lobbies := lobbies[lobby := lobbies[lobby].(configuration := next.value, hasMap := mapChosen)];
      AdvanceVersion(lobby);
      return None;
    }

    /** Sets the nomination of one member and reports whether there was such a member. */
    method MarkNomination(lobby: string, player: string, nominated: bool) returns (updated: bool)
      modifies `members
      ensures members == NominateMembers(old(members), lobby, player, nominated)
      ensures updated == (player in OpenPlayers(old(members), lobby))
    {
      updated := false;
      var i := 0;
      while i < |members|
        invariant i <= |members| == |old(members)|
        invariant forall k :: 0 <= k < i ==> members[k] == NominateMember(old(members)[k], lobby, player, nominated)
        invariant forall k :: i <= k < |members| ==> members[k] == old(members)[k]
        invariant updated == (player in OpenPlayers(old(members)[..i], lobby))
      {
        assert old(members)[..i + 1] == old(members)[..i] + [members[i]];
        if members[i].open && members[i].lobby == lobby && members[i].player == player {
          updated := true;
          members := members[i := members[i].(nominated := nominated)];
        }
        i := i + 1;
      }
      assert old(members)[..i] == old(members);
    }

    method RecordNominationChange(lobby: string, player: string, expected: nat, nominated: bool)
      returns (r: Option<Problem>)
      modifies this
      ensures Did(old(Contents()), Nominate(old(Contents()), lobby, player, expected, nominated), r)
    {
      if lobby !in lobbies {
        return Some(NotFound);
      }
      if lobbies[lobby].closed {
        return Some(Closed);
      }
      if lobbies[lobby].version != expected {
        return Some(VersionChanged);
      }
      var active := FindActiveRound(lobby);
      if active {
        return Some(RoundIsActive);
      }
      var before := members;
      var updated := MarkNomination(lobby, player, nominated);
      if !updated {
        members := before;
        return Some(MembershipRequired);
      }
      AdvanceVersion(lobby);
      return None;
    }

    method ClearNominations(lobby: string)
      modifies `members
      ensures members == ForgetNominations(old(members), lobby)
    {
      var i := 0;
      while i < |members|
        invariant i <= |members| == |old(members)|
        invariant forall k :: 0 <= k < i ==> members[k] == ForgetNomination(old(members)[k], lobby)
        invariant forall k :: i <= k < |members| ==> members[k] == old(members)[k]
      {
        if members[i].open && members[i].lobby == lobby {
          members := members[i := members[i].(nominated := false)];
        }
        i := i + 1;
      }
    }

    /** The open members in their order, and those who volunteer. */
    method ReadParticipants(lobby: string) returns (names: seq<string>, nominated: set<string>)
      ensures names == OpenNames(members, lobby) && nominated == NominatedNames(members, lobby)
    {
      names, nominated := [], {};
      var i := 0;
      assert members[..0] == [];
      while i < |members|
        invariant i <= |members| && names == OpenNames(members[..i], lobby)
        invariant nominated == NominatedNames(members[..i], lobby)
      {
        assert members[..i + 1][..i] == members[..i];
        NominatedGrow(members, lobby, i);
        if members[i].open && members[i].lobby == lobby {
          names := names + [members[i].player];
          if members[i].nominated {
            nominated := nominated + {members[i].player};
          }
        }
        i := i + 1;
      }
      assert members[..i] == members;
    }

    method AssignRound(c: Configuration, names: seq<string>, nominated: set<string>, random: Random)
      returns (cast: Option<Cast>)
      modifies random
      ensures cast == CastRound(c, names, nominated, random.answers, old(random.used))
    {
      var roles := SelectRoundRoles(names, nominated, c.hunterCount, random);
      if roles.Failure? {
        return None;
      }
      if c.mode != "casual" {
        return Some(Cast(0, roles.value));
      }
      var assignments := new Assignment[|roles.value|](i requires 0 <= i < |roles.value| => roles.value[i]);
      assert assignments[..] == roles.value;
      var targets := AssignCasualHidingSlots(assignments, random);
      if targets.Failure? {
        return None;
      }
      return Some(Cast(targets.value, assignments[..]));
    }

    method StartGameRound(lobby: string, player: string, expected: nat, mapPublished: bool, random: Random)
      returns (r: Option<Problem>)
      modifies this, random
      ensures Did(old(Contents()), StartRound(old(Contents()), lobby, player, expected, mapPublished, random.answers,
                                              old(random.used)), r)
    {
      var objection := LockHostConfiguration(lobby, player, expected);
      if objection.Some? {
        return objection;
      }
      if !lobbies[lobby].hasMap || !mapPublished {
        return Some(NoMap);
      }
      var active := FindActiveRound(lobby);
      if active {
        return Some(RoundIsActive);
      }
      var c := lobbies[lobby].configuration;
      var names, nominated := ReadParticipants(lobby);
      if |names| < c.hunterCount + 1 {
        return Some(TooFewPlayers);
      }
      var cast := AssignRound(c, names, nominated, random);
      if cast.None? {
        return Some(Internal);
      }
      rounds := rounds +
        [GameRound(lobby, NextSequence(rounds, lobby), Active, OpenPlayers(members, lobby), c, cast.value)];
      AdvanceVersion(lobby);
      ClearNominations(lobby);
      return None;
    }
  }

  lemma NominatedGrow(members: seq<Membership>, lobby: string, i: nat)
    requires i < |members|
    ensures NominatedNames(members[..i + 1], lobby)
         == NominatedNames(members[..i], lobby)
            + if IsOpenIn(members[i], lobby) && members[i].nominated then {members[i].player} else {}
  {
    assert members[..i + 1] == members[..i] + [members[i]];
  }

  lemma {:induction false} HostFoundStays(hosts: seq<HostAssignment>, lobby: string, n: nat)
    requires n <= |hosts| && OpenHost(hosts[..n], lobby).Some?
    ensures OpenHost(hosts, lobby) == OpenHost(hosts[..n], lobby)
    decreases |hosts|
  {
    if n == |hosts| {
      assert hosts[..n] == hosts;
    } else {
      var shorter := hosts[..|hosts| - 1];
      assert shorter[..n] == hosts[..n];
      HostFoundStays(shorter, lobby, n);
    }
  }

  lemma {:induction false} FoundStays(members: seq<Membership>, player: string, n: nat)
    requires n <= |members| && OpenMembership(members[..n], player).Some?
    ensures OpenMembership(members, player) == OpenMembership(members[..n], player)
    decreases |members|
  {
    if n == |members| {
      assert members[..n] == members;
    } else {
      var shorter := members[..|members| - 1];
      assert shorter[..n] == members[..n];
      FoundStays(shorter, player, n);
    }
  }
}
