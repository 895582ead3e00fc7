/**
 From the lobby to the round: whatever a lobby went through, its configuration is one the patch
 function accepts, and every round it ever started can be played.
 */
module RoundStart {
  import opened Wrappers
  import opened RoundRoles
  import opened HidingSlots
  import opened LobbyTables
  import opened LobbyTheorems
  import CasualRound
  import CasualSetup

  const NO_CHANGE := Patch(None, None, None, None, None, None, None, None, None)

  /** The configuration is within all bounds: the patch function accepts it as it is. */
  predicate IsAccepted(c: Configuration, maxPlayers: int) {
    ApplyPatch(c, NO_CHANGE, maxPlayers) == Some(c)
  }

  lemma PatchedIsAccepted(current: Configuration, patch: Patch, maxPlayers: int)
    requires ApplyPatch(current, patch, maxPlayers).Some?
    ensures IsAccepted(ApplyPatch(current, patch, maxPlayers).value, maxPlayers)
  {
  }

  predicate LobbiesAccepted(t: Tables) {
    forall id :: id in t.lobbies ==> IsAccepted(t.lobbies[id].configuration, t.lobbies[id].maxPlayers)
  }

  // ---- What a cast round is ---------------------------------------------------------------------------

  /** The round can be built from its cast, under any id and at any time. */
  ghost predicate IsPlayable(r: GameRound) {
    r.configuration.mode == "casual" ==>
      forall id: string, startedAt: int :: id != "" ==> IsBuilt(r, id, startedAt)
  }

  predicate IsBuilt(r: GameRound, id: string, startedAt: int) {
    CasualRound.NewRound(CasualRound.Setup(id, r.configuration.mode, startedAt, r.configuration, r.cast.targets,
                                           r.cast.assignments)).Success?
  }

  /** Everyone who took part has a role, and as many hunt as configured. */
  ghost predicate IsCast(r: GameRound) {
    && r.participants == (set i | 0 <= i < |r.cast.assignments| :: r.cast.assignments[i].player)
    && |HuntersOf(r.cast.assignments)| == r.configuration.hunterCount
    && exists i :: 0 <= i < |r.cast.assignments| && r.cast.assignments[i].role.Hider?
  }

  ghost predicate RoundsPlayable(t: Tables) {
    forall i :: 0 <= i < |t.rounds| ==> IsPlayable(t.rounds[i]) && IsCast(t.rounds[i])
  }

  lemma {:induction false} NamesAreOpen(members: seq<Membership>, lobby: string)
    ensures forall p :: p in OpenNames(members, lobby) <==> p in OpenPlayers(members, lobby)
  {
    if members != [] {
      var n := |members| - 1;
      NamesAreOpen(members[..n], lobby);
      assert members == members[..n] + [members[n]];
    }
  }

  /** Slots change neither who plays nor who hunts. */
  lemma HiddenKeepsSides(roles: seq<Assignment>, targets: nat, hidden: seq<Assignment>)
    requires AreHidden(roles, targets, hidden)
    ensures HuntersOf(hidden) == HuntersOf(roles)
    ensures forall i :: 0 <= i < |roles| ==> hidden[i].player == roles[i].player && hidden[i].role == roles[i].role
  {
    forall p | p in HuntersOf(hidden) ensures p in HuntersOf(roles) {
      var a :| a in hidden && a.role.Hunter? && a.player == p;
      var i :| 0 <= i < |hidden| && hidden[i] == a;
      assert roles[i] in roles;
    }
    forall p | p in HuntersOf(roles) ensures p in HuntersOf(hidden) {
      var a :| a in roles && a.role.Hunter? && a.player == p;
      var i :| 0 <= i < |roles| && roles[i] == a;
      assert hidden[i] in hidden;
    }
  }

  lemma CastSides(c: Configuration, names: seq<string>, nominated: set<string>, answers: nat -> Option<nat>, at: nat)
    requires CastRound(c, names, nominated, answers, at).Some?
    ensures var cast := CastRound(c, names, nominated, answers, at).value;
            && |cast.assignments| == |names|
            && (forall i :: 0 <= i < |names| ==> cast.assignments[i].player == names[i])
            && |HuntersOf(cast.assignments)| == c.hunterCount
            && (exists i :: 0 <= i < |cast.assignments| && cast.assignments[i].role.Hider?)
  {
    var roles := SelectRoles(names, nominated, c.hunterCount, answers, at).value;
    SelectRolesIsFair(names, nominated, c.hunterCount, answers, at);
    var i :| 0 <= i < |roles| && roles[i].role.Hider?;
    var cast := CastRound(c, names, nominated, answers, at).value;
    if c.mode == "casual" {
      AssignSlotsHides(roles, answers, at + RolesDraws(names, nominated));
      HiddenKeepsSides(roles, cast.targets, cast.assignments);
    }
    assert cast.assignments[i].role.Hider?;
  }

  /** With an accepted configuration the cast of a casual round is never rejected. */
  lemma CastIsBuilt(c: Configuration, maxPlayers: int, names: seq<string>, nominated: set<string>,
                    answers: nat -> Option<nat>, at: nat, id: string, startedAt: int)
    requires IsAccepted(c, maxPlayers) && c.mode == "casual" && id != ""
    requires CastRound(c, names, nominated, answers, at).Some?
    ensures var cast := CastRound(c, names, nominated, answers, at).value;
            CasualRound.NewRound(CasualRound.Setup(id, c.mode, startedAt, c, cast.targets, cast.assignments)).Success?
  {
    CasualSetup.SetupIsNeverRejected(c, NO_CHANGE, maxPlayers, names, nominated, answers, at,
                                     at + RolesDraws(names, nominated), id, startedAt);
  }

  lemma StartedIsPlayable(t: Tables, lobby: string, r: GameRound, answers: nat -> Option<nat>, at: nat)
    requires lobby in t.lobbies && LobbiesAccepted(t)
    requires r.participants == OpenPlayers(t.members, lobby) && r.configuration == t.lobbies[lobby].configuration
    requires CastRound(r.configuration, OpenNames(t.members, lobby), NominatedNames(t.members, lobby), answers, at)
          == Some(r.cast)
    ensures IsPlayable(r) && IsCast(r)
  {
    var names, nominated := OpenNames(t.members, lobby), NominatedNames(t.members, lobby);
    CastSides(r.configuration, names, nominated, answers, at);
    NamesAreOpen(t.members, lobby);
    forall p | p in names ensures p in (set i | 0 <= i < |r.cast.assignments| :: r.cast.assignments[i].player) {
      var i :| 0 <= i < |names| && names[i] == p;
      assert r.cast.assignments[i].player == p;
    }
    if r.configuration.mode == "casual" {
      forall id: string, startedAt: int | id != "" ensures IsBuilt(r, id, startedAt) {
        CastIsBuilt(r.configuration, t.lobbies[lobby].maxPlayers, names, nominated, answers, at, id, startedAt);
      }
    }
  }

  // ---- Over all runs ----------------------------------------------------------------------------------

  lemma AttemptStaysAccepted(t: Tables, action: Action)
    requires LobbiesAccepted(t) && Attempt(t, action).Success?
    ensures LobbiesAccepted(Attempt(t, action).value)
  {
    if action.Configures? {
      PatchedIsAccepted(t.lobbies[action.lobby].configuration, action.patch, t.lobbies[action.lobby].maxPlayers);
    }
  }

  lemma AttemptStaysPlayable(t: Tables, action: Action)
    requires LobbiesAccepted(t) && RoundsPlayable(t) && Attempt(t, action).Success?
    ensures RoundsPlayable(Attempt(t, action).value)
  {
    var u := Attempt(t, action).value;
    if action.LeavesLobby? {
      LeaveStaysPlayable(t, action.lobby, action.players, action.reason);
    } else if action.Starts? {
      var last := u.rounds[|t.rounds|];
      assert u.rounds == t.rounds + [last];
      StartedIsPlayable(t, action.lobby, last, action.answers, action.at);
    } else if action.Ends? {
      StatusDoesNotMatter(t.rounds[action.row], action.status);
    } else {
      assert u.rounds == t.rounds;
    }
  }

  lemma StatusDoesNotMatter(r: GameRound, status: Status)
    requires IsPlayable(r) && IsCast(r)
    ensures IsPlayable(r.(status := status)) && IsCast(r.(status := status))
  {
    var s := r.(status := status);
    forall id: string, startedAt: int | id != "" && s.configuration.mode == "casual" ensures IsBuilt(s, id, startedAt) {
      assert IsBuilt(r, id, startedAt);
    }
  }

  lemma LeaveStaysPlayable(t: Tables, lobby: string, players: set<string>, reason: HostReason)
    requires RoundsPlayable(t) && Leave(t, lobby, players, reason).Success?
    ensures RoundsPlayable(Leave(t, lobby, players, reason).value)
  {
    var u := Leave(t, lobby, players, reason).value;
    forall i | 0 <= i < |u.rounds| ensures IsPlayable(u.rounds[i]) && IsCast(u.rounds[i]) {
      StatusDoesNotMatter(t.rounds[i], u.rounds[i].status);
      assert u.rounds[i] == t.rounds[i].(status := u.rounds[i].status);
    }
  }

  /**
   In every reachable state every lobby has an accepted configuration, and every round ever started
   gave each participant a role, the configured number of hunters and someone to hide, and is never
   rejected when it is built.
   */
  lemma {:induction false} EveryRoundIsPlayable(actions: seq<Action>)
    ensures LobbiesAccepted(Run(actions)) && RoundsPlayable(Run(actions))
  {
    if actions != [] {
      var n := |actions| - 1;
      EveryRoundIsPlayable(actions[..n]);
      if Attempt(Run(actions[..n]), actions[n]).Success? {
        AttemptStaysAccepted(Run(actions[..n]), actions[n]);
        AttemptStaysPlayable(Run(actions[..n]), actions[n]);
      }
    }
  }

  // ---- Starting fails for no other reason -------------------------------------------------------------

  lemma {:induction false} NamesAreDistinct(members: seq<Membership>, lobby: string)
    requires forall i, j :: 0 <= i < j < |members| && members[i].open && members[j].open ==>
               members[i].player != members[j].player
    ensures Shuffle.Distinct(OpenNames(members, lobby))
  {
    if members != [] {
      var n := |members| - 1;
      NamesAreDistinct(members[..n], lobby);
      NamesAreOpen(members[..n], lobby);
      forall p | p in OpenNames(members[..n], lobby) && members[n].open ensures p != members[n].player {
        var m :| m in members[..n] && IsOpenIn(m, lobby) && m.player == p;
        var i :| 0 <= i < n && members[..n][i] == m;
        assert members[i] == m;
      }
      var earlier, all := OpenNames(members[..n], lobby), OpenNames(members, lobby);
      forall i, j | 0 <= i < j < |all| ensures all[i] != all[j] {
        assert all[i] == earlier[i] && earlier[i] in earlier;
      }
    }
  }

  lemma DrawsSuffice(c: Configuration, maxPlayers: int, names: seq<string>, nominated: set<string>,
                     answers: nat -> Option<nat>, at: nat)
    requires IsAccepted(c, maxPlayers) && ValidMembers(names) && |names| > c.hunterCount
    requires forall k :: answers(k).Some?
    ensures CastRound(c, names, nominated, answers, at).Some?
  {
    SelectRolesIsFair(names, nominated, c.hunterCount, answers, at);
    var roles := SelectRoles(names, nominated, c.hunterCount, answers, at).value;
    SlotsAreDrawn(names, nominated, c.hunterCount, roles, answers, at + RolesDraws(names, nominated));
  }

  lemma SlotsAreDrawn(names: seq<string>, nominated: set<string>, hunterCount: nat, roles: seq<Assignment>,
                      answers: nat -> Option<nat>, at: nat)
    requires AreFair(names, nominated, hunterCount, roles) && forall k :: answers(k).Some?
    ensures AssignSlots(roles, answers, at).Success?
  {
    AssignSlotsHides(roles, answers, at);
    var i :| 0 <= i < |roles| && roles[i].role.Hider?;
    assert !roles[i].role.Hunter?;
  }

  /**
   For every reachable lobby of named players and every random source that always draws: the host's
   start succeeds exactly when the host command is in order, a published map is chosen, no round is
   active and there are more players than hunters.
   */
  lemma StartSucceedsIff(actions: seq<Action>, lobby: string, player: string, expected: nat, mapPublished: bool,
                         answers: nat -> Option<nat>, at: nat)
    requires InOrder(actions) && forall k :: answers(k).Some?
    requires "" !in OpenNames(Run(actions).members, lobby)
    ensures var t := Run(actions);
            StartRound(t, lobby, player, expected, mapPublished, answers, at).Success? <==>
              && HostObjection(t, lobby, player, expected).None?
              && t.lobbies[lobby].hasMap && mapPublished && !ActiveRoundExists(t.rounds, lobby)
              && |OpenNames(t.members, lobby)| > t.lobbies[lobby].configuration.hunterCount
  {
    var t := Run(actions);
    RunIsConsistent(actions);
    EveryRoundIsPlayable(actions);
    NamesAreDistinct(t.members, lobby);
    if lobby in t.lobbies && |OpenNames(t.members, lobby)| > t.lobbies[lobby].configuration.hunterCount {
      DrawsSuffice(t.lobbies[lobby].configuration, t.lobbies[lobby].maxPlayers, OpenNames(t.members, lobby),
                   NominatedNames(t.members, lobby), answers, at);
    }
  }
}
