/**
 What a shot does and what a round starts with, said of the fields of the round alone: which shots hit, how
 each command is answered, who is found over a whole run, and when the phases of a new round change.
 */
module CasualShots {
  import opened Wrappers
  import opened RoundRoles
  import opened CasualRound
  import opened CasualTheorems
  import opened CasualSetup

  // ---- One command ----------------------------------------------------------------------------------

  /** A command of a hunter that has not been answered before. */
  predicate IsNew(round: Round, player: string, command: Command) {
    player in round.hunters && command.id !in round.hunters[player].commands
  }

  predicate IsReloading(hunter: HunterState, now: int) {
    hunter.reloadUntil.Some? && now < hunter.reloadUntil.value
  }

  /** The command is carried out: it is hunting time, the aim is a slot, and the gun is loaded. */
  predicate CanShoot(round: Round, player: string, command: Command, now: int) {
    && IsNew(round, player, command) && |round.hunters[player].commands| < 256
    && round.phase == Hunting && 1 <= command.aim <= round.targets
    && !IsReloading(round.hunters[player], now) && round.hunters[player].shells > 0
  }

  /** Somebody hides at the slot and has not been found. */
  predicate IsOccupied(round: Round, slot: int) {
    slot in round.hiderBySlot && round.hiderBySlot[slot] !in round.found
  }

  predicate Hits(round: Round, player: string, command: Command, now: int) {
    CanShoot(round, player, command, now) && IsOccupied(round, command.aim)
  }

  /** When each reason is given: the first of them, in this order, that applies. */
  predicate IsReason(round: Round, player: string, command: Command, now: int, reason: Reason) {
    if player !in round.hunters then reason == NotHunter
    else
      var hunter := round.hunters[player];
      match reason
      case NotHunter => false
      case LimitReached => |hunter.commands| >= 256
      case RoundTerminal => |hunter.commands| < 256 && round.phase == Terminal
      case NotHunting => |hunter.commands| < 256 && round.phase != Terminal && round.phase != Hunting
      case InvalidAim =>
        |hunter.commands| < 256 && round.phase == Hunting && !(1 <= command.aim <= round.targets)
      case Reloading =>
        && |hunter.commands| < 256 && round.phase == Hunting && 1 <= command.aim <= round.targets
        && IsReloading(hunter, now)
      case OutOfShells =>
        && |hunter.commands| < 256 && round.phase == Hunting && 1 <= command.aim <= round.targets
        && !IsReloading(hunter, now) && hunter.shells <= 0
      case Miss => CanShoot(round, player, command, now) && !IsOccupied(round, command.aim)
      case Hit => Hits(round, player, command, now)
  }

  /** The answer to a new command, field by field. */
  predicate IsAnswer(round: Round, player: string, command: Command, now: int, shot: Shot) {
    var a := shot.result;
    && a.command == command.id && a.aim == command.aim && IsReason(round, player, command, now, a.reason)
    && (a.accepted <==> a.reason == Miss || a.reason == Hit)
    && a.hider == (if a.reason == Hit then Some(round.hiderBySlot[command.aim]) else None)
    && (a.terminal <==> shot.round.phase == Terminal)
    && (if player !in round.hunters then a.shells == 0 && a.reloadUntil.None?
        else if a.accepted then
          a.shells == round.hunters[player].shells - 1 && a.reloadUntil == Some(now + round.reload)
        else a.shells == round.hunters[player].shells && a.reloadUntil == round.hunters[player].reloadUntil)
  }

  /** What a new command makes known: a hider exactly if it hits, numbered next. */
  predicate IsMadeKnown(round: Round, player: string, command: Command, now: int, shot: Shot) {
    if Hits(round, player, command, now) then
      && shot.discovery.Some?
      && var d := shot.discovery.value;
         && d.hunter == player && d.hider == round.hiderBySlot[command.aim]
         && d.sequence == |round.discoveries| + 1 && d.slot == command.aim && d.at == now
         && shot.round.found == round.found[d.hider := d] && shot.round.discoveries == round.discoveries + [d]
    else
      shot.discovery.None? && shot.round.found == round.found && shot.round.discoveries == round.discoveries
  }

  /** The round after a new command: it ends exactly with the last hider, and only the shooter's gun has changed. */
  predicate IsRoundAfter(round: Round, player: string, command: Command, now: int, shot: Shot) {
    var after := shot.round;
    && after.id == round.id && after.hiding == round.hiding && after.hunting == round.hunting
    && after.reload == round.reload && after.targets == round.targets
    && after.assignments == round.assignments && after.hiderBySlot == round.hiderBySlot
    && (if Hits(round, player, command, now) && |after.found| == |round.hiderBySlot| then
          after.phase == Terminal && after.ending == Some(Ending(Hunters, AllFound))
        else after.phase == round.phase && after.deadline == round.deadline && after.ending == round.ending)
    && (if player !in round.hunters || shot.result.reason == LimitReached then after.hunters == round.hunters
        else
          after.hunters == round.hunters[player := HunterState(
            shot.result.shells, shot.result.reloadUntil,
            round.hunters[player].commands[command.id := shot.result])])
  }

  lemma MissIsAnswered(round: Round, player: string, command: Command, now: int)
    requires CanShoot(round, player, command, now) && !IsOccupied(round, command.aim)
    ensures var shot := Fire(round, player, command, now);
            && IsAnswer(round, player, command, now, shot) && IsMadeKnown(round, player, command, now, shot)
            && IsRoundAfter(round, player, command, now, shot)
  {
  }

  lemma HitIsAnswered(round: Round, player: string, command: Command, now: int)
    requires Hits(round, player, command, now)
    ensures var shot := Fire(round, player, command, now);
            && IsAnswer(round, player, command, now, shot) && IsMadeKnown(round, player, command, now, shot)
            && IsRoundAfter(round, player, command, now, shot)
  {
  }

  lemma RefusalIsAnswered(round: Round, player: string, command: Command, now: int)
    requires !CanShoot(round, player, command, now) && (player in round.hunters ==> IsNew(round, player, command))
    ensures var shot := Fire(round, player, command, now);
            && IsAnswer(round, player, command, now, shot) && IsMadeKnown(round, player, command, now, shot)
            && IsRoundAfter(round, player, command, now, shot)
  {
  }

  /**
   Every new command, in every round: a hider is discovered if and only if it is hunting time, the aim is a
   slot, the gun is loaded and a hider who has not been found is there; every other reason is given exactly
   under its own condition, and the round is left as it should be.
   */
  lemma CommandIsAnswered(round: Round, player: string, command: Command, now: int)
    requires player in round.hunters ==> IsNew(round, player, command)
    ensures var shot := Fire(round, player, command, now);
            && IsAnswer(round, player, command, now, shot) && IsMadeKnown(round, player, command, now, shot)
            && IsRoundAfter(round, player, command, now, shot)
  {
    if Hits(round, player, command, now) {
      HitIsAnswered(round, player, command, now);
    } else if CanShoot(round, player, command, now) {
      MissIsAnswered(round, player, command, now);
    } else {
      RefusalIsAnswered(round, player, command, now);
    }
  }

  /** A command that was answered before gets its old answer and does nothing. */
  lemma RepeatIsAnswered(round: Round, player: string, command: Command, now: int)
    requires player in round.hunters && command.id in round.hunters[player].commands
    ensures Fire(round, player, command, now)
         == Shot(round, round.hunters[player].commands[command.id], None)
  {
  }

  // ---- Who is found ---------------------------------------------------------------------------------

  /** Event `n` of the run is a shot that is carried out and aimed at the slot. */
  predicate IsShotAt(round: Round, events: seq<Event>, n: nat, slot: int) {
    && n < |events| && events[n].Trigger? && events[n].command.aim == slot
    && CanShoot(Run(round, events[..n]), events[n].player, events[n].command, events[n].at)
  }

  lemma ShotAtGrows(round: Round, events: seq<Event>, n: nat, slot: int)
    requires events != []
    ensures var m := |events| - 1;
            IsShotAt(round, events, n, slot) <==>
              || IsShotAt(round, events[..m], n, slot)
              || (n == m && events[m].Trigger? && events[m].command.aim == slot
                  && CanShoot(Run(round, events[..m]), events[m].player, events[m].command, events[m].at))
  {
    var m := |events| - 1;
    if n < m {
      assert events[..m][..n] == events[..n] && events[..m][n] == events[n];
    }
  }

  /** What one event does to the found hiders. */
  lemma StepFinds(round: Round, event: Event)
    ensures var after := Step(round, event);
            && after.hiderBySlot == round.hiderBySlot
            && (if event.Trigger? && CanShoot(round, event.player, event.command, event.at)
                   && IsOccupied(round, event.command.aim) then
                  after.found == round.found[round.hiderBySlot[event.command.aim] :=
                    Discovery(event.player, round.hiderBySlot[event.command.aim], |round.discoveries| + 1,
                              event.command.aim, event.at)]
                else after.found == round.found)
  {
    if event.Tick? {
      AdvanceKeepsGuns(round, event.now);
    } else if event.player in round.hunters && !IsNew(round, event.player, event.command) {
      RepeatIsAnswered(round, event.player, event.command, event.at);
    } else {
      CommandIsAnswered(round, event.player, event.command, event.at);
    }
  }

  lemma {:induction false} SlotsStay(round: Round, events: seq<Event>)
    ensures Run(round, events).hiderBySlot == round.hiderBySlot
  {
    if events != [] {
      SlotsStay(round, events[..|events| - 1]);
      StepFinds(Run(round, events[..|events| - 1]), events[|events| - 1]);
    }
  }

  /** Slots belong to one hider each. */
  predicate SlotsApart(round: Round) {
    forall j, k :: j in round.hiderBySlot && k in round.hiderBySlot && j != k ==>
      round.hiderBySlot[j] != round.hiderBySlot[k]
  }

  ghost predicate WasShotAt(round: Round, events: seq<Event>, slot: int) {
    exists n: nat :: IsShotAt(round, events, n, slot)
  }

  lemma WasShotAtGrows(round: Round, events: seq<Event>, slot: int)
    requires events != []
    ensures var m := |events| - 1;
            WasShotAt(round, events, slot) <==>
              || WasShotAt(round, events[..m], slot)
              || (events[m].Trigger? && events[m].command.aim == slot
                  && CanShoot(Run(round, events[..m]), events[m].player, events[m].command, events[m].at))
  {
    var m := |events| - 1;
    if n: nat :| IsShotAt(round, events, n, slot) {
      ShotAtGrows(round, events, n, slot);
    }
    if n: nat :| IsShotAt(round, events[..m], n, slot) {
      ShotAtGrows(round, events, n, slot);
    }
    ShotAtGrows(round, events, m, slot);
  }

  /**
   Over any run: the hider at a slot has been found if and only if some shot that was carried out was aimed
   at it. No such shot misses, and nobody is found in any other way.
   */
  lemma {:induction false} FoundIffShotAt(round: Round, events: seq<Event>, slot: int)
    requires slot in round.hiderBySlot && SlotsApart(round) && round.found == map[]
    ensures round.hiderBySlot[slot] in Run(round, events).found <==> WasShotAt(round, events, slot)
  {
    if events != [] {
      var m := |events| - 1;
      FoundIffShotAt(round, events[..m], slot);
      SlotsStay(round, events[..m]);
      StepFinds(Run(round, events[..m]), events[m]);
      WasShotAtGrows(round, events, slot);
    }
  }

  predicate IsFirstShotAt(round: Round, events: seq<Event>, n: nat, slot: int) {
    IsShotAt(round, events, n, slot) && forall j: nat :: j < n ==> !IsShotAt(round, events, j, slot)
  }

  /** And the discovery names the hunter and the time of the first such shot. */
  lemma {:induction false} FoundByFirst(round: Round, events: seq<Event>, n: nat, slot: int)
    requires slot in round.hiderBySlot && SlotsApart(round) && round.found == map[]
    requires IsFirstShotAt(round, events, n, slot)
    ensures var hider, found := round.hiderBySlot[slot], Run(round, events).found;
            && hider in found && found[hider].hunter == events[n].player && found[hider].hider == hider
            && found[hider].slot == slot && found[hider].at == events[n].at
            && found[hider].sequence == |Run(round, events[..n]).discoveries| + 1
  {
    var m := |events| - 1;
    SlotsStay(round, events[..m]);
    StepFinds(Run(round, events[..m]), events[m]);
    FoundIffShotAt(round, events[..m], slot);
    ShotAtGrows(round, events, n, slot);
    if n < m {
      forall j: nat | j < n ensures !IsShotAt(round, events[..m], j, slot) {
        ShotAtGrows(round, events, j, slot);
      }
      assert events[..m][..n] == events[..n];
      FoundByFirst(round, events[..m], n, slot);
    } else {
      forall j: nat ensures !IsShotAt(round, events[..m], j, slot) {
        ShotAtGrows(round, events, j, slot);
      }
    }
  }

  // ---- A new round ----------------------------------------------------------------------------------

  /** The rules of a round are positive, its players named and distinct, its hiders in free slots, both sides there. */
  predicate IsWellFormed(setup: Setup) {
    && setup.id != "" && setup.mode == "casual"
    && setup.configuration.hidingSeconds > 0 && setup.configuration.huntingSeconds > 0
    && setup.configuration.shellLimit > 0 && setup.configuration.reloadMs > 0
    && Distinguished(setup.assignments) && Placed(setup.assignments, setup.targets)
    && (exists i :: 0 <= i < |setup.assignments| && setup.assignments[i].role.Hunter?)
    && (exists i :: 0 <= i < |setup.assignments| && setup.assignments[i].role.Hider?)
  }

  predicate IsNamed(assignments: seq<Assignment>, player: string) {
    exists i :: 0 <= i < |assignments| && assignments[i].player == player
  }

  predicate IsHunter(assignments: seq<Assignment>, player: string) {
    exists i :: 0 <= i < |assignments| && assignments[i].player == player && assignments[i].role.Hunter?
  }

  predicate IsTaken(assignments: seq<Assignment>, slot: int) {
    exists i :: 0 <= i < |assignments| && assignments[i].slot == slot && assignments[i].role.Hider?
  }

  /** The round has exactly these players, the hunters with full guns and the hiders in their slots. */
  ghost predicate HasPlayers(round: Round, assignments: seq<Assignment>, shellLimit: int) {
    && (forall i :: 0 <= i < |assignments| ==> HasPlayer(round, assignments[i], shellLimit))
    && (forall p :: p in round.assignments ==> IsNamed(assignments, p))
    && (forall p :: p in round.hunters ==> IsHunter(assignments, p))
    && (forall s :: s in round.hiderBySlot ==> IsTaken(assignments, s))
  }

  predicate HasPlayer(round: Round, a: Assignment, shellLimit: int) {
    && a.player in round.assignments && round.assignments[a.player] == a
    && (a.role.Hunter? ==>
          a.player in round.hunters && round.hunters[a.player] == HunterState(shellLimit, None, map[]))
    && (a.role.Hider? ==> a.slot in round.hiderBySlot && round.hiderBySlot[a.slot] == a.player)
  }

  /** Everything but the players. */
  predicate SameRules(a: Round, b: Round) {
    && b.id == a.id && b.phase == a.phase && b.deadline == a.deadline && b.hiding == a.hiding
    && b.hunting == a.hunting && b.reload == a.reload && b.targets == a.targets
    && b.found == a.found && b.discoveries == a.discoveries && b.ending == a.ending
  }

  lemma {:induction false} EnrolsIff(round: Round, assignments: seq<Assignment>, limit: int)
    requires round.assignments == map[] && round.hiderBySlot == map[] && round.hunters == map[]
    ensures EnrolAll(round, assignments, limit).Success?
       <==> Distinguished(assignments) && Placed(assignments, round.targets)
    ensures EnrolAll(round, assignments, limit).Success? ==>
              && HasPlayers(EnrolAll(round, assignments, limit).value, assignments, limit)
              && SameRules(round, EnrolAll(round, assignments, limit).value)
  {
    if assignments != [] {
      var n := |assignments| - 1;
      EnrolsIff(round, assignments[..n], limit);
      var earlier := EnrolAll(round, assignments[..n], limit);
      FitsIff(assignments, round.targets);
      if earlier.Success? {
        NextEnrolsIff(earlier.value, assignments, limit);
      }
    }
  }

  /** The last assignment is named, new, and in a slot of its own. */
  predicate LastFits(assignments: seq<Assignment>, targets: nat)
    requires assignments != []
  {
    var n := |assignments| - 1;
    && assignments[n].player != "" && (assignments[n].role.Hider? ==> 1 <= assignments[n].slot <= targets)
    && forall i :: 0 <= i < n ==>
         && assignments[i].player != assignments[n].player
         && (assignments[i].role.Hider? && assignments[n].role.Hider? ==> assignments[i].slot != assignments[n].slot)
  }

  lemma FitsIff(assignments: seq<Assignment>, targets: nat)
    requires assignments != []
    ensures var n := |assignments| - 1;
            Distinguished(assignments) && Placed(assignments, targets) <==>
              Distinguished(assignments[..n]) && Placed(assignments[..n], targets) && LastFits(assignments, targets)
  {
    var n := |assignments| - 1;
    forall i | 0 <= i < n ensures assignments[..n][i] == assignments[i] {
    }
  }

  lemma NextEnrolsIff(earlier: Round, assignments: seq<Assignment>, limit: int)
    requires assignments != [] && HasPlayers(earlier, assignments[..|assignments| - 1], limit)
    ensures var r := Enrol(earlier, assignments[|assignments| - 1], limit);
            && (r.Success? <==> LastFits(assignments, earlier.targets))
            && (r.Success? ==> HasPlayers(r.value, assignments, limit) && SameRules(earlier, r.value))
  {
    var n := |assignments| - 1;
    var last, r := assignments[n], Enrol(earlier, assignments[n], limit);
    forall i | 0 <= i < n ensures HasPlayer(earlier, assignments[i], limit) {
      assert assignments[..n][i] == assignments[i];
    }
    FreeIff(earlier, assignments, limit);
    if r.Success? {
      PlayersGrow(earlier, assignments, limit, r.value);
    }
  }

  lemma FreeIff(earlier: Round, assignments: seq<Assignment>, limit: int)
    requires assignments != [] && HasPlayers(earlier, assignments[..|assignments| - 1], limit)
    ensures var n := |assignments| - 1;
            && (assignments[n].player in earlier.assignments
                <==> exists i :: 0 <= i < n && assignments[i].player == assignments[n].player)
            && (assignments[n].slot in earlier.hiderBySlot
                <==> exists i :: 0 <= i < n && assignments[i].role.Hider? && assignments[i].slot == assignments[n].slot)
  {
    var n := |assignments| - 1;
    forall i | 0 <= i < n ensures HasPlayer(earlier, assignments[i], limit) && assignments[..n][i] == assignments[i] {
    }
  }

  lemma PlayersGrow(earlier: Round, assignments: seq<Assignment>, limit: int, after: Round)
    requires assignments != [] && HasPlayers(earlier, assignments[..|assignments| - 1], limit)
    requires Enrol(earlier, assignments[|assignments| - 1], limit) == Success(after)
    ensures HasPlayers(after, assignments, limit)
  {
    var n := |assignments| - 1;
    var shorter := assignments[..n];
    forall i | 0 <= i < |assignments| ensures HasPlayer(after, assignments[i], limit) {
      assert i < n ==> HasPlayer(earlier, shorter[i], limit) && shorter[i] == assignments[i];
    }
    forall p | p in after.assignments ensures IsNamed(assignments, p) {
      SidesGrow(assignments, p, 0);
      assert assignments[n].player == p || p in earlier.assignments;
    }
    forall p | p in after.hunters ensures IsHunter(assignments, p) {
      SidesGrow(assignments, p, 0);
      assert (assignments[n].player == p && assignments[n].role.Hunter?) || p in earlier.hunters;
    }
    forall s | s in after.hiderBySlot ensures IsTaken(assignments, s) {
      SidesGrow(assignments, "", s);
      assert (assignments[n].slot == s && assignments[n].role.Hider?) || s in earlier.hiderBySlot;
    }
  }

  lemma SidesGrow(assignments: seq<Assignment>, p: string, s: int)
    requires assignments != []
    ensures var last, shorter := assignments[|assignments| - 1], assignments[..|assignments| - 1];
            && (IsNamed(assignments, p) <==> IsNamed(shorter, p) || last.player == p)
            && (IsHunter(assignments, p) <==> IsHunter(shorter, p) || (last.player == p && last.role.Hunter?))
            && (IsTaken(assignments, s) <==> IsTaken(shorter, s) || (last.slot == s && last.role.Hider?))
  {
    var n := |assignments| - 1;
    forall i | 0 <= i < n ensures assignments[..n][i] == assignments[i] {
    }
  }

  /**
   A round can be built exactly from a well-formed set-up; it starts with the times of its configuration in
   milliseconds, with exactly its players, and with nothing found.
   */
  lemma NewRoundIff(setup: Setup)
    ensures NewRound(setup).Success? <==> IsWellFormed(setup)
    ensures NewRound(setup).Success? ==>
              var round, c := NewRound(setup).value, setup.configuration;
              && HasPlayers(round, setup.assignments, c.shellLimit)
              && round.id == setup.id && round.targets == setup.targets
              && round.phase == Preparing && round.deadline == setup.startedAt + 2000
              && round.hiding == 1000 * c.hidingSeconds && round.hunting == 1000 * c.huntingSeconds
              && round.reload == c.reloadMs
              && round.found == map[] && round.discoveries == [] && round.ending.None?
  {
    var empty := EmptyRound(setup);
    EnrolsIff(empty, setup.assignments, setup.configuration.shellLimit);
    var r := EnrolAll(empty, setup.assignments, setup.configuration.shellLimit);
    if r.Success? {
      SidesPresentIff(r.value, setup.assignments, setup.configuration.shellLimit);
    }
  }

  lemma SidesPresentIff(round: Round, assignments: seq<Assignment>, limit: int)
    requires HasPlayers(round, assignments, limit)
    ensures round.hunters == map[] <==> !exists i :: 0 <= i < |assignments| && assignments[i].role.Hunter?
    ensures round.hiderBySlot == map[] <==> !exists i :: 0 <= i < |assignments| && assignments[i].role.Hider?
  {
    if i :| 0 <= i < |assignments| && assignments[i].role.Hunter? {
      assert HasPlayer(round, assignments[i], limit);
    }
    if i :| 0 <= i < |assignments| && assignments[i].role.Hider? {
      assert HasPlayer(round, assignments[i], limit);
    }
    if round.hunters != map[] {
      var p := SomeKey(round.hunters);
    }
    if round.hiderBySlot != map[] {
      var s := SomeKey(round.hiderBySlot);
    }
  }

  /** The phase of a round at a time, by its start and its configuration. */
  function PhaseOf(startedAt: int, hidingSeconds: int, huntingSeconds: int, now: int): Phase {
    if now < startedAt + 2000 then Preparing
    else if now < startedAt + 2000 + 1000 * hidingSeconds then Hiding
    else if now < startedAt + 2000 + 1000 * hidingSeconds + 1000 * huntingSeconds then Hunting
    else Terminal
  }

  /** Left alone, a new round passes its phases at the configured times, and the hiders win at the end. */
  lemma NewRoundPhases(setup: Setup, now: int)
    requires NewRound(setup).Success?
    ensures var after := Advanced(NewRound(setup).value, now).0;
            && after.phase == PhaseOf(setup.startedAt, setup.configuration.hidingSeconds,
                                      setup.configuration.huntingSeconds, now)
            && after.ending == if after.phase == Terminal then Some(Ending(Hiders, HuntTimeout)) else None
  {
    NewRoundIff(setup);
    AdvanceIsClosedForm(NewRound(setup).value, now);
  }
}
