/** What holds of a casual round over all of its runs. */
module CasualTheorems {
  import opened Wrappers
  import opened RoundRoles
  import opened CasualRound

  // ---- The clock ------------------------------------------------------------------------------------

  /** Where the clock of a round that has not ended stands at `now`, without stepping through the phases. */
  function PhaseAt(round: Round, now: int): Round {
    var hidingEnd := round.deadline + (if round.phase == Preparing then round.hiding else 0);
    var huntingEnd := hidingEnd + (if round.phase == Preparing || round.phase == Hiding then round.hunting else 0);
    if !IsDue(round, now) then round
    else if round.phase == OtherPhase then Completed(round, Nobody, InvalidPhase)
    else if now >= huntingEnd then Completed(round, Hiders, HuntTimeout)
    else if now >= hidingEnd && round.phase == Preparing then round.(phase := Hunting, deadline := huntingEnd)
    else if round.phase == Preparing then round.(phase := Hiding, deadline := hidingEnd)
    else round.(phase := Hunting, deadline := huntingEnd)
  }

  predicate HasDurations(round: Round) {
    round.hiding > 0 && round.hunting > 0 && round.reload > 0
  }

  /** The loop computes the closed form, in at most as many turns as there are phases left. */
  lemma {:induction false} AdvanceIsClosedForm(round: Round, now: int)
    requires HasDurations(round)
    ensures Advanced(round, now).0 == PhaseAt(round, now)
    ensures |Advanced(round, now).1| <= TurnsLeft(round.phase) <= 3
    decreases TurnsLeft(round.phase)
  {
    if IsDue(round, now) {
      AdvanceIsClosedForm(NextPhase(round), now);
    }
  }

  /** Ticks in between change nothing: the later one lands where it would have landed alone. */
  lemma {:induction false} ExtraTicksVanish(round: Round, first: int, second: int)
    requires first <= second
    ensures var between := Advanced(round, first);
            && Advanced(between.0, second).0 == Advanced(round, second).0
            && between.1 + Advanced(between.0, second).1 == Advanced(round, second).1
    decreases TurnsLeft(round.phase)
  {
    if IsDue(round, first) {
      var next := NextPhase(round);
      ExtraTicksVanish(next, first, second);
      var between := Advanced(next, first);
      assert Advanced(round, first).1 == [next.phase] + between.1;
      assert ([next.phase] + between.1) + Advanced(between.0, second).1
          == [next.phase] + (between.1 + Advanced(between.0, second).1);
    } else {
      assert Advanced(round, first) == (round, []);
    }
  }

  // ---- Runs -----------------------------------------------------------------------------------------

  datatype Event = Tick(now: int) | Trigger(player: string, command: Command, at: int)

  function Step(round: Round, event: Event): Round {
    match event
    case Tick(now) => Advanced(round, now).0
    case Trigger(player, command, at) => Fire(round, player, command, at).round
  }

  function Run(round: Round, events: seq<Event>): Round {
    if events == [] then round else Step(Run(round, events[..|events| - 1]), events[|events| - 1])
  }

  /** Whether the event is a shot of the player that is carried out, not merely answered again. */
  predicate IsNewShot(round: Round, event: Event, player: string) {
    && event.Trigger? && event.player == player && player in round.hunters
    && event.command.id !in round.hunters[player].commands
    && Fire(round, player, event.command, event.at).result.accepted
  }

  /** The times at which shots of the player were carried out. */
  function ShotTimes(round: Round, events: seq<Event>, player: string): seq<int> {
    if events == [] then []
    else
      var n := |events| - 1;
      ShotTimes(round, events[..n], player) +
      if IsNewShot(Run(round, events[..n]), events[n], player) then [events[n].at] else []
  }

  // ---- The invariant --------------------------------------------------------------------------------

  /** Who takes part: hunters and hiders are the assigned ones, and no two hiders share a slot. */
  ghost predicate SidesAgree(round: Round) {
    && (forall p :: p in round.hunters <==> p in round.assignments && round.assignments[p].role.Hunter?)
    && (forall k :: k in round.hiderBySlot ==>
          1 <= k <= round.targets && round.hiderBySlot[k] in round.assignments
          && round.assignments[round.hiderBySlot[k]].role.Hider?)
    && (forall j, k :: j in round.hiderBySlot && k in round.hiderBySlot && j != k ==>
          round.hiderBySlot[j] != round.hiderBySlot[k])
    && (forall p :: p in round.assignments && round.assignments[p].role.Hider? ==> IsHidden(round, p))
  }

  predicate IsHidden(round: Round, player: string) {
    exists k :: k in round.hiderBySlot && round.hiderBySlot[k] == player
  }

  function AcceptedIds(commands: map<string, FireResult>): set<string> {
    set id | id in commands && commands[id].accepted
  }

  /** The shells that are left and the shots that were carried out make up the limit. */
  predicate ShellsAgree(round: Round, limit: int) {
    forall p :: p in round.hunters ==>
      && round.hunters[p].shells >= 0
      && round.hunters[p].shells + |AcceptedIds(round.hunters[p].commands)| == limit
  }

  predicate DiscoveryFits(round: Round, i: nat)
    requires i < |round.discoveries|
  {
    var d := round.discoveries[i];
    && d.sequence == i + 1 && d.hunter in round.hunters
    && d.slot in round.hiderBySlot && round.hiderBySlot[d.slot] == d.hider
    && d.hider in round.found && round.found[d.hider] == d
  }

  predicate DiscoveriesAgree(round: Round) {
    && |round.found| == |round.discoveries|
    && (forall i :: 0 <= i < |round.discoveries| ==> DiscoveryFits(round, i))
    && (forall h :: h in round.found ==> IsHidden(round, h))
  }

  predicate EndingAgrees(round: Round) {
    && (round.phase == Terminal <==> round.ending.Some?)
    && (round.ending == Some(Ending(Hunters, AllFound)) <==> |round.found| == |round.hiderBySlot|)
    && (round.ending.Some? && round.ending.value.side == Hunters ==> round.ending.value.cause == AllFound)
    && round.phase != OtherPhase
  }

  ghost predicate Invariant(round: Round, limit: int) {
    && SidesAgree(round) && ShellsAgree(round, limit) && DiscoveriesAgree(round) && EndingAgrees(round)
    && HasDurations(round)
  }

  // ---- A shot keeps it --------------------------------------------------------------------------------

  /** The predicates that mention neither hunters' shells nor the ending survive any change of those. */
  lemma SidesFrame(round: Round, after: Round)
    requires SidesAgree(round)
    requires after.assignments == round.assignments && after.hiderBySlot == round.hiderBySlot
    requires after.targets == round.targets && after.hunters.Keys == round.hunters.Keys
    ensures SidesAgree(after)
  {
    forall p | p in after.assignments && after.assignments[p].role.Hider? ensures IsHidden(after, p) {
      assert IsHidden(round, p);
    }
    forall p ensures p in after.hunters <==> p in after.assignments && after.assignments[p].role.Hunter? {
      assert p in after.hunters <==> p in after.hunters.Keys;
    }
  }

  lemma DiscoveriesFrame(round: Round, after: Round)
    requires DiscoveriesAgree(round)
    requires after.found == round.found && after.discoveries == round.discoveries
    requires after.hiderBySlot == round.hiderBySlot && after.hunters.Keys == round.hunters.Keys
    ensures DiscoveriesAgree(after)
  {
    forall i | 0 <= i < |after.discoveries| ensures DiscoveryFits(after, i) {
      assert DiscoveryFits(round, i);
      assert round.discoveries[i].hunter in round.hunters.Keys;
    }
    forall h | h in after.found ensures IsHidden(after, h) {
      assert IsHidden(round, h);
    }
  }

  lemma NextPhaseKeeps(round: Round, limit: int)
    requires Invariant(round, limit) && round.phase != Terminal
    ensures Invariant(NextPhase(round), limit)
  {
    SidesFrame(round, NextPhase(round));
    DiscoveriesFrame(round, NextPhase(round));
  }

  lemma {:induction false} AdvanceKeeps(round: Round, limit: int, now: int)
    requires Invariant(round, limit)
    ensures Invariant(Advanced(round, now).0, limit)
    decreases TurnsLeft(round.phase)
  {
    if IsDue(round, now) {
      NextPhaseKeeps(round, limit);
      AdvanceKeeps(NextPhase(round), limit, now);
      assert Advanced(round, now).0 == Advanced(NextPhase(round), now).0;
    } else {
      assert Advanced(round, now).0 == round;
    }
  }

  lemma AcceptedGrow(commands: map<string, FireResult>, result: FireResult)
    requires result.command !in commands
    ensures |AcceptedIds(commands[result.command := result])|
         == |AcceptedIds(commands)| + if result.accepted then 1 else 0
  {
    var more := commands[result.command := result];
    if result.accepted {
      assert AcceptedIds(more) == AcceptedIds(commands) + {result.command};
    } else {
      assert AcceptedIds(more) == AcceptedIds(commands);
    }
  }

  /** Remembering a new answer keeps the shell count, if the shell is spent exactly when it was accepted. */
  lemma RememberKeepsShells(round: Round, limit: int, player: string, hunter: HunterState, result: FireResult)
    requires ShellsAgree(round, limit) && player in round.hunters
    requires hunter.commands == round.hunters[player].commands && result.command !in hunter.commands
    requires hunter.shells == round.hunters[player].shells - (if result.accepted then 1 else 0) && hunter.shells >= 0
    ensures ShellsAgree(Remember(round, player, hunter, result), limit)
  {
    AcceptedGrow(hunter.commands, result);
  }

  /** A discovery of a hidden player who was not found before is one more that fits. */
  lemma DiscoveriesGrow(round: Round, after: Round, discovery: Discovery)
    requires DiscoveriesAgree(round) && discovery.hunter in round.hunters
    requires discovery.sequence == |round.discoveries| + 1
    requires Target(round, discovery.slot) == Some(discovery.hider)
    requires after.found == round.found[discovery.hider := discovery]
    requires after.discoveries == round.discoveries + [discovery]
    requires after.hiderBySlot == round.hiderBySlot && after.hunters == round.hunters
    ensures DiscoveriesAgree(after) && |after.found| == |round.found| + 1
  {
    assert after.found.Keys == round.found.Keys + {discovery.hider};
    forall i | 0 <= i < |after.discoveries| ensures DiscoveryFits(after, i) {
      if i < |round.discoveries| {
        assert DiscoveryFits(round, i);
      }
    }
    forall h | h in after.found ensures IsHidden(after, h) {
      if h == discovery.hider {
        assert after.hiderBySlot[discovery.slot] == h;
      } else {
        assert IsHidden(round, h);
      }
    }
  }

  /** A discovery is new, numbered next, and ends the round exactly when it was the last. */
  lemma DiscoverKeeps(round: Round, limit: int, discovery: Discovery)
    requires Invariant(round, limit) && round.phase == Hunting
    requires discovery.hunter in round.hunters && discovery.sequence == |round.discoveries| + 1
    requires Target(round, discovery.slot) == Some(discovery.hider)
    ensures Invariant(Discover(round, discovery), limit)
  {
    var after := Discover(round, discovery);
    SidesFrame(round, after);
    DiscoveriesGrow(round, after, discovery);
    DiscoverEnds(round, discovery);
  }

  lemma DiscoverEnds(round: Round, discovery: Discovery)
    requires EndingAgrees(round) && round.phase == Hunting
    ensures EndingAgrees(Discover(round, discovery))
    ensures Discover(round, discovery).hunters == round.hunters
  {
  }

  function Loaded(hunter: HunterState, reload: int, now: int): HunterState {
    HunterState(hunter.shells - 1, Some(now + reload), hunter.commands)
  }

  /** A shot in two steps: the discovery, if any, and then the answer. */
  predicate IsInSteps(round: Round, player: string, loaded: HunterState, command: Command, shot: Shot) {
    && shot.result.accepted && shot.result.command == command.id
    && (shot.discovery.None? ==> shot.round == Remember(round, player, loaded, shot.result))
    && (shot.discovery.Some? ==>
          && shot.discovery.value.hunter == player
          && shot.discovery.value.sequence == |round.discoveries| + 1
          && Target(round, shot.discovery.value.slot) == Some(shot.discovery.value.hider)
          && shot.round == Remember(Discover(round, shot.discovery.value), player, loaded, shot.result))
  }

  lemma ShootInSteps(round: Round, player: string, hunter: HunterState, command: Command, now: int)
    ensures IsInSteps(round, player, Loaded(hunter, round.reload, now), command,
                      Shoot(round, player, hunter, command, now))
  {
  }

  lemma StepsKeep(round: Round, limit: int, player: string, loaded: HunterState, command: Command, shot: Shot)
    requires Invariant(round, limit) && round.phase == Hunting && player in round.hunters
    requires loaded.commands == round.hunters[player].commands && command.id !in loaded.commands
    requires loaded.shells == round.hunters[player].shells - 1 && loaded.shells >= 0
    requires IsInSteps(round, player, loaded, command, shot)
    ensures Invariant(shot.round, limit)
  {
    if shot.discovery.Some? {
      var discovery := shot.discovery.value;
      DiscoverKeeps(round, limit, discovery);
      DiscoverEnds(round, discovery);
      RememberKeeps(Discover(round, discovery), limit, player, loaded, shot.result);
    } else {
      RememberKeeps(round, limit, player, loaded, shot.result);
    }
  }

  lemma ShootKeeps(round: Round, limit: int, player: string, command: Command, now: int)
    requires Invariant(round, limit) && player in round.hunters
    requires command.id !in round.hunters[player].commands
    requires Refusal(round, round.hunters[player], command, now).None?
    ensures Invariant(Shoot(round, player, round.hunters[player], command, now).round, limit)
  {
    var hunter := round.hunters[player];
    ShootInSteps(round, player, hunter, command, now);
    StepsKeep(round, limit, player, Loaded(hunter, round.reload, now), command,
              Shoot(round, player, hunter, command, now));
  }

  lemma RememberKeeps(round: Round, limit: int, player: string, hunter: HunterState, result: FireResult)
    requires Invariant(round, limit) && player in round.hunters
    requires hunter.commands == round.hunters[player].commands && result.command !in hunter.commands
    requires hunter.shells == round.hunters[player].shells - (if result.accepted then 1 else 0) && hunter.shells >= 0
    ensures Invariant(Remember(round, player, hunter, result), limit)
  {
    var after := Remember(round, player, hunter, result);
    RememberKeepsShells(round, limit, player, hunter, result);
    assert after.hunters.Keys == round.hunters.Keys;
    SidesFrame(round, after);
    DiscoveriesFrame(round, after);
  }

  lemma FireKeeps(round: Round, limit: int, player: string, command: Command, now: int)
    requires Invariant(round, limit)
    ensures Invariant(Fire(round, player, command, now).round, limit)
  {
    if player in round.hunters && command.id !in round.hunters[player].commands {
      var hunter := round.hunters[player];
      if Refusal(round, hunter, command, now).None? {
        ShootKeeps(round, limit, player, command, now);
      } else if Refusal(round, hunter, command, now) != Some(LimitReached) {
        RememberKeeps(round, limit, player, hunter, Fire(round, player, command, now).result);
      }
    }
  }

  /** Round accounting: every state of every run keeps the books. */
  lemma {:induction false} RunKeeps(round: Round, limit: int, events: seq<Event>)
    requires Invariant(round, limit)
    ensures Invariant(Run(round, events), limit)
  {
    if events != [] {
      var n := |events| - 1;
      RunKeeps(round, limit, events[..n]);
      match events[n]
      case Tick(now) => AdvanceKeeps(Run(round, events[..n]), limit, now);
      case Trigger(player, command, at) => FireKeeps(Run(round, events[..n]), limit, player, command, at);
    }
  }

  // ---- What the invariant means -----------------------------------------------------------------------

  lemma HidersAreSlots(round: Round)
    requires SidesAgree(round)
    ensures |round.hiderBySlot.Values| == |round.hiderBySlot|
    ensures forall p :: p in round.hiderBySlot.Values <==> p in round.assignments && round.assignments[p].role.Hider?
  {
    InjectiveValues(round.hiderBySlot);
    forall p | p in round.assignments && round.assignments[p].role.Hider? ensures p in round.hiderBySlot.Values {
      assert IsHidden(round, p);
    }
  }

  lemma {:induction false} InjectiveValues(m: map<int, string>)
    requires forall j, k :: j in m && k in m && j != k ==> m[j] != m[k]
    ensures |m.Values| == |m|
    decreases |m|
  {
    if m.Keys == {} {
      assert m.Values == {};
    } else {
      var k := SomeKey(m);
      var rest := m - {k};
      InjectiveValues(rest);
      assert m == rest[k := m[k]];
      forall v | v in m.Values ensures v in rest.Values + {m[k]} {
        var j :| j in m && m[j] == v;
        assert j != k ==> j in rest && rest[j] == v;
      }
      forall v | v in rest.Values ensures v in m.Values && v != m[k] {
        var j :| j in rest && rest[j] == v;
        assert j in m && m[j] == v;
      }
      assert m.Values == rest.Values + {m[k]};
    }
  }

  lemma SomeKey<K, V>(m: map<K, V>) returns (k: K)
    requires m.Keys != {}
    ensures k in m
  {
    k :| k in m.Keys;
  }

  lemma {:induction false} SubsetOfSameSize(a: set<string>, b: set<string>)
    requires a <= b && |a| == |b|
    ensures a == b
  {
    if a != {} {
      var x :| x in a;
      SubsetOfSameSize(a - {x}, b - {x});
    } else {
      assert b == {};
    }
  }

  /** The hunters win exactly when every hider has been found. */
  lemma HuntersWinIffAllFound(round: Round, limit: int)
    requires Invariant(round, limit)
    ensures (round.ending.Some? && round.ending.value.side == Hunters)
       <==> forall p :: p in round.assignments && round.assignments[p].role.Hider? ==> p in round.found
  {
    HidersAreSlots(round);
    forall h | h in round.found.Keys ensures h in round.hiderBySlot.Values {
      assert IsHidden(round, h);
    }
    assert |round.found.Keys| == |round.found|;
    if |round.found| == |round.hiderBySlot| {
      SubsetOfSameSize(round.found.Keys, round.hiderBySlot.Values);
    }
    if forall p :: p in round.assignments && round.assignments[p].role.Hider? ==> p in round.found {
      assert round.hiderBySlot.Values == round.found.Keys;
    }
  }

  // ---- Shots over a run -------------------------------------------------------------------------------

  /** What one event does to the gun of a hunter: nothing, unless it is a shot of his that is carried out. */
  lemma StepAndGun(round: Round, event: Event, player: string)
    requires player in round.hunters
    ensures Step(round, event).reload == round.reload
    ensures player in Step(round, event).hunters
    ensures GunMoves(round, event, player, round.hunters[player], Step(round, event).hunters[player])
  {
    if event.Tick? {
      AdvanceKeepsGuns(round, event.now);
    } else {
      FireAndGun(round, event.player, event.command, event.at, player);
    }
  }

  predicate GunMoves(round: Round, event: Event, player: string, before: HunterState, after: HunterState) {
    if IsNewShot(round, event, player) then
      && after.shells == before.shells - 1
      && after.reloadUntil == Some(event.at + round.reload)
      && (before.reloadUntil.Some? ==> before.reloadUntil.value <= event.at)
    else after.shells == before.shells && after.reloadUntil == before.reloadUntil
  }

  /** What a shot that is carried out does to the hunters: one shell less, the gun reloading, the answer kept. */
  predicate OnlyShooterMoves(round: Round, player: string, command: Command, at: int, shot: Shot)
    requires player in round.hunters
  {
    var before := round.hunters[player];
    && shot.round.reload == round.reload && player in shot.round.hunters
    && shot.round.hunters == round.hunters[player := shot.round.hunters[player]]
    && var after := shot.round.hunters[player];
       && (after.commands == before.commands || after.commands == before.commands[command.id := shot.result])
       && (if shot.result.accepted then
             && after.shells == before.shells - 1 && after.reloadUntil == Some(at + round.reload)
             && (before.reloadUntil.Some? ==> before.reloadUntil.value <= at)
           else after.shells == before.shells && after.reloadUntil == before.reloadUntil)
  }

  lemma MissMoves(round: Round, player: string, command: Command, at: int)
    requires player in round.hunters && Target(round, command.aim).None?
    requires Refusal(round, round.hunters[player], command, at).None?
    ensures OnlyShooterMoves(round, player, command, at, Shoot(round, player, round.hunters[player], command, at))
  {
  }

  lemma HitMoves(round: Round, player: string, command: Command, at: int)
    requires player in round.hunters && Target(round, command.aim).Some?
    requires Refusal(round, round.hunters[player], command, at).None?
    ensures OnlyShooterMoves(round, player, command, at, Shoot(round, player, round.hunters[player], command, at))
  {
    var discovery := Discovery(player, Target(round, command.aim).value, |round.discoveries| + 1, command.aim, at);
    assert Discover(round, discovery).hunters == round.hunters && Discover(round, discovery).reload == round.reload;
  }

  lemma FireMoves(round: Round, player: string, command: Command, at: int)
    requires player in round.hunters && command.id !in round.hunters[player].commands
    ensures OnlyShooterMoves(round, player, command, at, Fire(round, player, command, at))
  {
    if Refusal(round, round.hunters[player], command, at).None? {
      if Target(round, command.aim).None? {
        MissMoves(round, player, command, at);
      } else {
        HitMoves(round, player, command, at);
      }
    } else {
      var hunter := round.hunters[player];
      assert round.hunters[player := hunter] == round.hunters;
    }
  }

  lemma FireAndGun(round: Round, shooter: string, command: Command, at: int, player: string)
    requires player in round.hunters
    ensures Fire(round, shooter, command, at).round.reload == round.reload
    ensures player in Fire(round, shooter, command, at).round.hunters
    ensures GunMoves(round, Trigger(shooter, command, at), player, round.hunters[player],
                     Fire(round, shooter, command, at).round.hunters[player])
  {
    if shooter in round.hunters && command.id !in round.hunters[shooter].commands {
      FireMoves(round, shooter, command, at);
    } else {
      assert Fire(round, shooter, command, at).round == round;
    }
  }

  lemma {:induction false} AdvanceKeepsGuns(round: Round, now: int)
    ensures var after := Advanced(round, now).0;
            && after.hunters == round.hunters && after.reload == round.reload
            && after.found == round.found && after.discoveries == round.discoveries
            && after.assignments == round.assignments && after.hiderBySlot == round.hiderBySlot
    decreases TurnsLeft(round.phase)
  {
    if IsDue(round, now) {
      AdvanceKeepsGuns(NextPhase(round), now);
    }
  }

  /** Each shot comes at least the reload time after the one before it. */
  predicate Spaced(times: seq<int>, reload: int) {
    forall i :: 0 < i < |times| ==> SpacedAt(times, reload, i)
  }

  predicate SpacedAt(times: seq<int>, reload: int, i: nat)
    requires 0 < i < |times|
  {
    times[i] >= times[i - 1] + reload
  }

  lemma AppendSpaced(times: seq<int>, reload: int, at: int)
    requires Spaced(times, reload)
    requires times != [] ==> at >= times[|times| - 1] + reload
    ensures Spaced(times + [at], reload)
  {
    var longer := times + [at];
    forall i | 0 < i < |longer| ensures SpacedAt(longer, reload, i) {
      assert i < |times| ==> SpacedAt(times, reload, i);
    }
  }

  /** The gun of the player after the shots fired at `times`. */
  predicate GunAgrees(round: Round, player: string, times: seq<int>, limit: int, reload: int) {
    && round.reload == reload && player in round.hunters
    && round.hunters[player].shells + |times| == limit
    && Spaced(times, reload)
    && round.hunters[player].reloadUntil == (if times == [] then None else Some(times[|times| - 1] + reload))
  }

  lemma GunStillAgrees(round: Round, event: Event, player: string, times: seq<int>, limit: int, reload: int)
    requires GunAgrees(round, player, times, limit, reload)
    ensures GunAgrees(Step(round, event), player,
                      times + if IsNewShot(round, event, player) then [event.at] else [], limit, reload)
  {
    StepAndGun(round, event, player);
    if IsNewShot(round, event, player) {
      AppendSpaced(times, reload, event.at);
    } else {
      assert times + [] == times;
    }
  }

  /**
   Over any run, whatever the order and times of its events: shells left and shots carried out make up
   the limit, and the shots are at least the reload time apart.
   */
  lemma {:induction false} ShotsAreAccounted(round: Round, limit: int, events: seq<Event>, player: string)
    requires player in round.hunters
    requires round.hunters[player].shells == limit && round.hunters[player].reloadUntil.None?
    ensures GunAgrees(Run(round, events), player, ShotTimes(round, events, player), limit, round.reload)
  {
    if events != [] {
      var n := |events| - 1;
      ShotsAreAccounted(round, limit, events[..n], player);
      GunStillAgrees(Run(round, events[..n]), events[n], player, ShotTimes(round, events[..n], player), limit,
                     round.reload);
    }
  }

  /** So `k` shots span at least `k - 1` reload times. */
  lemma {:induction false} ShotsSpan(times: seq<int>, reload: int)
    requires Spaced(times, reload) && times != []
    ensures times[|times| - 1] - times[0] >= (|times| - 1) * reload
  {
    var n := |times| - 1;
    if n > 0 {
      forall i | 0 < i < n ensures SpacedAt(times[..n], reload, i) {
        assert SpacedAt(times, reload, i);
      }
      ShotsSpan(times[..n], reload);
      assert SpacedAt(times, reload, n);
      assert n * reload == (n - 1) * reload + reload;
    }
  }

  // ---- The end is final -------------------------------------------------------------------------------

  /** The outcome, the guns and the discoveries are the same; only answers to commands may have been added. */
  predicate SameOutcome(before: Round, after: Round) {
    && after.phase == before.phase && after.ending == before.ending
    && after.found == before.found && after.discoveries == before.discoveries
    && after.hunters.Keys == before.hunters.Keys
    && forall p :: p in before.hunters ==>
         after.hunters[p].shells == before.hunters[p].shells
         && after.hunters[p].reloadUntil == before.hunters[p].reloadUntil
  }

  lemma TerminalStays(round: Round, event: Event)
    requires round.phase == Terminal
    ensures SameOutcome(round, Step(round, event))
  {
    if event.Trigger? && event.player in round.hunters {
      assert Step(round, event).hunters.Keys == round.hunters.Keys;
    }
  }

  lemma {:induction false} TerminalIsFinal(round: Round, events: seq<Event>)
    requires round.phase == Terminal
    ensures SameOutcome(round, Run(round, events))
  {
    if events != [] {
      var n := |events| - 1;
      TerminalIsFinal(round, events[..n]);
      TerminalStays(Run(round, events[..n]), events[n]);
    }
  }

  // ---- Repeats ----------------------------------------------------------------------------------------

  /** The command id of the player can have no more effect: it is answered, or will always be refused. */
  predicate IsSpent(round: Round, player: string, id: string) {
    player in round.hunters ==>
      id in round.hunters[player].commands || |round.hunters[player].commands| >= MAXIMUM_COMMANDS
  }

  lemma SpentChangesNothing(round: Round, player: string, command: Command, now: int)
    requires IsSpent(round, player, command.id)
    ensures Fire(round, player, command, now).round == round
    ensures Fire(round, player, command, now).discovery.None?
  {
  }

  /** Every answered command stays answered, with the same answer. */
  predicate KeepsAnswers(before: Round, after: Round) {
    && after.hunters.Keys == before.hunters.Keys
    && forall p :: p in before.hunters ==> AnswersKept(before.hunters[p].commands, after.hunters[p].commands)
  }

  predicate AnswersKept(before: map<string, FireResult>, after: map<string, FireResult>) {
    |before| <= |after| && forall id :: id in before ==> id in after && after[id] == before[id]
  }

  lemma MoreAnswers(commands: map<string, FireResult>, id: string, result: FireResult)
    requires id !in commands
    ensures AnswersKept(commands, commands[id := result])
  {
    assert |commands[id := result].Keys| == |commands.Keys + {id}|;
  }

  lemma StepKeepsAnswers(round: Round, event: Event)
    ensures KeepsAnswers(round, Step(round, event))
  {
    if event.Tick? {
      AdvanceKeepsGuns(round, event.now);
    } else if event.player in round.hunters && event.command.id !in round.hunters[event.player].commands {
      var player, shot := event.player, Fire(round, event.player, event.command, event.at);
      FireMoves(round, player, event.command, event.at);
      MoreAnswers(round.hunters[player].commands, event.command.id, shot.result);
      assert shot.round.hunters.Keys == round.hunters.Keys;
    } else {
      assert Step(round, event) == round;
    }
  }

  lemma TriggerIsSpent(round: Round, player: string, command: Command, at: int)
    ensures IsSpent(Fire(round, player, command, at).round, player, command.id)
  {
  }

  lemma {:induction false} StaysSpent(round: Round, events: seq<Event>, player: string, id: string)
    requires IsSpent(round, player, id)
    ensures IsSpent(Run(round, events), player, id)
  {
    if events != [] {
      var n := |events| - 1;
      StaysSpent(round, events[..n], player, id);
      StepKeepsAnswers(Run(round, events[..n]), events[n]);
      assert player in Run(round, events).hunters <==> player in Run(round, events[..n]).hunters.Keys;
    }
  }

  lemma {:induction false} RunConcat(round: Round, a: seq<Event>, b: seq<Event>)
    ensures Run(round, a + b) == Run(Run(round, a), b)
  {
    if b == [] {
      assert a + b == a;
    } else {
      assert (a + b)[..|a + b| - 1] == a + b[..|b| - 1];
      RunConcat(round, a, b[..|b| - 1]);
    }
  }

  /** A repeat of any earlier command, even with another aim, changes nothing and discovers nobody. */
  lemma RepeatChangesNothing(round: Round, events: seq<Event>, k: nat, command: Command, now: int)
    requires k < |events| && events[k].Trigger? && events[k].command.id == command.id
    ensures var shot := Fire(Run(round, events), events[k].player, command, now);
            shot.round == Run(round, events) && shot.discovery.None?
  {
    var before, e := Run(round, events[..k]), events[k];
    TriggerIsSpent(before, e.player, e.command, e.at);
    var rest := events[k + 1..];
    assert events[..k + 1][..k] == events[..k];
    assert events == events[..k + 1] + rest;
    RunConcat(round, events[..k + 1], rest);
    StaysSpent(Run(round, events[..k + 1]), rest, e.player, command.id);
    SpentChangesNothing(Run(round, events), e.player, command, now);
  }

  /** Stutter insensitivity of whole runs: an extra tick or a repeated command can be left out anywhere. */
  lemma StuttersVanish(round: Round, before: seq<Event>, stutter: Event, after: seq<Event>)
    requires match stutter
             case Tick(now) => after != [] && after[0].Tick? && now <= after[0].now
             case Trigger(player, command, _) =>
               exists k :: 0 <= k < |before| && before[k].Trigger? && before[k].player == player
                           && before[k].command.id == command.id
    ensures Run(round, before + [stutter] + after) == Run(round, before + after)
  {
    RunConcat(round, before + [stutter], after);
    RunConcat(round, before, [stutter]);
    RunConcat(round, before, after);
    var here := Run(round, before);
    assert [stutter][..0] == [];
    assert Run(here, [stutter]) == Step(here, stutter);
    match stutter
    case Tick(now) =>
      var rest := after[1..];
      assert after == [after[0]] + rest && [after[0]][..0] == [];
      RunConcat(here, [after[0]], rest);
      RunConcat(Step(here, stutter), [after[0]], rest);
      ExtraTicksVanish(here, now, after[0].now);
      assert Run(here, [after[0]]) == Step(here, after[0]);
      assert Run(Step(here, stutter), [after[0]]) == Step(Step(here, stutter), after[0]);
    case Trigger(player, command, at) =>
      var k :| 0 <= k < |before| && before[k].Trigger? && before[k].player == player
               && before[k].command.id == command.id;
      RepeatChangesNothing(round, before, k, command, at);
  }
}
