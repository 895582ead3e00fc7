/**
 The authoritative casual round as a function of its events: phase clock, shots, shells, replayed
 commands and the outcome. Times are milliseconds.
 */
module CasualRound {
  import opened Wrappers
  import opened RoundRoles

  const PREPARING_MS := 2000
  const MAXIMUM_COMMANDS := 256

  /** The zero time the clock is set to when the round is over. */
  const NO_TIME := 0

  datatype Phase = Preparing | Hiding | Hunting | Terminal | OtherPhase

  datatype Side = Hunters | Hiders | Nobody

  datatype Cause = AllFound | HuntTimeout | InvalidPhase

  datatype Ending = Ending(side: Side, cause: Cause)

  datatype Reason =
    | NotHunter | LimitReached | RoundTerminal | NotHunting | InvalidAim | Reloading | OutOfShells | Miss | Hit

  datatype Command = Command(id: string, aim: int)

  datatype FireResult = FireResult(command: string, reason: Reason, accepted: bool, aim: int, hider: Option<string>,
                                   shells: int, reloadUntil: Option<int>, terminal: bool)

  datatype Discovery = Discovery(hunter: string, hider: string, sequence: nat, slot: int, at: int)

  datatype HunterState = HunterState(shells: int, reloadUntil: Option<int>, commands: map<string, FireResult>)

  datatype Round = Round(
    id: string, phase: Phase, deadline: int, hiding: int, hunting: int, reload: int, targets: nat,
    assignments: map<string, Assignment>, hiderBySlot: map<int, string>, found: map<string, Discovery>,
    hunters: map<string, HunterState>, discoveries: seq<Discovery>, ending: Option<Ending>)

  // ---- Setting up -----------------------------------------------------------------------------------

  datatype Setup = Setup(id: string, mode: string, startedAt: int, configuration: Configuration, targets: nat,
                         assignments: seq<Assignment>)

  datatype SetupError = WrongRound | WrongRules | NamelessPlayer | RepeatedPlayer | BadSlot | TakenSlot | MissingSide

  function Enrol(round: Round, assignment: Assignment, shellLimit: int): Result<Round, SetupError> {
    if assignment.player == "" then Failure(NamelessPlayer)
    else if assignment.player in round.assignments then Failure(RepeatedPlayer)
    else
      var enrolled := round.(assignments := round.assignments[assignment.player := assignment]);
      match assignment.role
      case Hunter =>
        Success(enrolled.(hunters := round.hunters[assignment.player := HunterState(shellLimit, None, map[])]))
      case Hider =>
        if assignment.slot < 1 || assignment.slot > round.targets then Failure(BadSlot)
        else if assignment.slot in round.hiderBySlot then Failure(TakenSlot)
        else Success(enrolled.(hiderBySlot := round.hiderBySlot[assignment.slot := assignment.player]))
  }

  function EnrolAll(round: Round, assignments: seq<Assignment>, shellLimit: int): Result<Round, SetupError> {
    if assignments == [] then Success(round)
    else
      var n := |assignments| - 1;
      var earlier :- EnrolAll(round, assignments[..n], shellLimit);
      Enrol(earlier, assignments[n], shellLimit)
  }

  function EmptyRound(setup: Setup): Round {
    Round(setup.id, Preparing, setup.startedAt + PREPARING_MS, setup.configuration.hidingSeconds * 1000,
          setup.configuration.huntingSeconds * 1000, setup.configuration.reloadMs, setup.targets,
          map[], map[], map[], map[], [], None)
  }

  function NewRound(setup: Setup): Result<Round, SetupError> {
    var c := setup.configuration;
    if setup.id == "" || setup.mode != "casual" then Failure(WrongRound)
    else if c.hidingSeconds <= 0 || c.huntingSeconds <= 0 || c.shellLimit <= 0 || c.reloadMs <= 0 then
      Failure(WrongRules)
    else
      var round :- EnrolAll(EmptyRound(setup), setup.assignments, c.shellLimit);
      if round.hunters == map[] || round.hiderBySlot == map[] then Failure(MissingSide) else Success(round)
  }

  // ---- The phase clock ------------------------------------------------------------------------------

  function Completed(round: Round, side: Side, cause: Cause): Round {
    round.(phase := Terminal, deadline := NO_TIME, ending := Some(Ending(side, cause)))
  }

  /** One turn of the clock past its deadline. */
  function NextPhase(round: Round): Round
    requires round.phase != Terminal
  {
    match round.phase
    case Preparing => round.(phase := Hiding, deadline := round.deadline + round.hiding)
    case Hiding => round.(phase := Hunting, deadline := round.deadline + round.hunting)
    case Hunting => Completed(round, Hiders, HuntTimeout)
    case OtherPhase => Completed(round, Nobody, InvalidPhase)
  }

  /** How many turns the clock can still make. */
  function TurnsLeft(phase: Phase): nat {
    match phase
    case Preparing => 3
    case Hiding => 2
    case Hunting => 1
    case OtherPhase => 1
    case Terminal => 0
  }

  predicate IsDue(round: Round, now: int) {
    round.phase != Terminal && now >= round.deadline
  }

  function Advanced(round: Round, now: int): (Round, seq<Phase>)
    decreases TurnsLeft(round.phase)
  {
    if !IsDue(round, now) then (round, [])
    else
      var next := NextPhase(round);
      var rest := Advanced(next, now);
      (rest.0, [next.phase] + rest.1)
  }

  // ---- Shots ----------------------------------------------------------------------------------------

  datatype Shot = Shot(round: Round, result: FireResult, discovery: Option<Discovery>)

  /** Why a new command of a hunter is not carried out, if it is not. */
  function Refusal(round: Round, hunter: HunterState, command: Command, now: int): Option<Reason> {
    if |hunter.commands| >= MAXIMUM_COMMANDS then Some(LimitReached)
    else if round.phase != Hunting then Some(if round.phase == Terminal then RoundTerminal else NotHunting)
    else if command.aim < 1 || command.aim > round.targets then Some(InvalidAim)
    else if hunter.reloadUntil.Some? && now < hunter.reloadUntil.value then Some(Reloading)
    else if hunter.shells <= 0 then Some(OutOfShells)
    else None
  }

  function Remember(round: Round, player: string, hunter: HunterState, result: FireResult): Round {
    round.(hunters := round.hunters[player := hunter.(commands := hunter.commands[result.command := result])])
  }

  /** The hider at the aimed slot who has not been found yet. */
  function Target(round: Round, aim: int): Option<string> {
    if aim in round.hiderBySlot && round.hiderBySlot[aim] !in round.found then Some(round.hiderBySlot[aim]) else None
  }

  function Discover(round: Round, discovery: Discovery): Round {
    var found := round.(found := round.found[discovery.hider := discovery],
                        discoveries := round.discoveries + [discovery]);
    if |found.found| == |found.hiderBySlot| then Completed(found, Hunters, AllFound) else found
  }

  function Shoot(round: Round, player: string, hunter: HunterState, command: Command, now: int): Shot {
    var reloadUntil := now + round.reload;
    var loaded := HunterState(hunter.shells - 1, Some(reloadUntil), hunter.commands);
    var target := Target(round, command.aim);
    if target.None? then
      var result := FireResult(command.id, Miss, true, command.aim, None, loaded.shells, Some(reloadUntil), false);
      Shot(Remember(round, player, loaded, result), result, None)
    else
      var discovery := Discovery(player, target.value, |round.discoveries| + 1, command.aim, now);
      var after := Discover(round, discovery);
      var result := FireResult(command.id, Hit, true, command.aim, target, loaded.shells, Some(reloadUntil),
                               after.phase == Terminal);
      Shot(Remember(after, player, loaded, result), result, Some(discovery))
  }

  function Fire(round: Round, player: string, command: Command, now: int): Shot {
    var terminal := round.phase == Terminal;
    if player !in round.hunters then
      Shot(round, FireResult(command.id, NotHunter, false, command.aim, None, 0, None, terminal), None)
    else
      var hunter := round.hunters[player];
      if command.id in hunter.commands then Shot(round, hunter.commands[command.id], None)
      else
        var refusal := Refusal(round, hunter, command, now);
        if refusal.None? then Shoot(round, player, hunter, command, now)
        else
          var result := FireResult(command.id, refusal.value, false, command.aim, None, hunter.shells,
                                   hunter.reloadUntil, terminal);
          Shot(if refusal.value == LimitReached then round else Remember(round, player, hunter, result), result, None)
  }

  // ---- The round as it runs -------------------------------------------------------------------------

  /** The round in memory; its methods change its fields. */
  class RoundState {
    const id: string
    const hiding: int
    const hunting: int
    const reload: int
    const targets: nat
    const assignments: map<string, Assignment>
    const hiderBySlot: map<int, string>
    var phase: Phase
    var deadline: int
    var found: map<string, Discovery>
    var hunters: map<string, HunterState>
    var discoveries: seq<Discovery>
    var ending: Option<Ending>

    constructor (round: Round)
      ensures Value() == round
    {
      id, hiding, hunting, reload, targets := round.id, round.hiding, round.hunting, round.reload, round.targets;
      assignments, hiderBySlot := round.assignments, round.hiderBySlot;
      phase, deadline, found := round.phase, round.deadline, round.found;
      hunters, discoveries, ending := round.hunters, round.discoveries, round.ending;
    }

    function Value(): Round
      reads this
    {
      Round(id, phase, deadline, hiding, hunting, reload, targets, assignments, hiderBySlot, found, hunters,
            discoveries, ending)
    }

    method Complete(side: Side, cause: Cause)
      modifies this
      ensures Value() == Completed(old(Value()), side, cause)
    {
      phase, deadline, ending := Terminal, NO_TIME, Some(Ending(side, cause));
    }

    /** One turn of the clock. */
    method Turn()
      requires phase != Terminal
      modifies this
      ensures Value() == NextPhase(old(Value()))
    {
      match phase
      case Preparing =>
        phase, deadline := Hiding, deadline + hiding;
      case Hiding =>
        phase, deadline := Hunting, deadline + hunting;
      case Hunting =>
        Complete(Hiders, HuntTimeout);
      case OtherPhase =>
        Complete(Nobody, InvalidPhase);
    }

    method Advance(now: int) returns (phases: seq<Phase>)
      modifies this
      ensures Value() == Advanced(old(Value()), now).0 && phases == Advanced(old(Value()), now).1
    {
      phases := [];
      while phase != Terminal && now >= deadline
        invariant Advanced(Value(), now).0 == Advanced(old(Value()), now).0
        invariant phases + Advanced(Value(), now).1 == Advanced(old(Value()), now).1
        decreases TurnsLeft(phase)
      {
        ghost var rest := Advanced(NextPhase(Value()), now).1;
        assert Advanced(Value(), now).1 == [NextPhase(Value()).phase] + rest;
        Turn();
        assert phases + ([phase] + rest) == (phases + [phase]) + rest;
        phases := phases + [phase];
      }
    }

    method HandleFire(player: string, command: Command, now: int)
      returns (result: FireResult, discovery: Option<Discovery>)
      modifies this
      ensures Shot(Value(), result, discovery) == Fire(old(Value()), player, command, now)
    {
      discovery := None;
      if player !in hunters {
        result := FireResult(command.id, NotHunter, false, command.aim, None, 0, None, phase == Terminal);
        return;
      }
      var hunter := hunters[player];
      if command.id in hunter.commands {
        result := hunter.commands[command.id];
        return;
      }
      var refusal := Refusal(Value(), hunter, command, now);
      if refusal.Some? {
        result := FireResult(command.id, refusal.value, false, command.aim, None, hunter.shells, hunter.reloadUntil,
                             phase == Terminal);
        if refusal.value != LimitReached {
          hunters := hunters[player := hunter.(commands := hunter.commands[command.id := result])];
        }
        return;
      }
      hunter := hunter.(shells := hunter.shells - 1, reloadUntil := Some(now + reload));
      result := FireResult(command.id, Miss, true, command.aim, None, hunter.shells, Some(now + reload), false);
      if command.aim in hiderBySlot && hiderBySlot[command.aim] !in found {
        var hider := hiderBySlot[command.aim];
        discovery := Some(Discovery(player, hider, |discoveries| + 1, command.aim, now));
        found := found[hider := discovery.value];
        discoveries := discoveries + [discovery.value];
        result := result.(reason := Hit, hider := Some(hider));
        if |found| == |hiderBySlot| {
          Complete(Hunters, AllFound);
          result := result.(terminal := true);
        }
      }
      hunters := hunters[player := hunter.(commands := hunter.commands[command.id := result])];
    }
  }
}
