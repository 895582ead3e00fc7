/**
 The race for the match of a lobby: any number of callers read the binding, create a match, claim it
 with a versioned write, and stop their match if they lose. One step is one request of one caller.
 */
module LobbyBinding {
  import opened Wrappers

  /** The stored binding; `value` is `None` when it cannot be parsed. Every write gets a new version. */
  datatype Stored = Stored(value: Option<nat>, version: nat)

  /** What a caller does next. */
  datatype Caller =
    | Reads
    | Checks(seen: Option<Stored>, id: nat)
    | Creates(seen: Option<Stored>)
    | Claims(seen: Option<Stored>, candidate: nat)
    | Stops(candidate: nat)
    | Rereads(candidate: nat)
    | Confirms(candidate: nat, id: nat)
    | Finished(result: Result<nat, ()>, created: Option<nat>)

  /**
   `matches` and `versions` count what has been issued; a match is live from its creation until the
   signal to stop reaches it.
   */
  datatype State = State(binding: Option<Stored>, versions: nat, matches: nat, live: set<nat>,
                         signalled: set<nat>, callers: map<nat, Caller>)

  function CallerOf(s: State, c: nat): Caller {
    if c in s.callers then s.callers[c] else Reads
  }

  function Goes(s: State, c: nat, next: Caller): State {
    s.(callers := s.callers[c := next])
  }

  /** A request works, is lost, or takes effect while its caller is told that it failed. */
  datatype Fate = Works | Lost | Unreported

  datatype Action = Action(caller: nat, fate: Fate)

  function AfterRead(binding: Option<Stored>): Caller {
    if binding.Some? && binding.value.value.Some? then Checks(binding, binding.value.value.value)
    else Creates(binding)
  }

  /** The versioned write goes through only if nothing was written since the caller read. */
  predicate IsUnchanged(s: State, seen: Option<Stored>) {
    if seen.None? then s.binding.None? else s.binding.Some? && s.binding.value.version == seen.value.version
  }

  function Step(s: State, action: Action): State {
    var c, works, acts := action.caller, action.fate == Works, action.fate != Lost;
    match CallerOf(s, c)
    case Reads => Goes(s, c, if works then AfterRead(s.binding) else Finished(Failure(()), None))
    case Checks(seen, id) =>
      Goes(s, c, if works && id in s.live then Finished(Success(id), None) else Creates(seen))
    case Creates(seen) =>
      Goes(if acts then s.(matches := s.matches + 1, live := s.live + {s.matches}) else s, c,
           if works then Claims(seen, s.matches) else Finished(Failure(()), None))
    case Claims(seen, candidate) =>
      var writes := acts && IsUnchanged(s, seen);
      Goes(if writes then s.(binding := Some(Stored(Some(candidate), s.versions)), versions := s.versions + 1) else s,
           c, if works && writes then Finished(Success(candidate), Some(candidate)) else Stops(candidate))
    case Stops(candidate) =>
      Goes(s.(signalled := s.signalled + {candidate}, live := if acts then s.live - {candidate} else s.live), c,
           Rereads(candidate))
    case Rereads(candidate) =>
      Goes(s, c, if works && s.binding.Some? && s.binding.value.value.Some?
                 then Confirms(candidate, s.binding.value.value.value)
                 else Finished(Failure(()), Some(candidate)))
    case Confirms(candidate, id) =>
      Goes(s, c, Finished(if works && id in s.live then Success(id) else Failure(()), Some(candidate)))
    case Finished(_, _) => s
  }

  function Run(s: State, actions: seq<Action>): State {
    if actions == [] then s else Step(Run(s, actions[..|actions| - 1]), actions[|actions| - 1])
  }

  // ---- The invariant ----------------------------------------------------------------------------------

  /** The lobby has a match: the binding can be parsed and its match is live. */
  predicate IsBound(s: State) {
    s.binding.Some? && s.binding.value.value.Some? && s.binding.value.value.value in s.live
  }

  function BoundId(s: State): nat
    requires IsBound(s)
  {
    s.binding.value.value.value
  }

  /** The match a caller created and has not yet given up or claimed. */
  function Held(caller: Caller): Option<nat> {
    match caller
    case Claims(_, candidate) => Some(candidate)
    case Stops(candidate) => Some(candidate)
    case _ => None
  }

  /** The match a caller has created, if any. */
  function Created(caller: Caller): Option<nat> {
    match caller
    case Claims(_, candidate) => Some(candidate)
    case Stops(candidate) => Some(candidate)
    case Rereads(candidate) => Some(candidate)
    case Confirms(candidate, _) => Some(candidate)
    case Finished(_, created) => created
    case _ => None
  }

  /** What the caller has seen of the binding and still means to replace. */
  function Replaces(caller: Caller): Option<Option<Stored>> {
    match caller
    case Creates(seen) => Some(seen)
    case Claims(seen, _) => Some(seen)
    case _ => None
  }

  predicate VersionBelow(seen: Option<Stored>, versions: nat) {
    seen.Some? ==> seen.value.version < versions
  }

  /** An id that was read out of the binding: if its match is live, the lobby is bound to it. */
  predicate ReadIdIsSound(s: State, id: nat) {
    id < s.matches && (id in s.live ==> IsBound(s) && BoundId(s) == id)
  }

  predicate CallerIsSound(s: State, caller: Caller) {
    && (caller.Checks? ==>
          && VersionBelow(caller.seen, s.versions) && ReadIdIsSound(s, caller.id)
          && (caller.id in s.live ==> IsUnchanged(s, caller.seen))
          && (IsBound(s) && IsUnchanged(s, caller.seen) ==> BoundId(s) == caller.id))
    && (Replaces(caller).Some? ==>
          VersionBelow(Replaces(caller).value, s.versions) && (IsBound(s) ==> !IsUnchanged(s, Replaces(caller).value)))
    && (Created(caller).Some? ==> Created(caller).value < s.matches)
    && (Held(caller).Some? ==>
          && Held(caller).value in s.live && Held(caller).value !in s.signalled
          && (IsBound(s) ==> Held(caller).value != BoundId(s)))
    && (caller.Confirms? ==> ReadIdIsSound(s, caller.id))
    && (caller.Finished? && caller.result.Success? ==> IsBound(s) && caller.result.value == BoundId(s))
    && (Created(caller).Some? && Held(caller).None? ==>
          Created(caller).value in s.signalled || (IsBound(s) && Created(caller).value == BoundId(s)))
  }

  predicate StoreIsSound(s: State) {
    && (s.binding.Some? ==> s.binding.value.version < s.versions)
    && (s.binding.Some? && s.binding.value.value.Some? ==> s.binding.value.value.value < s.matches)
    && (IsBound(s) ==> BoundId(s) !in s.signalled)
    && (forall id :: id in s.live ==> id < s.matches)
    && (forall id :: id in s.signalled ==> id < s.matches)
  }

  predicate CreatedApart(s: State) {
    forall c, d :: c in s.callers && d in s.callers && c != d && Created(s.callers[c]).Some? ==>
      Created(s.callers[c]) != Created(s.callers[d])
  }

  predicate Sound(s: State) {
    StoreIsSound(s) && CreatedApart(s) && forall c :: c in s.callers ==> CallerIsSound(s, s.callers[c])
  }

  /** Before the race: nobody has called yet; the binding is absent, unreadable, dead or live. */
  predicate Initial(s: State) {
    s.callers == map[] && s.signalled == {} && StoreIsSound(s)
  }

  // ---- What one step does to the others ---------------------------------------------------------------

  predicate SameStore(s: State, t: State) {
    && t.binding == s.binding && t.versions == s.versions && t.matches == s.matches
    && t.live == s.live && t.signalled == s.signalled
  }

  /** The new caller and the new store are sound, the others stay sound and keep clear of what it created. */
  lemma StepSound(s: State, t: State, c: nat)
    requires Sound(s) && t.callers.Keys == s.callers.Keys + {c}
    requires forall d :: d in s.callers && d != c ==> t.callers[d] == s.callers[d]
    requires StoreIsSound(t) && CallerIsSound(t, t.callers[c])
    requires forall d :: d in s.callers && d != c ==> CallerIsSound(t, s.callers[d])
    requires Created(t.callers[c]) == Created(CallerOf(s, c))
             || forall d :: d in s.callers && d != c && Created(s.callers[d]).Some? ==>
                  Created(s.callers[d]) != Created(t.callers[c])
    ensures Sound(t)
  {
    forall d, e | d in t.callers && e in t.callers && d != e && Created(t.callers[d]).Some?
      ensures Created(t.callers[d]) != Created(t.callers[e])
    {
      assert d != c ==> d in s.callers;
      assert e != c ==> e in s.callers;
    }
  }

  lemma QuietStep(s: State, c: nat, next: Caller)
    requires Sound(s) && CallerIsSound(s, next) && Created(next) == Created(CallerOf(s, c))
    ensures Sound(Goes(s, c, next))
  {
    var t := Goes(s, c, next);
    forall d | d in s.callers ensures CallerIsSound(t, s.callers[d]) {
      SameStoreSound(s, t, s.callers[d]);
    }
    SameStoreSound(s, t, next);
    StepSound(s, t, c);
  }

  lemma SameStoreSound(s: State, t: State, caller: Caller)
    requires SameStore(s, t) && CallerIsSound(s, caller)
    ensures CallerIsSound(t, caller)
  {
  }

  lemma OtherAfterCreate(s: State, t: State, caller: Caller)
    requires StoreIsSound(s) && CallerIsSound(s, caller)
    requires SameStore(s.(matches := s.matches + 1, live := s.live + {s.matches}), t)
    ensures CallerIsSound(t, caller)
  {
  }

  /** Also when its caller never learns of it, a new match disturbs nobody. */
  lemma CreateKeeps(s: State, c: nat, seen: Option<Stored>, fate: Fate)
    requires Sound(s) && CallerOf(s, c) == Creates(seen) && fate != Lost
    ensures Sound(Step(s, Action(c, fate)))
  {
    var t := Step(s, Action(c, fate));
    assert CallerIsSound(s, s.callers[c]);
    forall d | d in s.callers && d != c ensures CallerIsSound(t, s.callers[d]) {
      OtherAfterCreate(s, t, s.callers[d]);
    }
    assert CallerIsSound(t, t.callers[c]);
    StepSound(s, t, c);
  }

  lemma OtherAfterClaim(s: State, t: State, caller: Caller, candidate: nat)
    requires StoreIsSound(s) && CallerIsSound(s, caller) && !IsBound(s)
    requires candidate in s.live && candidate !in s.signalled && Created(caller) != Some(candidate)
    requires SameStore(s.(binding := Some(Stored(Some(candidate), s.versions)), versions := s.versions + 1), t)
    ensures CallerIsSound(t, caller)
  {
  }

  lemma ClaimKeeps(s: State, c: nat, seen: Option<Stored>, candidate: nat)
    requires Sound(s) && CallerOf(s, c) == Claims(seen, candidate) && IsUnchanged(s, seen)
    ensures Sound(Step(s, Action(c, Works))) && !IsBound(s)
  {
    var t := Step(s, Action(c, Works));
    assert CallerIsSound(s, s.callers[c]);
    forall d | d in s.callers && d != c ensures CallerIsSound(t, s.callers[d]) {
      OtherAfterClaim(s, t, s.callers[d], candidate);
    }
    StepSound(s, t, c);
  }

  lemma OtherAfterStop(s: State, t: State, caller: Caller, candidate: nat, fate: Fate)
    requires StoreIsSound(s) && CallerIsSound(s, caller) && Created(caller) != Some(candidate)
    requires IsBound(s) ==> candidate != BoundId(s)
    requires SameStore(s.(signalled := s.signalled + {candidate},
                          live := if fate != Lost then s.live - {candidate} else s.live), t)
    ensures CallerIsSound(t, caller)
  {
  }

  lemma StopKeeps(s: State, c: nat, candidate: nat, fate: Fate)
    requires Sound(s) && CallerOf(s, c) == Stops(candidate)
    ensures Sound(Step(s, Action(c, fate)))
    ensures IsBound(s) ==> IsBound(Step(s, Action(c, fate)))
  {
    var t := Step(s, Action(c, fate));
    assert CallerIsSound(s, s.callers[c]);
    forall d | d in s.callers && d != c ensures CallerIsSound(t, s.callers[d]) {
      OtherAfterStop(s, t, s.callers[d], candidate, fate);
    }
    StepSound(s, t, c);
  }

  /**
   The two ways an answer misleads its caller: the check of a live match fails, or the write of the
   binding goes through while its caller is told that it failed.
   */
  predicate Misleads(s: State, action: Action) {
    match CallerOf(s, action.caller)
    case Checks(_, id) => action.fate != Works && id in s.live
    case Claims(seen, _) => action.fate == Unreported && IsUnchanged(s, seen)
    case _ => false
  }

  /** The steps that only read. */
  lemma QuietActionKeeps(s: State, action: Action)
    requires Sound(s) && !Misleads(s, action)
    requires CallerOf(s, action.caller).Reads? || CallerOf(s, action.caller).Checks?
             || CallerOf(s, action.caller).Rereads? || CallerOf(s, action.caller).Confirms?
    ensures Sound(Step(s, action)) && SameStore(s, Step(s, action))
  {
    var c := action.caller;
    assert CallerIsSound(s, CallerOf(s, c));
    var next := CallerOf(Step(s, action), c);
    assert Step(s, action) == Goes(s, c, next);
    assert CallerIsSound(s, next);
    QuietStep(s, c, next);
  }

  lemma CreatesActionKeeps(s: State, action: Action)
    requires Sound(s) && CallerOf(s, action.caller).Creates?
    ensures Sound(Step(s, action))
    ensures IsBound(s) ==> IsBound(Step(s, action)) && BoundId(Step(s, action)) == BoundId(s)
  {
    if action.fate != Lost {
      CreateKeeps(s, action.caller, CallerOf(s, action.caller).seen, action.fate);
    } else {
      QuietStep(s, action.caller, Finished(Failure(()), None));
    }
  }

  lemma ClaimsActionKeeps(s: State, action: Action)
    requires Sound(s) && CallerOf(s, action.caller).Claims? && !Misleads(s, action)
    ensures Sound(Step(s, action))
    ensures IsBound(s) ==> IsBound(Step(s, action)) && BoundId(Step(s, action)) == BoundId(s)
  {
    var c, caller := action.caller, CallerOf(s, action.caller);
    if action.fate == Works && IsUnchanged(s, caller.seen) {
      ClaimKeeps(s, c, caller.seen, caller.candidate);
    } else {
      assert CallerIsSound(s, caller);
      QuietStep(s, c, Stops(caller.candidate));
    }
  }

  lemma StepKeepsSound(s: State, action: Action)
    requires Sound(s) && !Misleads(s, action)
    ensures Sound(Step(s, action))
    ensures IsBound(s) ==> IsBound(Step(s, action)) && BoundId(Step(s, action)) == BoundId(s)
  {
    match CallerOf(s, action.caller)
    case Creates(_) => CreatesActionKeeps(s, action);
    case Claims(_, _) => ClaimsActionKeeps(s, action);
    case Stops(candidate) => StopKeeps(s, action.caller, candidate, action.fate);
    case Finished(_, _) =>
    case _ => QuietActionKeeps(s, action);
  }

  /** No answer on the way misleads its caller. */
  predicate AnswersAreTrue(s: State, actions: seq<Action>) {
    forall k :: 0 <= k < |actions| ==> TrueAt(s, actions, k)
  }

  predicate TrueAt(s: State, actions: seq<Action>, k: nat)
    requires k < |actions|
  {
    !Misleads(Run(s, actions[..k]), actions[k])
  }

  lemma TruePrefix(s: State, actions: seq<Action>, n: nat)
    requires AnswersAreTrue(s, actions) && n <= |actions|
    ensures AnswersAreTrue(s, actions[..n])
  {
    forall k | 0 <= k < n ensures TrueAt(s, actions[..n], k) {
      assert TrueAt(s, actions, k) && actions[..n][..k] == actions[..k];
    }
  }

  lemma {:induction false} RunKeepsSound(s: State, actions: seq<Action>)
    requires Sound(s) && AnswersAreTrue(s, actions)
    ensures Sound(Run(s, actions))
    ensures IsBound(s) ==> IsBound(Run(s, actions)) && BoundId(Run(s, actions)) == BoundId(s)
  {
    if actions != [] {
      var n := |actions| - 1;
      TruePrefix(s, actions, n);
      RunKeepsSound(s, actions[..n]);
      assert TrueAt(s, actions, n);
      StepKeepsSound(Run(s, actions[..n]), actions[n]);
    }
  }

  /**
   Agreement: after any interleaving of any number of callers, with requests that are lost or whose
   effect goes unreported, but no answer that misleads, every caller that succeeded was given the
   one bound match, which is live and was never signalled, and every other match a finished caller
   knows to have created has been signalled to stop.
   */
  lemma CallersAgree(s: State, actions: seq<Action>, c: nat)
    requires Initial(s) && AnswersAreTrue(s, actions)
    requires CallerOf(Run(s, actions), c).Finished?
    ensures var after := Run(s, actions);
            var finished := CallerOf(after, c);
            && (finished.result.Success? ==>
                  && IsBound(after) && finished.result.value == BoundId(after)
                  && BoundId(after) !in after.signalled)
            && (finished.created.Some? ==>
                  finished.created.value in after.signalled
                  || (IsBound(after) && finished.created.value == BoundId(after)))
  {
    RunKeepsSound(s, actions);
    assert CallerIsSound(Run(s, actions), Run(s, actions).callers[c]);
  }

  /** Two callers never disagree, even when they finish at different moments of the run. */
  lemma SuccessesAreEqual(s: State, actions: seq<Action>, i: nat, c: nat, d: nat)
    requires Initial(s) && AnswersAreTrue(s, actions) && i <= |actions|
    requires CallerOf(Run(s, actions[..i]), c).Finished? && CallerOf(Run(s, actions[..i]), c).result.Success?
    requires CallerOf(Run(s, actions), d).Finished? && CallerOf(Run(s, actions), d).result.Success?
    ensures CallerOf(Run(s, actions[..i]), c).result == CallerOf(Run(s, actions), d).result
  {
    TruePrefix(s, actions, i);
    CallersAgree(s, actions[..i], c);
    CallersAgree(s, actions, d);
    BoundStays(s, actions, i);
  }

  lemma {:induction false} RunConcat(s: State, a: seq<Action>, b: seq<Action>)
    ensures Run(s, a + b) == Run(Run(s, a), b)
  {
    if b == [] {
      assert a + b == a;
    } else {
      assert (a + b)[..|a + b| - 1] == a + b[..|b| - 1];
      RunConcat(s, a, b[..|b| - 1]);
    }
  }

  lemma RunInTwo(s: State, actions: seq<Action>, i: nat, j: nat)
    requires i <= j <= |actions|
    ensures Run(s, actions[..j]) == Run(Run(s, actions[..i]), actions[i..j])
  {
    RunConcat(s, actions[..i], actions[i..j]);
    assert actions[..i] + actions[i..j] == actions[..j];
  }

  /** Once the lobby is bound, it stays bound to that match. */
  lemma BoundStays(s: State, actions: seq<Action>, i: nat)
    requires Initial(s) && AnswersAreTrue(s, actions) && i <= |actions| && IsBound(Run(s, actions[..i]))
    ensures IsBound(Run(s, actions)) && BoundId(Run(s, actions)) == BoundId(Run(s, actions[..i]))
  {
    TruePrefix(s, actions, i);
    RunKeepsSound(s, actions[..i]);
    TrueSuffix(s, actions, i);
    RunKeepsSound(Run(s, actions[..i]), actions[i..]);
    RunInTwo(s, actions, i, |actions|);
    assert actions[..|actions|] == actions && actions[i..|actions|] == actions[i..];
  }

  lemma TrueLater(s: State, actions: seq<Action>, i: nat, k: nat)
    requires i + k < |actions| && TrueAt(s, actions, i + k)
    ensures TrueAt(Run(s, actions[..i]), actions[i..], k)
  {
    RunInTwo(s, actions, i, i + k);
    assert actions[i..][..k] == actions[i..i + k];
  }

  lemma TrueSuffix(s: State, actions: seq<Action>, i: nat)
    requires AnswersAreTrue(s, actions) && i <= |actions|
    ensures AnswersAreTrue(Run(s, actions[..i]), actions[i..])
  {
    forall k | 0 <= k < |actions[i..]| ensures TrueAt(Run(s, actions[..i]), actions[i..], k) {
      assert TrueAt(s, actions, i + k);
      TrueLater(s, actions, i, k);
    }
  }

  // ---- Everyone ends with the match -----------------------------------------------------------------

  /** How many steps the caller takes at most before it has finished. */
  function StepsLeft(caller: Caller): nat {
    match caller
    case Reads => 7
    case Checks(_, _) => 6
    case Creates(_) => 5
    case Claims(_, _) => 4
    case Stops(_) => 3
    case Rereads(_) => 2
    case Confirms(_, _) => 1
    case Finished(_, _) => 0
  }

  function StepsOf(actions: seq<Action>, c: nat): nat {
    if actions == [] then 0
    else
      StepsOf(actions[..|actions| - 1], c) + if actions[|actions| - 1].caller == c then 1 else 0
  }

  lemma StepIsTaken(s: State, action: Action, c: nat)
    ensures var before, after := CallerOf(s, c), CallerOf(Step(s, action), c);
            if action.caller == c then
              StepsLeft(after) < StepsLeft(before) || (before.Finished? && after.Finished?)
            else after == before
  {
    var t := Step(s, action);
    assert t == s || t.callers == s.callers[action.caller := t.callers[action.caller]];
  }

  /** Whatever happens to its requests, a caller has finished after seven of them. */
  lemma {:induction false} SevenStepsFinish(s: State, actions: seq<Action>, c: nat)
    requires s.callers == map[]
    ensures CallerOf(Run(s, actions), c).Finished? || StepsOf(actions, c) + StepsLeft(CallerOf(Run(s, actions), c)) <= 7
    ensures StepsOf(actions, c) >= 7 ==> CallerOf(Run(s, actions), c).Finished?
  {
    if actions != [] {
      var n := |actions| - 1;
      SevenStepsFinish(s, actions[..n], c);
      StepIsTaken(Run(s, actions[..n]), actions[n], c);
    }
  }

  /** A caller that can no longer fail unless a request of its own does. */
  predicate IsOnCourse(s: State, caller: Caller) {
    match caller
    case Reads => true
    case Checks(seen, _) => IsUnchanged(s, seen) || IsBound(s)
    case Creates(seen) => IsUnchanged(s, seen) || IsBound(s)
    case Claims(seen, _) => IsUnchanged(s, seen) || IsBound(s)
    case Stops(_) => IsBound(s)
    case Rereads(_) => IsBound(s)
    case Confirms(_, id) => IsBound(s) && id == BoundId(s)
    case Finished(result, _) => result.Success?
  }

  /** The binding stays as it is or the lobby gets bound. */
  lemma StepBinds(s: State, action: Action)
    requires Sound(s) && !Misleads(s, action)
    ensures Step(s, action).binding == s.binding || IsBound(Step(s, action))
  {
    assert action.caller in s.callers ==> CallerIsSound(s, s.callers[action.caller]);
  }

  lemma OwnStepStaysOnCourse(s: State, c: nat)
    requires Sound(s) && IsOnCourse(s, CallerOf(s, c)) && !Misleads(s, Action(c, Works))
    ensures IsOnCourse(Step(s, Action(c, Works)), CallerOf(Step(s, Action(c, Works)), c))
  {
    var t := Step(s, Action(c, Works));
    StepKeepsSound(s, Action(c, Works));
    StepBinds(s, Action(c, Works));
    assert c in s.callers ==> CallerIsSound(s, s.callers[c]);
  }

  lemma OtherStepStaysOnCourse(s: State, action: Action, c: nat)
    requires Sound(s) && IsOnCourse(s, CallerOf(s, c)) && !Misleads(s, action) && action.caller != c
    ensures IsOnCourse(Step(s, action), CallerOf(Step(s, action), c))
  {
    StepKeepsSound(s, action);
    StepBinds(s, action);
    assert CallerOf(Step(s, action), c) == CallerOf(s, c);
  }

  /** All requests of the caller work; those of others may be lost. */
  predicate RequestsWork(actions: seq<Action>, c: nat) {
    forall k :: 0 <= k < |actions| && actions[k].caller == c ==> actions[k].fate == Works
  }

  lemma {:induction false} RunStaysOnCourse(s: State, actions: seq<Action>, c: nat)
    requires Initial(s) && AnswersAreTrue(s, actions) && RequestsWork(actions, c)
    ensures IsOnCourse(Run(s, actions), CallerOf(Run(s, actions), c))
  {
    if actions != [] {
      var n := |actions| - 1;
      TruePrefix(s, actions, n);
      RunStaysOnCourse(s, actions[..n], c);
      RunKeepsSound(s, actions[..n]);
      assert TrueAt(s, actions, n);
      if actions[n].caller == c {
        assert actions[n] == Action(c, Works);
        OwnStepStaysOnCourse(Run(s, actions[..n]), c);
      } else {
        OtherStepStaysOnCourse(Run(s, actions[..n]), actions[n], c);
      }
    }
  }

  /**
   Progress: wherever the lobby starts, absent, unreadable, dead or live, and whatever the others do or
   lose, a caller whose own requests all work is given the bound match after at most seven of them, as
   long as no answer misleads anybody.
   */
  lemma WorkingCallersSucceed(s: State, actions: seq<Action>, c: nat)
    requires Initial(s) && AnswersAreTrue(s, actions) && RequestsWork(actions, c)
    requires StepsOf(actions, c) >= 7 || CallerOf(Run(s, actions), c).Finished?
    ensures var after := Run(s, actions);
            IsBound(after) && CallerOf(after, c).Finished? && CallerOf(after, c).result == Success(BoundId(after))
  {
    SevenStepsFinish(s, actions, c);
    RunStaysOnCourse(s, actions, c);
    CallersAgree(s, actions, c);
  }

  // ---- When the stop signals arrive -----------------------------------------------------------------

  /** No signal to stop is lost. */
  predicate StopsArrive(s: State, actions: seq<Action>) {
    actions != [] ==>
      var n := |actions| - 1;
      && StopsArrive(s, actions[..n])
      && (CallerOf(Run(s, actions[..n]), actions[n].caller).Stops? ==> actions[n].fate != Lost)
  }

  lemma {:induction false} SignalledAreDead(s: State, actions: seq<Action>)
    requires Initial(s) && AnswersAreTrue(s, actions) && StopsArrive(s, actions)
    ensures Run(s, actions).signalled !! Run(s, actions).live
  {
    if actions != [] {
      var n := |actions| - 1;
      TruePrefix(s, actions, n);
      SignalledAreDead(s, actions[..n]);
      RunKeepsSound(s, actions[..n]);
      StepKeepsDead(Run(s, actions[..n]), actions[n]);
    }
  }

  lemma StepKeepsDead(s: State, action: Action)
    requires StoreIsSound(s) && s.signalled !! s.live
    requires CallerOf(s, action.caller).Stops? ==> action.fate != Lost
    ensures Step(s, action).signalled !! Step(s, action).live
  {
  }

  /**
   If no signal is lost, then of all the matches that finished callers created only the bound one can
   still be live: no duplicate survives the race.
   */
  lemma OnlyTheBoundMatchLives(s: State, actions: seq<Action>, c: nat)
    requires Initial(s) && AnswersAreTrue(s, actions) && StopsArrive(s, actions)
    requires CallerOf(Run(s, actions), c).Finished? && CallerOf(Run(s, actions), c).created.Some?
    ensures var after := Run(s, actions);
            var created := CallerOf(after, c).created.value;
            created in after.live <==> IsBound(after) && created == BoundId(after)
  {
    CallersAgree(s, actions, c);
    SignalledAreDead(s, actions);
  }

  // ---- Why the answers must be true -----------------------------------------------------------------

  lemma {:induction false} LiveAreIssued(s: State, actions: seq<Action>)
    requires Initial(s)
    ensures forall id :: id in Run(s, actions).live ==> id < Run(s, actions).matches
  {
    if actions != [] {
      LiveAreIssued(s, actions[..|actions| - 1]);
    }
  }

  /** The check of a caller is lost and its next two requests work. */
  function AfterLostCheck(s: State, c: nat, fate: Fate): State {
    Step(Step(Step(s, Action(c, fate)), Action(c, Works)), Action(c, Works))
  }

  /**
   In every reachable state, whatever went wrong before: if a caller has seen the current binding and its
   check of the live bound match fails, its next two working requests make it succeed with another
   match, while the bound one stays live and nobody signals it.
   */
  lemma LostCheckSplits(s: State, actions: seq<Action>, c: nat, fate: Fate)
    requires Initial(s) && fate != Works
    requires HoldsCurrent(Run(s, actions), c)
    ensures var t := Run(s, actions);
            var after := AfterLostCheck(t, c, fate);
            && CallerOf(after, c) == Finished(Success(t.matches), Some(t.matches))
            && IsBound(after) && BoundId(after) == t.matches != BoundId(t)
            && BoundId(t) in after.live && after.signalled == t.signalled
  {
    LiveAreIssued(s, actions);
    LostCheckSteps(Run(s, actions), c, fate);
  }

  /** The caller is about to check the match the lobby is bound to and has seen the current binding. */
  predicate HoldsCurrent(t: State, c: nat) {
    CallerOf(t, c).Checks? && IsBound(t) && CallerOf(t, c).id == BoundId(t) && IsUnchanged(t, CallerOf(t, c).seen)
  }

  lemma LostCheckSteps(t: State, c: nat, fate: Fate)
    requires CallerOf(t, c).Checks? && fate != Works
    ensures var after, seen := AfterLostCheck(t, c, fate), CallerOf(t, c).seen;
            && after.live == t.live + {t.matches} && after.signalled == t.signalled
            && (if IsUnchanged(t, seen) then
                  && after.binding == Some(Stored(Some(t.matches), t.versions))
                  && CallerOf(after, c) == Finished(Success(t.matches), Some(t.matches))
                else after.binding == t.binding)
  {
    var seen := CallerOf(t, c).seen;
    var failed := Step(t, Action(c, fate));
    assert CallerOf(failed, c) == Creates(seen);
    assert CallerOf(Step(failed, Action(c, Works)), c) == Claims(seen, t.matches);
  }

  /**
   The exact condition, where no answer has misled anybody so far: a failed check makes its caller
   replace the match of the lobby if and only if the match it asked about is live.
   */
  lemma LostCheckSplitsIff(s: State, actions: seq<Action>, c: nat, fate: Fate)
    requires Initial(s) && AnswersAreTrue(s, actions) && fate != Works
    requires CallerOf(Run(s, actions), c).Checks? && IsBound(Run(s, actions))
    ensures var t := Run(s, actions);
            var after := AfterLostCheck(t, c, fate);
            !(IsBound(after) && BoundId(after) == BoundId(t)) <==> CallerOf(t, c).id in t.live
  {
    var t := Run(s, actions);
    RunKeepsSound(s, actions);
    assert CallerIsSound(t, t.callers[c]);
    LostCheckSteps(t, c, fate);
  }

  /** The write of a caller goes unreported, another caller asks for the match, and the first one goes on. */
  function AfterUnreportedClaim(s: State, c: nat, d: nat): State {
    var claimed := Step(s, Action(c, Unreported));
    var asked := Step(Step(claimed, Action(d, Works)), Action(d, Works));
    Step(Step(Step(asked, Action(c, Works)), Action(c, Works)), Action(c, Works))
  }

  /**
   In every state that is reached without misleading answers: if the write of a caller goes through
   unreported, the caller stops the match it has just bound and fails, although another caller was
   given this match in between; the lobby stays bound to a match that is gone.
   */
  lemma UnreportedClaimStrands(s: State, actions: seq<Action>, c: nat, d: nat)
    requires Initial(s) && AnswersAreTrue(s, actions) && c != d
    requires CallerOf(Run(s, actions), c).Claims? && IsUnchanged(Run(s, actions), CallerOf(Run(s, actions), c).seen)
    requires CallerOf(Run(s, actions), d).Reads?
    ensures var t := Run(s, actions);
            var candidate, after := CallerOf(t, c).candidate, AfterUnreportedClaim(t, c, d);
            && CallerOf(after, c) == Finished(Failure(()), Some(candidate))
            && CallerOf(after, d) == Finished(Success(candidate), None)
            && after.binding.Some? && after.binding.value.value == Some(candidate) && candidate !in after.live
  {
    var t := Run(s, actions);
    RunKeepsSound(s, actions);
    assert CallerIsSound(t, t.callers[c]);
    UnreportedClaimIsSeen(t, c, d);
    GoesOnToStop(Step(Step(Step(t, Action(c, Unreported)), Action(d, Works)), Action(d, Works)), c);
  }

  lemma UnreportedClaimIsSeen(t: State, c: nat, d: nat)
    requires c != d && CallerOf(t, c).Claims? && CallerOf(t, c).candidate in t.live
    requires IsUnchanged(t, CallerOf(t, c).seen) && CallerOf(t, d).Reads?
    ensures var asked := Step(Step(Step(t, Action(c, Unreported)), Action(d, Works)), Action(d, Works));
            && CallerOf(asked, d) == Finished(Success(CallerOf(t, c).candidate), None)
            && CallerOf(asked, c) == Stops(CallerOf(t, c).candidate)
            && asked.binding.Some? && asked.binding.value.value == Some(CallerOf(t, c).candidate)
  {
    var claimed := Step(t, Action(c, Unreported));
    assert CallerOf(claimed, d) == Reads;
    assert CallerOf(Step(claimed, Action(d, Works)), d) == Checks(claimed.binding, CallerOf(t, c).candidate);
  }

  /** A caller that takes the binding for somebody else's stops the bound match and then finds it gone. */
  lemma GoesOnToStop(t: State, c: nat)
    requires CallerOf(t, c).Stops? && t.binding.Some? && t.binding.value.value == Some(CallerOf(t, c).candidate)
    ensures var candidate, mine := CallerOf(t, c).candidate, Action(c, Works);
            var after := Step(Step(Step(t, mine), mine), mine);
            && CallerOf(after, c) == Finished(Failure(()), Some(candidate)) && candidate !in after.live
            && after.binding == t.binding && forall d :: d != c ==> CallerOf(after, d) == CallerOf(t, d)
  {
    var candidate, mine := CallerOf(t, c).candidate, Action(c, Works);
    assert CallerOf(Step(t, mine), c) == Rereads(candidate);
    assert CallerOf(Step(Step(t, mine), mine), c) == Confirms(candidate, candidate);
  }

  const EMPTY := State(None, 0, 0, {}, {}, map[])

  /** The smallest such run: the second caller's check is lost, and both succeed with different live matches. */
  lemma SmallestSplit()
    ensures var mine, yours := Action(0, Works), Action(1, Works);
            var after := Run(EMPTY, [mine, mine, mine, yours, Action(1, Lost), yours, yours]);
            && CallerOf(after, 0) == Finished(Success(0), Some(0)) && 0 in after.live
            && CallerOf(after, 1) == Finished(Success(1), Some(1)) && 1 in after.live
  {
    var mine, yours, lost := Action(0, Works), Action(1, Works), Action(1, Lost);
    var two := Step(Step(EMPTY, mine), mine);
    var four := Step(Step(two, mine), yours);
    var six := Step(Step(four, lost), yours);
    assert CallerOf(two, 0) == Claims(None, 0);
    assert CallerOf(four, 1) == Checks(Some(Stored(Some(0), 0)), 0);
    assert CallerOf(six, 1) == Claims(Some(Stored(Some(0), 0)), 1);
    RunTwo(EMPTY, mine, mine);
    RunTwo(two, mine, yours);
    RunConcat(EMPTY, [mine, mine], [mine, yours]);
    RunTwo(four, lost, yours);
    RunConcat(EMPTY, [mine, mine, mine, yours], [lost, yours]);
    RunConcat(EMPTY, [mine, mine, mine, yours, lost, yours], [yours]);
    assert [mine, mine] + [mine, yours] == [mine, mine, mine, yours];
    assert [mine, mine, mine, yours] + [lost, yours] == [mine, mine, mine, yours, lost, yours];
    assert [mine, mine, mine, yours, lost, yours] + [yours] == [mine, mine, mine, yours, lost, yours, yours];
    assert Run(six, [yours]) == Step(Run(six, []), yours);
  }

  lemma RunTwo(s: State, a: Action, b: Action)
    ensures Run(s, [a, b]) == Step(Step(s, a), b)
  {
    assert [a, b][..1] == [a] && [a][..0] == [];
    assert Run(s, [a]) == Step(Run(s, []), a);
  }
}
