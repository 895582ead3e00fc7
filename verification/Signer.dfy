/**
 The signer boundary and its idempotency ledger. Any number of `sign` calls interleave, one step per
 effect: acquire the key, ask the provider, complete the record. Every effect may fail, before or
 after it took place.
 */
module Signer {
  import opened Wrappers

  datatype Request = Request(
    key: string, policyVersion: string, role: string, account: string, authority: string, publicKey: string,
    keyReference: string, operationJson: string, operationHash: string, digest: string, transactionId: string,
    eventType: string, eventFamily: string, payload: string, unsignedJson: string)

  /** The part of a request that an idempotency key is bound to. */
  datatype Binding = Binding(
    key: string, policyVersion: string, role: string, account: string, authority: string, publicKey: string,
    keyReference: string, operationJson: string, operationHash: string, digest: string, transactionId: string)

  function BindingOf(r: Request): Binding {
    Binding(r.key, r.policyVersion, r.role, r.account, r.authority, r.publicKey, r.keyReference, r.operationJson,
            r.operationHash, r.digest, r.transactionId)
  }

  datatype Response = Response(signature: string, publicKey: string)

  datatype SignError =
    | TransactionMismatch | InvalidEvent | PolicyDenied | IdempotencyConflict | IdempotencyUnavailable
    | SignerMismatch | ChainUnavailable

  // ---- What a request must pass -----------------------------------------------------------------------

  datatype Inspection = Inspection(isSigned: bool, digest: string, transactionId: string, operationJson: string)

  datatype ParsedEvent = ParsedEvent(eventType: string, family: string)

  datatype Authorization = Authorization(mode: string, role: string, account: string, authority: string,
                                         publicKey: string, keyReference: string, policyVersion: string)

  /** The chain library, the hash, the event parser and the policy: fixed, and otherwise unknown. */
  datatype World = World(
    inspect: string -> Option<Inspection>,
    hash: string -> string,
    parse: string -> Option<ParsedEvent>,
    resolve: (string, string) -> Option<Authorization>,
    /** The operation and payload the policy rebuilds for an event, or its refusal. */
    rebuild: (string, string, string, Authorization) -> Result<(string, string), SignError>,
    /** Whether the signature of the digest recovers to the key; `None` when the chain cannot tell. */
    recovers: (string, string, string) -> Option<bool>)

  predicate MatchesTrusted(r: Request, a: Authorization) {
    && a.mode == "official_service" && a.role == r.role && a.account == r.account && a.authority == r.authority
    && a.publicKey == r.publicKey && a.keyReference == r.keyReference && a.policyVersion == r.policyVersion
  }

  /** The checks before any effect, in their order; `None` lets the request through. */
  function Objection(w: World, r: Request): Option<SignError> {
    var inspected := w.inspect(r.unsignedJson);
    if inspected.None? then Some(ChainUnavailable)
    else if inspected.value.isSigned then Some(TransactionMismatch)
    else if inspected.value.digest != r.digest || inspected.value.transactionId != r.transactionId
            || inspected.value.operationJson != r.operationJson
            || w.hash(inspected.value.operationJson) != r.operationHash then Some(TransactionMismatch)
    else
      var event := w.parse(r.payload);
      if event.None? then Some(InvalidEvent)
      else if event.value.eventType != r.eventType || event.value.family != r.eventFamily then Some(TransactionMismatch)
      else
        var authorization := w.resolve(r.policyVersion, r.role);
        if authorization.None? || !MatchesTrusted(r, authorization.value) then Some(PolicyDenied)
        else
          var rebuilt := w.rebuild(r.key, r.policyVersion, r.payload, authorization.value);
          if rebuilt.Failure? then Some(rebuilt.error)
          else if rebuilt.value.0 != r.operationJson || rebuilt.value.1 != r.payload then Some(PolicyDenied)
          else None
  }

  /** What is wrong with a response, if anything. */
  function Flaw(w: World, r: Request, response: Response): Option<SignError> {
    if response.publicKey != r.publicKey then Some(SignerMismatch)
    else
      var recovered := w.recovers(r.digest, response.signature, r.publicKey);
      if recovered.None? then Some(ChainUnavailable)
      else if !recovered.value then Some(SignerMismatch)
      else None
  }

  // ---- The ledger -------------------------------------------------------------------------------------

  datatype Record = Record(binding: Binding, lease: nat, response: Option<Response>)

  datatype Acquisition = Acquired(lease: nat) | Conflict | Replay(response: Response) | Active

  datatype Ledger = Ledger(records: map<string, Record>, leases: nat)

  function Acquire(l: Ledger, b: Binding): (Ledger, Acquisition) {
    if b.key !in l.records then
      (Ledger(l.records[b.key := Record(b, l.leases + 1, None)], l.leases + 1), Acquired(l.leases + 1))
    else if l.records[b.key].binding != b then (l, Conflict)
    else if l.records[b.key].response.None? then (l, Active)
    else (l, Replay(l.records[b.key].response.value))
  }

  predicate HoldsLease(l: Ledger, b: Binding, lease: nat) {
    b.key in l.records && l.records[b.key] == Record(b, lease, None)
  }

  function Complete(l: Ledger, b: Binding, lease: nat, response: Response): Option<Ledger> {
    if HoldsLease(l, b, lease) then
      Some(l.(records := l.records[b.key := Record(b, lease, Some(response))]))
    else None
  }

  function Abort(l: Ledger, b: Binding, lease: nat): Ledger {
    if HoldsLease(l, b, lease) then l.(records := l.records - {b.key}) else l
  }

  /** The ledger as it runs; its methods change its map and its counter. */
  class FixtureLedger {
    var records: map<string, Record>
    var leaseSequence: nat

    constructor ()
      ensures Value() == Ledger(map[], 0)
    {
      records, leaseSequence := map[], 0;
    }

    function Value(): Ledger
      reads this
    {
      Ledger(records, leaseSequence)
    }

    method AcquireLease(b: Binding) returns (r: Acquisition)
      modifies this
      ensures Value() == Acquire(old(Value()), b).0 && r == Acquire(old(Value()), b).1
    {
      if b.key !in records {
        leaseSequence := leaseSequence + 1;
        records := records[b.key := Record(b, leaseSequence, None)];
        return Acquired(leaseSequence);
      }
      var existing := records[b.key];
      if existing.binding != b {
        return Conflict;
      }
      if existing.response.None? {
        return Active;
      }
      return Replay(existing.response.value);
    }

    method CompleteLease(b: Binding, lease: nat, response: Response) returns (ok: bool)
      modifies this
      ensures var expected := Complete(old(Value()), b, lease, response);
              ok == expected.Some? && Value() == if ok then expected.value else old(Value())
    {
      if b.key !in records || records[b.key].response.Some? || records[b.key].lease != lease
         || records[b.key].binding != b {
        return false;
      }
      records := records[b.key := records[b.key].(response := Some(response))];
      return true;
    }

    method AbortLease(b: Binding, lease: nat)
      modifies this
      ensures Value() == Abort(old(Value()), b, lease)
    {
      if b.key in records && records[b.key].response.None? && records[b.key].lease == lease
         && records[b.key].binding == b {
        records := records - {b.key};
      }
    }
  }

  // ---- Interleaved calls ------------------------------------------------------------------------------

  datatype Call =
    | Checking
    | Acquiring
    | Signing(lease: nat)
    | Completing(lease: nat, response: Response)
    | Done(result: Result<Response, SignError>)

  /** An effect works, is refused before it takes place, or takes place and its answer is lost. */
  datatype Fate = Works | FailsBefore | FailsAfter

  datatype Action = Action(call: nat, fate: Fate, signature: string)

  /** `invocations` lists the requests the provider was asked to sign. */
  datatype State = State(ledger: Ledger, invocations: seq<Request>, calls: map<nat, Call>)

  function CallOf(s: State, c: nat): Call {
    if c in s.calls then s.calls[c] else Checking
  }

  function Moves(s: State, c: nat, next: Call): State {
    s.(calls := s.calls[c := next])
  }

  function AfterAcquire(w: World, r: Request, acquisition: Acquisition): Call {
    match acquisition
    case Acquired(lease) => Signing(lease)
    case Conflict => Done(Failure(IdempotencyConflict))
    case Replay(response) =>
      Done(if Flaw(w, r, response).None? then Success(response) else Failure(Flaw(w, r, response).value))
    case Active => Done(Failure(IdempotencyUnavailable))
  }

  function AfterSigning(w: World, r: Request, lease: nat, fate: Fate, signature: string): Call {
    var response := Response(signature, r.publicKey);
    if fate != Works then Done(Failure(IdempotencyUnavailable))
    else if Flaw(w, r, response).Some? then Done(Failure(Flaw(w, r, response).value))
    else Completing(lease, response)
  }

  function Step(w: World, requests: nat -> Request, s: State, action: Action): State {
    var c, fate := action.call, action.fate;
    var r := requests(c);
    match CallOf(s, c)
    case Checking =>
      Moves(s, c, if Objection(w, r).None? then Acquiring else Done(Failure(Objection(w, r).value)))
    case Acquiring =>
      var acquired := Acquire(s.ledger, BindingOf(r));
      if fate == Works then Moves(s.(ledger := acquired.0), c, AfterAcquire(w, r, acquired.1))
      else
        Moves(if fate == FailsAfter then s.(ledger := acquired.0) else s, c, Done(Failure(IdempotencyUnavailable)))
    case Signing(lease) =>
      Moves(s.(invocations := s.invocations + [r]), c, AfterSigning(w, r, lease, fate, action.signature))
    case Completing(lease, response) =>
      var completed := Complete(s.ledger, BindingOf(r), lease, response);
      var committed := if fate != FailsBefore && completed.Some? then s.(ledger := completed.value) else s;
      Moves(committed, c,
            Done(if fate == Works && completed.Some? then Success(response) else Failure(IdempotencyUnavailable)))
    case Done(_) => s
  }

  function Run(w: World, requests: nat -> Request, s: State, actions: seq<Action>): State {
    if actions == [] then s
    else Step(w, requests, Run(w, requests, s, actions[..|actions| - 1]), actions[|actions| - 1])
  }

  const FRESH := State(Ledger(map[], 0), [], map[])

  // ---- The invariant ----------------------------------------------------------------------------------

  predicate WasInvoked(s: State, key: string) {
    exists i :: 0 <= i < |s.invocations| && s.invocations[i].key == key
  }

  predicate CallIsSound(w: World, r: Request, s: State, call: Call) {
    && (call.Acquiring? || call.Signing? || call.Completing? ==> Objection(w, r).None?)
    && (call.Signing? ==> HoldsLease(s.ledger, BindingOf(r), call.lease) && !WasInvoked(s, r.key))
    && (call.Completing? ==>
          HoldsLease(s.ledger, BindingOf(r), call.lease) && Flaw(w, r, call.response).None?)
    && (call.Done? && call.result.Success? ==>
          && r.key in s.ledger.records && s.ledger.records[r.key].binding == BindingOf(r)
          && s.ledger.records[r.key].response == Some(call.result.value)
          && Flaw(w, r, call.result.value).None?)
  }

  /** The lease a call holds. */
  function LeaseOf(call: Call): Option<nat> {
    match call
    case Signing(lease) => Some(lease)
    case Completing(lease, _) => Some(lease)
    case _ => None
  }

  predicate LeasesApart(s: State) {
    forall c, d :: c in s.calls && d in s.calls && c != d && LeaseOf(s.calls[c]).Some? ==>
      LeaseOf(s.calls[c]) != LeaseOf(s.calls[d])
  }

  predicate InvokedOnce(w: World, s: State) {
    && (forall i, j :: 0 <= i < j < |s.invocations| ==> s.invocations[i].key != s.invocations[j].key)
    && (forall i :: 0 <= i < |s.invocations| ==>
          Objection(w, s.invocations[i]).None? && s.invocations[i].key in s.ledger.records)
  }

  predicate LedgerIsSound(l: Ledger) {
    forall k :: k in l.records ==> l.records[k].binding.key == k && l.records[k].lease <= l.leases
  }

  predicate Sound(w: World, requests: nat -> Request, s: State) {
    && LedgerIsSound(s.ledger) && LeasesApart(s) && InvokedOnce(w, s)
    && forall c :: c in s.calls ==> CallIsSound(w, requests(c), s, s.calls[c])
  }

  /** Records are only added and completed. */
  predicate LedgerGrows(a: Ledger, b: Ledger) {
    && a.leases <= b.leases
    && forall k :: k in a.records ==> RecordGrows(k, a, b)
  }

  predicate RecordGrows(k: string, a: Ledger, b: Ledger)
    requires k in a.records
  {
    && k in b.records && b.records[k].binding == a.records[k].binding && b.records[k].lease == a.records[k].lease
    && (a.records[k].response.Some? ==> b.records[k] == a.records[k])
  }

  // ---- Every step keeps it ----------------------------------------------------------------------------

  /** A call that is not touched stays sound when the ledger grows around its lease. */
  lemma OtherStaysSound(w: World, r: Request, s: State, t: State, call: Call)
    requires CallIsSound(w, r, s, call) && LedgerGrows(s.ledger, t.ledger)
    requires LeaseOf(call).Some? ==>
               HoldsLease(s.ledger, BindingOf(r), LeaseOf(call).value) ==>
               HoldsLease(t.ledger, BindingOf(r), LeaseOf(call).value)
    requires call.Signing? ==> !WasInvoked(t, r.key)
    ensures CallIsSound(w, r, t, call)
  {
    if call.Done? && call.result.Success? {
      assert RecordGrows(r.key, s.ledger, t.ledger);
    }
  }

  lemma StepAssembles(w: World, requests: nat -> Request, s: State, t: State, c: nat)
    requires Sound(w, requests, s) && t.calls.Keys == s.calls.Keys + {c}
    requires forall d :: d in s.calls && d != c ==> t.calls[d] == s.calls[d]
    requires LedgerIsSound(t.ledger) && InvokedOnce(w, t)
    requires CallIsSound(w, requests(c), t, t.calls[c])
    requires forall d :: d in s.calls && d != c ==> CallIsSound(w, requests(d), t, s.calls[d])
    requires forall d :: d in s.calls && d != c && LeaseOf(s.calls[d]).Some? ==>
               LeaseOf(s.calls[d]) != LeaseOf(t.calls[c])
    ensures Sound(w, requests, t)
  {
    forall d | d in t.calls ensures CallIsSound(w, requests(d), t, t.calls[d]) {
      assert d != c ==> d in s.calls;
    }
    forall d, e | d in t.calls && e in t.calls && d != e && LeaseOf(t.calls[d]).Some?
      ensures LeaseOf(t.calls[d]) != LeaseOf(t.calls[e])
    {
      assert d != c ==> d in s.calls;
      assert e != c ==> e in s.calls;
    }
  }

  lemma QuietStep(w: World, requests: nat -> Request, s: State, c: nat, next: Call)
    requires Sound(w, requests, s) && CallIsSound(w, requests(c), s, next) && LeaseOf(next).None?
    ensures Sound(w, requests, Moves(s, c, next))
    ensures LedgerGrows(s.ledger, Moves(s, c, next).ledger)
  {
    var t := Moves(s, c, next);
    assert forall k :: WasInvoked(t, k) == WasInvoked(s, k);
    forall d | d in s.calls && d != c ensures CallIsSound(w, requests(d), t, s.calls[d]) {
      OtherStaysSound(w, requests(d), s, t, s.calls[d]);
    }
    StepAssembles(w, requests, s, t, c);
  }

  /** Whoever holds a lease of the old ledger holds it in one that only gained a record or a response elsewhere. */
  lemma AcquireGrows(l: Ledger, b: Binding)
    requires LedgerIsSound(l)
    ensures LedgerIsSound(Acquire(l, b).0) && LedgerGrows(l, Acquire(l, b).0)
    ensures forall k :: k in l.records ==> Acquire(l, b).0.records[k] == l.records[k]
    ensures Acquire(l, b).1.Acquired? ==>
              HoldsLease(Acquire(l, b).0, b, Acquire(l, b).1.lease) && b.key !in l.records
              && Acquire(l, b).1.lease > l.leases
  {
  }

  lemma OtherAfterAcquire(w: World, r: Request, s: State, t: State, b: Binding, call: Call)
    requires LedgerIsSound(s.ledger) && CallIsSound(w, r, s, call)
    requires t.invocations == s.invocations
    requires t.ledger == s.ledger || t.ledger == Acquire(s.ledger, b).0
    ensures CallIsSound(w, r, t, call)
    ensures LeaseOf(call).Some? ==> LeaseOf(call).value <= s.ledger.leases
  {
    AcquireGrows(s.ledger, b);
    assert WasInvoked(t, r.key) == WasInvoked(s, r.key);
    OtherStaysSound(w, r, s, t, call);
  }

  lemma OwnAfterAcquire(w: World, r: Request, s: State, t: State)
    requires LedgerIsSound(s.ledger) && InvokedOnce(w, s) && Objection(w, r).None?
    requires t.invocations == s.invocations && t.ledger == Acquire(s.ledger, BindingOf(r)).0
    ensures CallIsSound(w, r, t, AfterAcquire(w, r, Acquire(s.ledger, BindingOf(r)).1))
  {
    AcquireGrows(s.ledger, BindingOf(r));
    if WasInvoked(t, r.key) {
      var i :| 0 <= i < |s.invocations| && s.invocations[i].key == r.key;
      assert r.key in s.ledger.records;
    }
  }

  lemma AcquireKeeps(w: World, requests: nat -> Request, s: State, c: nat, fate: Fate, signature: string)
    requires Sound(w, requests, s) && CallOf(s, c).Acquiring?
    ensures var t := Step(w, requests, s, Action(c, fate, signature));
            Sound(w, requests, t) && LedgerGrows(s.ledger, t.ledger)
  {
    AcquiredKeeps(w, requests, s, Step(w, requests, s, Action(c, fate, signature)), c);
  }

  /** `t` is `s` after an attempt of the call to acquire, whether or not its answer came back. */
  lemma AcquiredKeeps(w: World, requests: nat -> Request, s: State, t: State, c: nat)
    requires Sound(w, requests, s) && CallOf(s, c).Acquiring? && t.invocations == s.invocations
    requires c in t.calls && t.calls == s.calls[c := t.calls[c]]
    requires var acquired := Acquire(s.ledger, BindingOf(requests(c)));
             if t.calls[c] == Done(Failure(IdempotencyUnavailable)) then t.ledger == s.ledger || t.ledger == acquired.0
             else t.ledger == acquired.0 && t.calls[c] == AfterAcquire(w, requests(c), acquired.1)
    ensures Sound(w, requests, t) && LedgerGrows(s.ledger, t.ledger)
  {
    var r := requests(c);
    assert CallIsSound(w, r, s, s.calls[c]);
    AcquireGrows(s.ledger, BindingOf(r));
    if t.calls[c] != Done(Failure(IdempotencyUnavailable)) {
      OwnAfterAcquire(w, r, s, t);
    }
    forall d | d in s.calls && d != c
      ensures CallIsSound(w, requests(d), t, s.calls[d])
      ensures LeaseOf(s.calls[d]).Some? ==> LeaseOf(s.calls[d]) != LeaseOf(t.calls[c])
    {
      OtherAfterAcquire(w, requests(d), s, t, BindingOf(r), s.calls[d]);
    }
    StepAssembles(w, requests, s, t, c);
  }

  lemma SigningKeeps(w: World, requests: nat -> Request, s: State, c: nat, fate: Fate, signature: string)
    requires Sound(w, requests, s) && CallOf(s, c).Signing?
    ensures var t := Step(w, requests, s, Action(c, fate, signature));
            Sound(w, requests, t) && LedgerGrows(s.ledger, t.ledger)
  {
    var r, lease := requests(c), s.calls[c].lease;
    var t := Step(w, requests, s, Action(c, fate, signature));
    assert CallIsSound(w, r, s, s.calls[c]);
    forall i | 0 <= i < |s.invocations| ensures s.invocations[i].key != r.key {
    }
    forall d | d in s.calls && d != c
      ensures CallIsSound(w, requests(d), t, s.calls[d])
      ensures LeaseOf(s.calls[d]).Some? ==> LeaseOf(s.calls[d]) != LeaseOf(t.calls[c])
    {
      assert CallIsSound(w, requests(d), s, s.calls[d]);
      if s.calls[d].Signing? {
        assert requests(d).key != r.key;
        InvokedElsewhere(s, t, r, requests(d).key);
      }
      OtherStaysSound(w, requests(d), s, t, s.calls[d]);
    }
    StepAssembles(w, requests, s, t, c);
  }

  lemma InvokedElsewhere(s: State, t: State, r: Request, key: string)
    requires t.invocations == s.invocations + [r] && key != r.key && !WasInvoked(s, key)
    ensures !WasInvoked(t, key)
  {
  }

  lemma CompletingKeeps(w: World, requests: nat -> Request, s: State, c: nat, fate: Fate, signature: string)
    requires Sound(w, requests, s) && CallOf(s, c).Completing?
    ensures var t := Step(w, requests, s, Action(c, fate, signature));
            Sound(w, requests, t) && LedgerGrows(s.ledger, t.ledger)
  {
    var r := requests(c);
    var t := Step(w, requests, s, Action(c, fate, signature));
    assert CallIsSound(w, r, s, s.calls[c]);
    assert forall k :: WasInvoked(t, k) == WasInvoked(s, k);
    forall d | d in s.calls && d != c
      ensures CallIsSound(w, requests(d), t, s.calls[d])
    {
      assert CallIsSound(w, requests(d), s, s.calls[d]);
      OtherStaysSound(w, requests(d), s, t, s.calls[d]);
    }
    StepAssembles(w, requests, s, t, c);
  }

  lemma StepKeeps(w: World, requests: nat -> Request, s: State, action: Action)
    requires Sound(w, requests, s)
    ensures Sound(w, requests, Step(w, requests, s, action))
    ensures LedgerGrows(s.ledger, Step(w, requests, s, action).ledger)
  {
    var c := action.call;
    match CallOf(s, c)
    case Checking => QuietStep(w, requests, s, c, Step(w, requests, s, action).calls[c]);
    case Acquiring => AcquireKeeps(w, requests, s, c, action.fate, action.signature);
    case Signing(_) => SigningKeeps(w, requests, s, c, action.fate, action.signature);
    case Completing(_, _) => CompletingKeeps(w, requests, s, c, action.fate, action.signature);
    case Done(_) =>
  }

  lemma LedgerGrowsTransitive(a: Ledger, b: Ledger, c: Ledger)
    requires LedgerGrows(a, b) && LedgerGrows(b, c)
    ensures LedgerGrows(a, c)
  {
    forall k | k in a.records ensures RecordGrows(k, a, c) {
      assert RecordGrows(k, a, b) && RecordGrows(k, b, c);
    }
  }

  lemma {:induction false} RunKeeps(w: World, requests: nat -> Request, actions: seq<Action>)
    ensures Sound(w, requests, Run(w, requests, FRESH, actions))
  {
    if actions != [] {
      var n := |actions| - 1;
      RunKeeps(w, requests, actions[..n]);
      StepKeeps(w, requests, Run(w, requests, FRESH, actions[..n]), actions[n]);
    }
  }

  /** Between two moments of a run records are only added and completed. */
  lemma {:induction false} RunGrows(w: World, requests: nat -> Request, actions: seq<Action>, i: nat)
    requires i <= |actions|
    ensures LedgerGrows(Run(w, requests, FRESH, actions[..i]).ledger, Run(w, requests, FRESH, actions).ledger)
  {
    if i == |actions| {
      assert actions[..i] == actions;
    } else {
      var n := |actions| - 1;
      RunGrows(w, requests, actions[..n], i);
      assert actions[..n][..i] == actions[..i];
      var before := Run(w, requests, FRESH, actions[..n]);
      RunKeeps(w, requests, actions[..n]);
      StepKeeps(w, requests, before, actions[n]);
      LedgerGrowsTransitive(Run(w, requests, FRESH, actions[..i]).ledger, before.ledger,
                            Step(w, requests, before, actions[n]).ledger);
    }
  }

  // ---- What follows -----------------------------------------------------------------------------------

  /**
   At most once: under any interleaving of any calls, provider failures and lost or refused
   completions, the provider is asked to sign at most once for a key, and only for requests that
   passed every check.
   */
  lemma ProviderSignsAtMostOnce(w: World, requests: nat -> Request, actions: seq<Action>)
    ensures var asked := Run(w, requests, FRESH, actions).invocations;
            && (forall i, j :: 0 <= i < j < |asked| ==> asked[i].key != asked[j].key)
            && (forall i :: 0 <= i < |asked| ==> Objection(w, asked[i]).None?)
  {
    RunKeeps(w, requests, actions);
  }

  /**
   All responses ever returned for a key are one response, they come from requests with one binding,
   and the response verifies for the request it was returned to, whenever the calls finished.
   */
  lemma ResponsesAreEqual(w: World, requests: nat -> Request, actions: seq<Action>, i: nat, c: nat, d: nat)
    requires i <= |actions| && requests(c).key == requests(d).key
    requires var call := CallOf(Run(w, requests, FRESH, actions[..i]), c); call.Done? && call.result.Success?
    requires var call := CallOf(Run(w, requests, FRESH, actions), d); call.Done? && call.result.Success?
    ensures CallOf(Run(w, requests, FRESH, actions[..i]), c).result
         == CallOf(Run(w, requests, FRESH, actions), d).result
    ensures BindingOf(requests(c)) == BindingOf(requests(d))
    ensures Flaw(w, requests(d), CallOf(Run(w, requests, FRESH, actions), d).result.value).None?
  {
    RunKeeps(w, requests, actions);
    RunKeeps(w, requests, actions[..i]);
    RunGrows(w, requests, actions, i);
    var early, late := Run(w, requests, FRESH, actions[..i]), Run(w, requests, FRESH, actions);
    assert CallIsSound(w, requests(c), early, early.calls[c]);
    assert CallIsSound(w, requests(d), late, late.calls[d]);
    assert RecordGrows(requests(c).key, early.ledger, late.ledger);
  }

  /** The three effects of one call and what becomes of each. */
  datatype Fates = Fates(acquire: Fate, sign: Fate, signature: string, complete: Fate)

  /** One call that no other call interrupts. */
  function Alone(w: World, r: Request, s: State, fates: Fates): State {
    var requests := (c: nat) => r;
    var checked := Step(w, requests, s, Action(0, Works, ""));
    var acquired := Step(w, requests, checked, Action(0, fates.acquire, ""));
    var asked := Step(w, requests, acquired, Action(0, fates.sign, fates.signature));
    Step(w, requests, asked, Action(0, fates.complete, ""))
  }

  /** The boundary as it runs: check, acquire, ask the provider, verify, complete. */
  class Boundary {
    const w: World
    const ledger: FixtureLedger
    var invocations: seq<Request>

    constructor (w: World, ledger: FixtureLedger)
      ensures this.w == w && this.ledger == ledger && invocations == []
    {
      this.w, this.ledger := w, ledger;
      invocations := [];
    }

    /** Asking the provider counts whether or not its answer arrives. */
    method SignDigest(r: Request, fate: Fate, signature: string) returns (answer: Option<string>)
      modifies `invocations
      ensures invocations == old(invocations) + [r]
      ensures answer == if fate == Works then Some(signature) else None
    {
      invocations := invocations + [r];
      answer := if fate == Works then Some(signature) else None;
    }

    method Sign(r: Request, fates: Fates) returns (result: Result<Response, SignError>)
      modifies `invocations, ledger
      ensures var s := Alone(w, r, State(old(ledger.Value()), old(invocations), map[]), fates);
              ledger.Value() == s.ledger && invocations == s.invocations && CallOf(s, 0) == Done(result)
    {
      var objection := Objection(w, r);
      if objection.Some? {
        return Failure(objection.value);
      }
      var binding := BindingOf(r);
      if fates.acquire == FailsBefore {
        return Failure(IdempotencyUnavailable);
      }
      var acquisition := ledger.AcquireLease(binding);
      if fates.acquire == FailsAfter || acquisition.Active? {
        return Failure(IdempotencyUnavailable);
      }
      if acquisition.Conflict? {
        return Failure(IdempotencyConflict);
      }
      if acquisition.Replay? {
        var flaw := Flaw(w, r, acquisition.response);
        return if flaw.None? then Success(acquisition.response) else Failure(flaw.value);
      }
      var signature := SignDigest(r, fates.sign, fates.signature);
      if signature.None? {
        return Failure(IdempotencyUnavailable);
      }
      var response := Response(signature.value, r.publicKey);
      var flaw := Flaw(w, r, response);
      if flaw.Some? {
        return Failure(flaw.value);
      }
      if fates.complete == FailsBefore {
        return Failure(IdempotencyUnavailable);
      }
      var completed := ledger.CompleteLease(binding, acquisition.lease, response);
      if fates.complete == FailsAfter || !completed {
        return Failure(IdempotencyUnavailable);
      }
      return Success(response);
    }
  }

  /**
   Why an unresolved reservation is kept: were it aborted after the provider was asked, the same
   request would be signed a second time.
   */
  lemma AbortWouldSignTwice(w: World, r: Request, signature: string)
    requires Objection(w, r).None?
    ensures var first := Alone(w, r, FRESH, Fates(Works, FailsAfter, signature, Works));
            var aborted := State(Abort(first.ledger, BindingOf(r), 1), first.invocations, map[]);
            Alone(w, r, aborted, Fates(Works, Works, signature, Works)).invocations == [r, r]
  {
    var requests := (c: nat) => r;
    var acquired := Step(w, requests, Step(w, requests, FRESH, Action(0, Works, "")), Action(0, Works, ""));
    assert CallOf(acquired, 0) == Signing(1);
    var first := Alone(w, r, FRESH, Fates(Works, FailsAfter, signature, Works));
    assert first.invocations == [r] && CallOf(first, 0).Done?;
    var aborted := State(Abort(first.ledger, BindingOf(r), 1), first.invocations, map[]);
    assert r.key !in aborted.ledger.records;
    var again := Step(w, requests, Step(w, requests, aborted, Action(0, Works, "")), Action(0, Works, ""));
    assert CallOf(again, 0) == Signing(2);
    assert Step(w, requests, again, Action(0, Works, signature)).invocations == [r] + [r];
  }
}
