/**
 Which requests the signer boundary lets through and what it returns for them, said of the fields of the
 request and of the answers of chain, parser and policy alone.
 */
module SignerChecks {
  import opened Wrappers
  import opened Signer

  // ---- What a request has to be ---------------------------------------------------------------------

  /** The unsigned transaction is the one the request describes. */
  predicate IsTransaction(w: World, r: Request) {
    && w.inspect(r.unsignedJson).Some?
    && var tx := w.inspect(r.unsignedJson).value;
       && !tx.isSigned && tx.digest == r.digest && tx.transactionId == r.transactionId
       && tx.operationJson == r.operationJson && w.hash(r.operationJson) == r.operationHash
  }

  /** The payload is an event of the type and family the request names. */
  predicate IsEvent(w: World, r: Request) {
    && w.parse(r.payload).Some?
    && w.parse(r.payload).value.eventType == r.eventType && w.parse(r.payload).value.family == r.eventFamily
  }

  /** The policy has approved exactly this signer for the role and version. */
  predicate IsApproved(w: World, r: Request) {
    && w.resolve(r.policyVersion, r.role).Some?
    && var a := w.resolve(r.policyVersion, r.role).value;
       && a.mode == "official_service" && a.role == r.role && a.account == r.account
       && a.authority == r.authority && a.publicKey == r.publicKey && a.keyReference == r.keyReference
       && a.policyVersion == r.policyVersion
  }

  /** From the event, the policy rebuilds the operation and the payload of the request. */
  predicate IsRebuilt(w: World, r: Request)
    requires w.resolve(r.policyVersion, r.role).Some?
  {
    w.rebuild(r.key, r.policyVersion, r.payload, w.resolve(r.policyVersion, r.role).value)
      == Success((r.operationJson, r.payload))
  }

  predicate IsSignable(w: World, r: Request) {
    IsTransaction(w, r) && IsEvent(w, r) && IsApproved(w, r) && IsRebuilt(w, r)
  }

  /** A request is let through exactly if it is all of that, and each error is given for what fails first. */
  lemma ObjectionIff(w: World, r: Request)
    ensures Objection(w, r).None? <==> IsSignable(w, r)
    ensures w.inspect(r.unsignedJson).None? ==> Objection(w, r) == Some(ChainUnavailable)
    ensures w.inspect(r.unsignedJson).Some? && !IsTransaction(w, r) ==> Objection(w, r) == Some(TransactionMismatch)
    ensures IsTransaction(w, r) && w.parse(r.payload).None? ==> Objection(w, r) == Some(InvalidEvent)
    ensures IsTransaction(w, r) && w.parse(r.payload).Some? && !IsEvent(w, r) ==>
              Objection(w, r) == Some(TransactionMismatch)
    ensures IsTransaction(w, r) && IsEvent(w, r) && !IsApproved(w, r) ==> Objection(w, r) == Some(PolicyDenied)
    ensures IsTransaction(w, r) && IsEvent(w, r) && IsApproved(w, r) && !IsRebuilt(w, r) ==>
              var rebuilt := w.rebuild(r.key, r.policyVersion, r.payload, w.resolve(r.policyVersion, r.role).value);
              Objection(w, r) == Some(if rebuilt.Failure? then rebuilt.error else PolicyDenied)
  {
  }

  /** The response is for the key of the request, and its signature of the digest recovers to this key. */
  predicate IsVerified(w: World, r: Request, response: Response) {
    response.publicKey == r.publicKey && w.recovers(r.digest, response.signature, r.publicKey) == Some(true)
  }

  /** What an unverified response is refused with: the chain may be unable to tell. */
  predicate IsRefusal(w: World, r: Request, response: Response, error: SignError) {
    if response.publicKey == r.publicKey && w.recovers(r.digest, response.signature, r.publicKey).None? then
      error == ChainUnavailable
    else error == SignerMismatch
  }

  lemma FlawIff(w: World, r: Request, response: Response)
    ensures Flaw(w, r, response).None? <==> IsVerified(w, r, response)
    ensures Flaw(w, r, response).Some? ==> IsRefusal(w, r, response, Flaw(w, r, response).value)
  {
  }

  /** Everything that an idempotency key is bound to; the payload and the event type follow from it. */
  predicate IsBoundTo(r: Request, b: Binding) {
    && b.key == r.key && b.policyVersion == r.policyVersion && b.role == r.role && b.account == r.account
    && b.authority == r.authority && b.publicKey == r.publicKey && b.keyReference == r.keyReference
    && b.operationJson == r.operationJson && b.operationHash == r.operationHash && b.digest == r.digest
    && b.transactionId == r.transactionId
  }

  lemma BindingIff(r: Request, b: Binding)
    ensures BindingOf(r) == b <==> IsBoundTo(r, b)
  {
  }

  // ---- Over any interleaving ------------------------------------------------------------------------

  /** A call that has passed the checks. */
  predicate HasPassed(call: Call) {
    call.Acquiring? || call.Signing? || call.Completing? || (call.Done? && call.result.Success?)
  }

  /** Calls go on only for signable requests, and responses come from the provider. */
  ghost predicate IsAnswered(w: World, requests: nat -> Request, s: State) {
    && (forall c :: c in s.calls && HasPassed(s.calls[c]) ==> IsSignable(w, requests(c)))
    && (forall c :: c in s.calls && s.calls[c].Completing? ==> WasInvoked(s, requests(c).key))
    && (forall k :: k in s.ledger.records && s.ledger.records[k].response.Some? ==> WasInvoked(s, k))
  }

  lemma MoreInvoked(s: State, t: State, key: string)
    requires s.invocations <= t.invocations && WasInvoked(s, key)
    ensures WasInvoked(t, key)
  {
    var i :| 0 <= i < |s.invocations| && s.invocations[i].key == key;
    assert t.invocations[i].key == key;
  }

  /** The records with a response are those from before, and at most the one of the call. */
  lemma StepAnswers(w: World, requests: nat -> Request, s: State, action: Action)
    ensures var t := Step(w, requests, s, action);
            && s.invocations <= t.invocations
            && (forall d :: d in t.calls && d != action.call ==> d in s.calls && t.calls[d] == s.calls[d])
            && (forall k :: k in t.ledger.records && t.ledger.records[k].response.Some? ==>
                  || (k in s.ledger.records && s.ledger.records[k].response.Some?)
                  || (CallOf(s, action.call).Completing? && k == requests(action.call).key))
  {
  }

  lemma StepKeepsAnswered(w: World, requests: nat -> Request, s: State, action: Action)
    requires Sound(w, requests, s) && IsAnswered(w, requests, s)
    ensures IsAnswered(w, requests, Step(w, requests, s, action))
  {
    var t, c := Step(w, requests, s, action), action.call;
    StepAnswers(w, requests, s, action);
    forall d | d in t.calls && HasPassed(t.calls[d]) ensures IsSignable(w, requests(d)) {
      if d == c {
        OwnStepPassed(w, requests, s, action);
      }
    }
    forall d | d in t.calls && t.calls[d].Completing? ensures WasInvoked(t, requests(d).key) {
      if d == c && !CallOf(s, c).Done? {
        assert CallOf(s, c).Signing?;
        assert t.invocations[|s.invocations|] == requests(c);
      } else {
        MoreInvoked(s, t, requests(d).key);
      }
    }
    forall k | k in t.ledger.records && t.ledger.records[k].response.Some? ensures WasInvoked(t, k) {
      MoreInvoked(s, t, k);
    }
  }

  lemma OwnStepPassed(w: World, requests: nat -> Request, s: State, action: Action)
    requires IsAnswered(w, requests, s)
    ensures var t := Step(w, requests, s, action);
            action.call in t.calls && HasPassed(t.calls[action.call]) ==> IsSignable(w, requests(action.call))
  {
    ObjectionIff(w, requests(action.call));
  }

  lemma {:induction false} RunIsAnswered(w: World, requests: nat -> Request, actions: seq<Action>)
    ensures IsAnswered(w, requests, Run(w, requests, FRESH, actions))
  {
    if actions != [] {
      var n := |actions| - 1;
      RunIsAnswered(w, requests, actions[..n]);
      RunKeeps(w, requests, actions[..n]);
      StepKeepsAnswered(w, requests, Run(w, requests, FRESH, actions[..n]), actions[n]);
    }
  }

  /**
   Whatever the interleaving and the failures: the provider is asked only for signable requests, with the
   account, authority, key and key reference that the policy approved for the role.
   */
  lemma AskedAreSignable(w: World, requests: nat -> Request, actions: seq<Action>, i: nat)
    requires i < |Run(w, requests, FRESH, actions).invocations|
    ensures IsSignable(w, Run(w, requests, FRESH, actions).invocations[i])
  {
    ProviderSignsAtMostOnce(w, requests, actions);
    ObjectionIff(w, Run(w, requests, FRESH, actions).invocations[i]);
  }

  /** And whoever gets a response asked for something signable, and holds a verified answer of the provider. */
  lemma SuccessIsVerified(w: World, requests: nat -> Request, actions: seq<Action>, c: nat)
    requires var call := CallOf(Run(w, requests, FRESH, actions), c); call.Done? && call.result.Success?
    ensures var s := Run(w, requests, FRESH, actions);
            && IsSignable(w, requests(c)) && WasInvoked(s, requests(c).key)
            && IsVerified(w, requests(c), CallOf(s, c).result.value)
            && requests(c).key in s.ledger.records
            && IsBoundTo(requests(c), s.ledger.records[requests(c).key].binding)
  {
    RunKeeps(w, requests, actions);
    RunIsAnswered(w, requests, actions);
    var s := Run(w, requests, FRESH, actions);
    assert CallIsSound(w, requests(c), s, s.calls[c]);
    FlawIff(w, requests(c), CallOf(s, c).result.value);
    BindingIff(requests(c), s.ledger.records[requests(c).key].binding);
  }

  // ---- One call whose effects work ------------------------------------------------------------------

  /** What one call returns when every effect works. */
  ghost predicate IsOutcome(w: World, r: Request, s: State, signature: string, t: State,
                            result: Result<Response, SignError>)
  {
    var response := Response(signature, r.publicKey);
    if !IsSignable(w, r) then
      result == Failure(Objection(w, r).value) && t.ledger == s.ledger && t.invocations == s.invocations
    else if r.key !in s.ledger.records then
      && t.invocations == s.invocations + [r] && t.ledger.leases == s.ledger.leases + 1
      && t.ledger.records.Keys == s.ledger.records.Keys + {r.key}
      && (forall k :: k in s.ledger.records ==> t.ledger.records[k] == s.ledger.records[k])
      && IsBoundTo(r, t.ledger.records[r.key].binding)
      && (if IsVerified(w, r, response) then
            result == Success(response) && t.ledger.records[r.key].response == Some(response)
          else
            result.Failure? && IsRefusal(w, r, response, result.error) && t.ledger.records[r.key].response.None?)
    else
      && t.ledger == s.ledger && t.invocations == s.invocations
      && var record := s.ledger.records[r.key];
         if !IsBoundTo(r, record.binding) then result == Failure(IdempotencyConflict)
         else if record.response.None? then result == Failure(IdempotencyUnavailable)
         else if IsVerified(w, r, record.response.value) then result == Success(record.response.value)
         else result.Failure? && IsRefusal(w, r, record.response.value, result.error)
  }

  lemma AfterChecking(w: World, r: Request, s: State)
    requires s.calls == map[]
    ensures var checked := Step(w, c => r, s, Action(0, Works, ""));
            && checked.ledger == s.ledger && checked.invocations == s.invocations
            && CallOf(checked, 0)
               == if IsSignable(w, r) then Acquiring else Done(Failure(Objection(w, r).value))
  {
    ObjectionIff(w, r);
  }

  lemma DoneStays(w: World, r: Request, s: State, fates: Fates)
    requires CallOf(s, 0).Done?
    ensures Step(w, c => r, s, Action(0, fates.acquire, "")) == s
    ensures Step(w, c => r, s, Action(0, fates.sign, fates.signature)) == s
    ensures Step(w, c => r, s, Action(0, fates.complete, "")) == s
  {
  }

  /** A request whose key is fresh: it is reserved, signed, verified and recorded. */
  lemma FreshKeyIsSigned(w: World, r: Request, s: State, signature: string)
    requires s.calls == map[] && IsSignable(w, r) && r.key !in s.ledger.records
    ensures var t := Alone(w, r, s, Fates(Works, Works, signature, Works));
            CallOf(t, 0).Done? && IsOutcome(w, r, s, signature, t, CallOf(t, 0).result)
  {
    var requests := (c: nat) => r;
    var lease := s.ledger.leases + 1;
    var checked := Step(w, requests, s, Action(0, Works, ""));
    var acquired := Step(w, requests, checked, Action(0, Works, ""));
    var asked := Step(w, requests, acquired, Action(0, Works, signature));
    AfterChecking(w, r, s);
    ObjectionIff(w, r);
    BindingIff(r, BindingOf(r));
    FlawIff(w, r, Response(signature, r.publicKey));
    assert CallOf(checked, 0) == Acquiring;
    assert CallOf(acquired, 0) == Signing(lease);
    assert acquired.ledger.records[r.key] == Record(BindingOf(r), lease, None);
    if IsVerified(w, r, Response(signature, r.publicKey)) {
      assert CallOf(asked, 0) == Completing(lease, Response(signature, r.publicKey));
    } else {
      assert CallOf(asked, 0).Done?;
    }
  }

  /** A request whose key is known is answered from the record, and nobody is asked. */
  lemma KnownKeyIsAnswered(w: World, r: Request, s: State, signature: string)
    requires s.calls == map[] && IsSignable(w, r) && r.key in s.ledger.records
    ensures var t := Alone(w, r, s, Fates(Works, Works, signature, Works));
            CallOf(t, 0).Done? && IsOutcome(w, r, s, signature, t, CallOf(t, 0).result)
  {
    var requests := (c: nat) => r;
    var checked := Step(w, requests, s, Action(0, Works, ""));
    var acquired := Step(w, requests, checked, Action(0, Works, ""));
    AfterChecking(w, r, s);
    ObjectionIff(w, r);
    BindingIff(r, s.ledger.records[r.key].binding);
    if s.ledger.records[r.key].response.Some? {
      FlawIff(w, r, s.ledger.records[r.key].response.value);
    }
    assert CallOf(acquired, 0).Done?;
  }

  /**
   One call that is not interrupted and whose effects work, for every ledger: it signs exactly a signable
   request with a fresh key, replays what is recorded for the same request, refuses the key to any
   other request, and asks nobody in all other cases.
   */
  lemma OneCall(w: World, r: Request, s: State, signature: string)
    requires s.calls == map[]
    ensures var t := Alone(w, r, s, Fates(Works, Works, signature, Works));
            CallOf(t, 0).Done? && IsOutcome(w, r, s, signature, t, CallOf(t, 0).result)
  {
    if !IsSignable(w, r) {
      AfterChecking(w, r, s);
      DoneStays(w, r, Step(w, c => r, s, Action(0, Works, "")), Fates(Works, Works, signature, Works));
    } else if r.key in s.ledger.records {
      KnownKeyIsAnswered(w, r, s, signature);
    } else {
      FreshKeyIsSigned(w, r, s, signature);
    }
  }
}
