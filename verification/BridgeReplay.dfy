/**
 The replay store of the bridge: each session keeps the nonces it has consumed until they expire, at
 most 128 of them, and an assertion is let in at most once.
 */
module BridgeReplay {
  import opened Wrappers
  import opened BridgeAssertion

  const MAXIMUM_ENTRIES := 128

  datatype ReplayError = Replayed | CapacityExceeded | Unavailable | Invalid

  /** Consumed nonces with their expiry, for every session that has any. */
  type Nonces = map<string, map<string, int>>

  function NoncesOf(store: Nonces, session: string): map<string, int> {
    if session in store then store[session] else map[]
  }

  function Pruned(nonces: map<string, int>, now: int): map<string, int> {
    map k | k in nonces && nonces[k] > now :: nonces[k]
  }

  /** Drops what has expired, refuses what is there, and records the rest while there is room. */
  function Consume(store: Nonces, session: string, nonce: string, expiresAt: int, now: int)
    : Result<Nonces, ReplayError>
  {
    var kept := Pruned(NoncesOf(store, session), now);
    if nonce in kept then Failure(Replayed)
    else if |kept| >= MAXIMUM_ENTRIES then Failure(CapacityExceeded)
    else Success(store[session := kept[nonce := expiresAt]])
  }

  /** One attempt to come in: the clock is read for the check and again for the consumption. */
  datatype Attempt = Attempt(assertion: string, checkedAt: int, consumedAt: int, storageWorks: bool)

  /** The check of an assertion at a time. */
  type Verifier = (int, string) -> Option<Principal>

  function VerifierOf(mac: Mac): Verifier {
    (now: int, assertion: string) => Verify(mac, now, assertion)
  }

  /** An assertion that is accepted at two times names the same principal both times. */
  ghost predicate IsStable(verify: Verifier) {
    forall s: string, t: int, u: int {:trigger verify(t, s), verify(u, s)} ::
      verify(t, s).Some? && verify(u, s).Some? ==> verify(t, s) == verify(u, s)
  }

  function Admit(verify: Verifier, store: Nonces, a: Attempt): Result<(Nonces, Principal), ReplayError> {
    var principal := verify(a.checkedAt, a.assertion);
    if principal.None? || principal.value.expiresAt <= a.consumedAt then Failure(Invalid)
    else if !a.storageWorks then Failure(Unavailable)
    else
      var p := principal.value;
      var consumed :- Consume(store, p.session, p.nonceKey, p.expiresAt, a.consumedAt);
      Success((consumed, p))
  }

  function Run(verify: Verifier, attempts: seq<Attempt>): Nonces {
    if attempts == [] then map[]
    else
      var n := |attempts| - 1;
      var admitted := Admit(verify, Run(verify, attempts[..n]), attempts[n]);
      if admitted.Success? then admitted.value.0 else Run(verify, attempts[..n])
  }

  predicate IsAdmitted(verify: Verifier, attempts: seq<Attempt>, k: nat)
    requires k < |attempts|
  {
    Admit(verify, Run(verify, attempts[..k]), attempts[k]).Success?
  }

  // ---- The store as it runs -----------------------------------------------------------------------------

  class ReplayStore {
    var nonces: Nonces

    constructor ()
      ensures nonces == map[]
    {
      nonces := map[];
    }

    method ConsumeNonce(session: string, nonce: string, expiresAt: int, now: int)
      returns (r: Result<(), ReplayError>)
      modifies this
      ensures var expected := Consume(old(nonces), session, nonce, expiresAt, now);
              if expected.Success? then r.Success? && nonces == expected.value
              else r == Failure(expected.error) && nonces == old(nonces)
    {
      var state := NoncesOf(nonces, session);
      ghost var whole := state;
      var pending := state.Keys;
      while pending != {}
        invariant pending <= whole.Keys && state.Keys <= whole.Keys
        invariant forall k :: k in whole ==>
                    (k in state <==> k in pending || whole[k] > now) && (k in state ==> state[k] == whole[k])
        decreases |pending|
      {
        var existing :| existing in pending;
        if state[existing] <= now {
          state := state - {existing};
        }
        pending := pending - {existing};
      }
      assert state == Pruned(whole, now);
      if nonce in state {
        return Failure(Replayed);
      }
      if |state| >= MAXIMUM_ENTRIES {
        return Failure(CapacityExceeded);
      }
      nonces := nonces[session := state[nonce := expiresAt]];
      return Success(());
    }
  }

  // ---- At most once -------------------------------------------------------------------------------------

  predicate Remembers(store: Nonces, p: Principal) {
    p.session in store && p.nonceKey in store[p.session] && store[p.session][p.nonceKey] == p.expiresAt
  }

  /** Attempt `k` comes in for the session of `p`. */
  predicate AdmitsFor(verify: Verifier, attempts: seq<Attempt>, k: nat, p: Principal)
    requires k < |attempts|
  {
    IsAdmitted(verify, attempts, k) && AdmittedAs(verify, attempts, k).session == p.session
  }

  function AdmittedAs(verify: Verifier, attempts: seq<Attempt>, k: nat): Principal
    requires k < |attempts| && IsAdmitted(verify, attempts, k)
  {
    Admit(verify, Run(verify, attempts[..k]), attempts[k]).value.1
  }

  /** The attempt comes in for the session of `p` at a time when `p` has expired. */
  predicate Forgets(verify: Verifier, attempts: seq<Attempt>, k: nat, p: Principal)
    requires k < |attempts|
  {
    AdmitsFor(verify, attempts, k, p) && attempts[k].consumedAt >= p.expiresAt
  }

  predicate Holds(store: Nonces, p: Principal) {
    p.nonceKey in NoncesOf(store, p.session)
  }

  /** From one store to the next the nonce of `p` stays as it is, unless the step makes the store forget it. */
  predicate Keeps(before: Nonces, after: Nonces, p: Principal, forgets: bool) {
    && (Remembers(before, p) && !forgets ==> Remembers(after, p))
    && (Remembers(before, p) && forgets ==> !Holds(after, p))
    && (Holds(after, p) ==> Holds(before, p))
  }

  /** Some attempt after `i` and before `n` makes the store forget `p`. */
  predicate IsForgotten(verify: Verifier, attempts: seq<Attempt>, i: nat, n: nat, p: Principal)
    requires n <= |attempts|
  {
    exists k :: i < k < n && Forgets(verify, attempts, k, p)
  }

  /** No attempt after `i` and before `n` comes in with the nonce of `p`. */
  predicate IsFresh(verify: Verifier, attempts: seq<Attempt>, i: nat, n: nat, p: Principal)
    requires n <= |attempts|
  {
    forall k :: i < k < n && AdmitsFor(verify, attempts, k, p) ==>
      AdmittedAs(verify, attempts, k).nonceKey != p.nonceKey
  }

  /** What one admitted attempt does to the nonce of `p` if it comes in with another one. */
  lemma AdmitHolds(verify: Verifier, store: Nonces, a: Attempt, p: Principal)
    requires Admit(verify, store, a).Success?
    ensures var admitted := Admit(verify, store, a).value;
            && Remembers(admitted.0, admitted.1)
            && (admitted.1.session != p.session ==> NoncesOf(admitted.0, p.session) == NoncesOf(store, p.session))
            && (admitted.1.session == p.session && admitted.1.nonceKey != p.nonceKey ==>
                  (Remembers(admitted.0, p) <==> Remembers(store, p) && a.consumedAt < p.expiresAt)
                  && (p.nonceKey in NoncesOf(admitted.0, p.session) ==> p.nonceKey in NoncesOf(store, p.session)))
  {
  }

  /** What is stored at one moment is stored at the next, until something makes the store forget it. */
  predicate Persists(stored: nat -> bool, held: nat -> bool, forgets: nat -> bool, m: nat) {
    && (stored(m) && !forgets(m) ==> stored(m + 1))
    && (stored(m) && forgets(m) ==> !held(m + 1))
    && (held(m + 1) ==> held(m))
  }

  lemma {:induction false} StoredUntilForgotten(stored: nat -> bool, held: nat -> bool, forgets: nat -> bool,
                                                i: nat, n: nat)
    requires i < n && stored(i + 1)
    requires forall m :: i < m < n ==> Persists(stored, held, forgets, m)
    ensures if exists k :: i < k < n && forgets(k) then !held(n) else stored(n)
  {
    if n > i + 1 {
      StoredUntilForgotten(stored, held, forgets, i, n - 1);
      assert Persists(stored, held, forgets, n - 1);
    }
  }

  /**
   While its nonce is not used again, a consumed nonce is held just as long as no attempt of its session
   comes in at a time when it has expired.
   */
  lemma HeldIff(verify: Verifier, attempts: seq<Attempt>, i: nat, n: nat, p: Principal)
    requires i < n <= |attempts| && IsAdmitted(verify, attempts, i) && AdmittedAs(verify, attempts, i) == p
    requires IsFresh(verify, attempts, i, n, p)
    ensures Holds(Run(verify, attempts[..n]), p) <==> !IsForgotten(verify, attempts, i, n, p)
    ensures !IsForgotten(verify, attempts, i, n, p) ==> Remembers(Run(verify, attempts[..n]), p)
  {
    var stored := (m: nat) => m <= |attempts| && Remembers(Run(verify, attempts[..m]), p);
    var held := (m: nat) => m <= |attempts| && Holds(Run(verify, attempts[..m]), p);
    var forgets := (k: nat) => k < |attempts| && Forgets(verify, attempts, k, p);
    AdmitterHolds(verify, attempts, i);
    forall m | i < m < n ensures Persists(stored, held, forgets, m) {
      FreshHeldStep(verify, attempts, i, n, m, p);
    }
    StoredUntilForgotten(stored, held, forgets, i, n);
    if IsForgotten(verify, attempts, i, n, p) {
      var k :| i < k < n && Forgets(verify, attempts, k, p);
      assert forgets(k);
    }
  }

  lemma AdmitterHolds(verify: Verifier, attempts: seq<Attempt>, i: nat)
    requires i < |attempts| && IsAdmitted(verify, attempts, i)
    ensures Remembers(Run(verify, attempts[..i + 1]), AdmittedAs(verify, attempts, i))
  {
    assert attempts[..i + 1][..i] == attempts[..i];
    AdmitHolds(verify, Run(verify, attempts[..i]), attempts[i], AdmittedAs(verify, attempts, i));
  }

  lemma FreshHeldStep(verify: Verifier, attempts: seq<Attempt>, i: nat, n: nat, m: nat, p: Principal)
    requires i < m < n <= |attempts| && IsFresh(verify, attempts, i, n, p)
    ensures Keeps(Run(verify, attempts[..m]), Run(verify, attempts[..m + 1]), p, Forgets(verify, attempts, m, p))
  {
    HeldStep(verify, attempts, m, p);
  }

  lemma HeldStep(verify: Verifier, attempts: seq<Attempt>, m: nat, p: Principal)
    requires m < |attempts|
    requires AdmitsFor(verify, attempts, m, p) ==> AdmittedAs(verify, attempts, m).nonceKey != p.nonceKey
    ensures Keeps(Run(verify, attempts[..m]), Run(verify, attempts[..m + 1]), p, Forgets(verify, attempts, m, p))
  {
    assert attempts[..m + 1][..m] == attempts[..m] && attempts[..m + 1][m] == attempts[m];
    var before := Run(verify, attempts[..m]);
    if Admit(verify, before, attempts[m]).Success? {
      AdmitHolds(verify, before, attempts[m], p);
    }
  }

  /** The clock steps back over the expiry of `p`: it is forgotten before `j`, but at `j` it is still valid. */
  predicate StepsBack(verify: Verifier, attempts: seq<Attempt>, i: nat, j: nat, p: Principal)
    requires j < |attempts|
  {
    IsForgotten(verify, attempts, i, j, p) && attempts[j].consumedAt < p.expiresAt
  }

  /** The store and its session have room for the attempt. */
  predicate HasRoom(verify: Verifier, attempts: seq<Attempt>, j: nat, session: string)
    requires j < |attempts|
  {
    && attempts[j].storageWorks
    && |Pruned(NoncesOf(Run(verify, attempts[..j]), session), attempts[j].consumedAt)| < MAXIMUM_ENTRIES
  }

  /**
   The exact condition for coming in again: as long as the nonce was not used in between, an assertion
   that passes its check with room and storage is admitted a second time if and only if the clock
   has stepped back over its expiry, with an attempt of the same session let in beyond it.
   */
  lemma ReadmittedIff(verify: Verifier, attempts: seq<Attempt>, i: nat, j: nat, p: Principal)
    requires i < j < |attempts| && IsAdmitted(verify, attempts, i) && AdmittedAs(verify, attempts, i) == p
    requires IsFresh(verify, attempts, i, j, p)
    requires verify(attempts[j].checkedAt, attempts[j].assertion) == Some(p)
    requires HasRoom(verify, attempts, j, p.session)
    ensures IsAdmitted(verify, attempts, j) <==> StepsBack(verify, attempts, i, j, p)
  {
    HeldIff(verify, attempts, i, j, p);
  }

  /** The first attempt that comes in with the nonce after `i`, if there is one before `n`. */
  lemma {:induction false} FirstReuse(verify: Verifier, attempts: seq<Attempt>, i: nat, n: nat, p: Principal)
    returns (k: nat)
    requires i < n <= |attempts| && !IsFresh(verify, attempts, i, n, p)
    ensures i < k < n && AdmitsFor(verify, attempts, k, p) && AdmittedAs(verify, attempts, k).nonceKey == p.nonceKey
    ensures IsFresh(verify, attempts, i, k, p)
  {
    if n - 1 > i && !IsFresh(verify, attempts, i, n - 1, p) {
      k := FirstReuse(verify, attempts, i, n - 1, p);
    } else {
      k := n - 1;
    }
  }

  /** Whatever has come in with the nonce before its expiry, the store had forgotten it. */
  lemma ReuseIsForgotten(verify: Verifier, attempts: seq<Attempt>, i: nat, k: nat, p: Principal)
    requires i < k < |attempts| && IsAdmitted(verify, attempts, i) && AdmittedAs(verify, attempts, i) == p
    requires IsFresh(verify, attempts, i, k, p)
    requires AdmitsFor(verify, attempts, k, p) && AdmittedAs(verify, attempts, k).nonceKey == p.nonceKey
    ensures IsForgotten(verify, attempts, i, k, p) || attempts[k].consumedAt >= p.expiresAt
  {
    HeldIff(verify, attempts, i, k, p);
  }

  lemma AdmittedInTime(verify: Verifier, attempts: seq<Attempt>, k: nat)
    requires k < |attempts| && IsAdmitted(verify, attempts, k)
    ensures verify(attempts[k].checkedAt, attempts[k].assertion) == Some(AdmittedAs(verify, attempts, k))
    ensures attempts[k].consumedAt < AdmittedAs(verify, attempts, k).expiresAt
  {
  }

  /** Whenever something comes in with a nonce a second time, the store has forgotten the first time. */
  lemma ReuseForgets(verify: Verifier, attempts: seq<Attempt>, i: nat, j: nat, p: Principal)
    requires i < j < |attempts| && IsAdmitted(verify, attempts, i) && AdmittedAs(verify, attempts, i) == p
    requires AdmitsFor(verify, attempts, j, p) && AdmittedAs(verify, attempts, j).nonceKey == p.nonceKey
    ensures IsForgotten(verify, attempts, i, j, p) || attempts[j].consumedAt >= p.expiresAt
  {
    if IsFresh(verify, attempts, i, j, p) {
      ReuseIsForgotten(verify, attempts, i, j, p);
    } else {
      var k := FirstReuse(verify, attempts, i, j, p);
      ReuseIsForgotten(verify, attempts, i, k, p);
      assert Forgets(verify, attempts, k, p) || attempts[k].consumedAt < p.expiresAt;
    }
  }

  /**
   At most once: unless the clock of the consumptions steps back over its expiry, no assertion is
   admitted twice, although expired nonces are forgotten. Other steps back do no harm.
   */
  lemma AdmittedAtMostOnce(verify: Verifier, attempts: seq<Attempt>, i: nat, j: nat)
    requires IsStable(verify) && i < j < |attempts|
    requires attempts[i].assertion == attempts[j].assertion && IsAdmitted(verify, attempts, i)
    requires !StepsBack(verify, attempts, i, j, AdmittedAs(verify, attempts, i))
    ensures !IsAdmitted(verify, attempts, j)
  {
    if IsAdmitted(verify, attempts, j) {
      AdmittedInTime(verify, attempts, i);
      AdmittedInTime(verify, attempts, j);
      ReuseForgets(verify, attempts, i, j, AdmittedAs(verify, attempts, i));
    }
  }

  predicate InOrder(attempts: seq<Attempt>) {
    forall i, j :: 0 <= i < j < |attempts| ==> attempts[i].consumedAt <= attempts[j].consumedAt
  }

  lemma BridgeIsStable(mac: Mac)
    ensures IsStable(VerifierOf(mac))
  {
    var verify := VerifierOf(mac);
    forall s: string, t: int, u: int {:trigger verify(t, s), verify(u, s)}
      | verify(t, s).Some? && verify(u, s).Some?
      ensures verify(t, s) == verify(u, s)
    {
      SamePrincipal(mac, s, t, u);
    }
  }

  /** The bridge's own check is stable, so while the clock runs on no assertion of the bridge comes in twice. */
  lemma BridgeAdmitsAtMostOnce(mac: Mac, attempts: seq<Attempt>, i: nat, j: nat)
    requires i < j < |attempts| && attempts[i].assertion == attempts[j].assertion
    requires IsAdmitted(VerifierOf(mac), attempts, i)
    requires InOrder(attempts)
             || !StepsBack(VerifierOf(mac), attempts, i, j, AdmittedAs(VerifierOf(mac), attempts, i))
    ensures !IsAdmitted(VerifierOf(mac), attempts, j)
  {
    BridgeIsStable(mac);
    AdmittedAtMostOnce(VerifierOf(mac), attempts, i, j);
  }

  /** The same with a check that passes and with room: the bridge lets it in again exactly then. */
  lemma BridgeReadmitsIff(mac: Mac, attempts: seq<Attempt>, i: nat, j: nat)
    requires i < j < |attempts| && attempts[i].assertion == attempts[j].assertion
    requires IsAdmitted(VerifierOf(mac), attempts, i)
    requires var p := AdmittedAs(VerifierOf(mac), attempts, i);
             IsFresh(VerifierOf(mac), attempts, i, j, p) && HasRoom(VerifierOf(mac), attempts, j, p.session)
    requires Verify(mac, attempts[j].checkedAt, attempts[j].assertion).Some?
    ensures IsAdmitted(VerifierOf(mac), attempts, j)
       <==> StepsBack(VerifierOf(mac), attempts, i, j, AdmittedAs(VerifierOf(mac), attempts, i))
  {
    var verify, p := VerifierOf(mac), AdmittedAs(VerifierOf(mac), attempts, i);
    BridgeIsStable(mac);
    assert verify(attempts[i].checkedAt, attempts[i].assertion) == Some(p);
    assert verify(attempts[j].checkedAt, attempts[j].assertion) == Some(p);
    ReadmittedIff(verify, attempts, i, j, p);
  }

  /** The same assertion always names the same nonce, session and expiry. */
  lemma SamePrincipal(mac: Mac, assertion: string, first: int, second: int)
    requires Verify(mac, first, assertion).Some? && Verify(mac, second, assertion).Some?
    ensures Verify(mac, first, assertion) == Verify(mac, second, assertion)
  {
  }

  lemma ConsumeFits(store: Nonces, session: string, nonce: string, expiresAt: int, now: int, other: string)
    requires |NoncesOf(store, other)| <= MAXIMUM_ENTRIES && Consume(store, session, nonce, expiresAt, now).Success?
    ensures |NoncesOf(Consume(store, session, nonce, expiresAt, now).value, other)| <= MAXIMUM_ENTRIES
  {
    var kept := Pruned(NoncesOf(store, session), now);
    assert kept[nonce := expiresAt].Keys == kept.Keys + {nonce};
    assert |kept[nonce := expiresAt]| == |kept[nonce := expiresAt].Keys|;
  }

  /** A session never holds more nonces than it may. */
  lemma {:induction false} RunStaysWithinCapacity(verify: Verifier, attempts: seq<Attempt>, session: string)
    ensures |NoncesOf(Run(verify, attempts), session)| <= MAXIMUM_ENTRIES
  {
    if attempts != [] {
      var n := |attempts| - 1;
      RunStaysWithinCapacity(verify, attempts[..n], session);
      var before := Run(verify, attempts[..n]);
      var admitted := Admit(verify, before, attempts[n]);
      if admitted.Success? {
        var p := admitted.value.1;
        ConsumeFits(before, p.session, p.nonceKey, p.expiresAt, attempts[n].consumedAt, session);
      }
    }
  }

  /**
   Why the clock may not run backwards: another assertion of the session consumed after the expiry
   makes the store forget, and at an earlier time the first assertion comes in again.
   */
  lemma BackwardClockAdmitsTwice(verify: Verifier, first: string, other: string, t: int, p: Principal, q: Principal)
    requires verify(t, first) == Some(p) && verify(t, other) == Some(q)
    requires t < p.expiresAt < q.expiresAt && p.session == q.session && p.nonceKey != q.nonceKey
    ensures var attempts := [Attempt(first, t, t, true), Attempt(other, t, p.expiresAt, true),
                             Attempt(first, t, t, true)];
            IsAdmitted(verify, attempts, 0) && IsAdmitted(verify, attempts, 2)
  {
    var a, b := Attempt(first, t, t, true), Attempt(other, t, p.expiresAt, true);
    var attempts := [a, b, a];
    assert attempts[..0] == [] && attempts[..1] == [a] && attempts[..2] == [a, b] && [a, b][..1] == [a];
    ConsumeInto(map[], p.session, map[], p.nonceKey, p.expiresAt, t);
    var one: Nonces := map[p.session := map[p.nonceKey := p.expiresAt]];
    assert Run(verify, [a]) == one;
    ConsumeInto(one, q.session, map[], q.nonceKey, q.expiresAt, p.expiresAt);
    var two := one[q.session := map[q.nonceKey := q.expiresAt]];
    assert Run(verify, [a, b]) == two;
    ConsumeInto(two, p.session, map[q.nonceKey := q.expiresAt], p.nonceKey, p.expiresAt, t);
  }

  lemma ConsumeInto(store: Nonces, session: string, kept: map<string, int>, nonce: string, expiresAt: int, now: int)
    requires kept == Pruned(NoncesOf(store, session), now) && nonce !in kept && |kept| <= 1
    ensures Consume(store, session, nonce, expiresAt, now) == Success(store[session := kept[nonce := expiresAt]])
  {
  }
}
