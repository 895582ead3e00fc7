/**
 Freezing batches out of the queue of publication requests. A frozen batch takes its requests out of
 the queue; a request that cannot be planned is put off for an hour.
 */
module PublicationQueue {
  import opened Wrappers
  import opened BatchPlanner
  import opened BatchTheorems
  import Sorting

  const HOUR_MS := 3600000

  datatype State = Queued | RetryableFailed | Batched

  datatype Request = Request(id: string, candidate: Candidate, state: State, retryAt: Option<int>, attempts: nat,
                             failure: Option<PlanError>)

  datatype Queue = Queue(requests: seq<Request>, outbox: seq<Batch>)

  datatype FreezeError = Unplannable(cause: PlanError) | RequestsChanged

  predicate IsPending(r: Request, now: int) {
    r.state != Batched && (r.retryAt.None? || r.retryAt.value <= now)
  }

  /** The candidates of the requests that are due, in table order. */
  function Eligible(requests: seq<Request>, now: int): seq<Candidate> {
    if requests == [] then []
    else
      var n := |requests| - 1;
      Eligible(requests[..n], now) + if IsPending(requests[n], now) then [requests[n].candidate] else []
  }

  /** What the query returns: the oldest due candidates, one more than a batch can hold. */
  function Rows(requests: seq<Request>, now: int, p: Policy): seq<Candidate> {
    var s := SortCandidates(Eligible(requests, now));
    if 0 <= p.maximumResults + 1 < |s| then s[..p.maximumResults + 1] else s
  }

  function DeferOne(r: Request, id: string, now: int, cause: PlanError): Request {
    if r.id == id then
      r.(state := RetryableFailed, retryAt := Some(now + HOUR_MS), attempts := r.attempts + 1, failure := Some(cause))
    else r
  }

  function Defer(requests: seq<Request>, id: string, now: int, cause: PlanError): (r: seq<Request>)
    ensures |r| == |requests|
  {
    seq(|requests|, i requires 0 <= i < |requests| => DeferOne(requests[i], id, now, cause))
  }

  function MarkOne(r: Request, ids: set<string>): Request {
    if r.id in ids && r.state != Batched then r.(state := Batched, retryAt := None, failure := None) else r
  }

  function Mark(requests: seq<Request>, ids: set<string>): (r: seq<Request>)
    ensures |r| == |requests|
  {
    seq(|requests|, i requires 0 <= i < |requests| => MarkOne(requests[i], ids))
  }

  /** How many requests the update of a frozen batch changes. */
  function CountMarked(requests: seq<Request>, ids: set<string>): nat {
    if requests == [] then 0
    else
      var n := |requests| - 1;
      CountMarked(requests[..n], ids) + if requests[n].id in ids && requests[n].state != Batched then 1 else 0
  }

  function RequestIds(candidates: seq<Candidate>): set<string> {
    set i | 0 <= i < |candidates| :: candidates[i].request
  }

  /** The first row that cannot be turned into a candidate. */
  function FirstUnreadable(rows: seq<Candidate>, readable: Candidate -> bool): Option<string> {
    if rows == [] then None
    else if !readable(rows[0]) then Some(rows[0].request)
    else FirstUnreadable(rows[1..], readable)
  }

  function Freeze(w: World, readable: Candidate -> bool, q: Queue, now: int, p: Policy, ids: Ids)
    : (Queue, Result<Option<Batch>, FreezeError>)
  {
    var rows := Rows(q.requests, now, p);
    var broken := FirstUnreadable(rows, readable);
    if broken.Some? then
      (q.(requests := Defer(q.requests, broken.value, now, InvalidCandidate)), Failure(Unplannable(InvalidCandidate)))
    else
      var plan := Plan(w, rows, now, p, ids);
      if plan.Failure? then
        var cause := if plan.error == PayloadTooLarge then PayloadTooLarge else InvalidCandidate;
        (if rows == [] then q else q.(requests := Defer(q.requests, rows[0].request, now, cause)),
         Failure(Unplannable(plan.error)))
      else if plan.value.None? then (q, Success(None))
      else
        var batch := plan.value.value;
        var taken := RequestIds(batch.candidates);
        if CountMarked(q.requests, taken) != |batch.candidates| then (q, Failure(RequestsChanged))
        else (Queue(Mark(q.requests, taken), q.outbox + [batch]), Success(Some(batch)))
  }

  // ---- The table as it runs -----------------------------------------------------------------------------

  class Store {
    var requests: seq<Request>
    var outbox: seq<Batch>

    constructor (requests: seq<Request>)
      ensures Contents() == Queue(requests, [])
    {
      this.requests, outbox := requests, [];
    }

    function Contents(): Queue
      reads this
    {
      Queue(requests, outbox)
    }

    method SelectRows(now: int, p: Policy) returns (rows: seq<Candidate>)
      ensures rows == Rows(requests, now, p)
    {
      var due: seq<Candidate> := [];
      var i := 0;
      assert requests[..0] == [];
      while i < |requests|
        invariant i <= |requests| && due == Eligible(requests[..i], now)
      {
        assert requests[..i + 1][..i] == requests[..i];
        if IsPending(requests[i], now) {
          due := due + [requests[i].candidate];
        } else {
          assert due + [] == due;
        }
        i := i + 1;
      }
      assert requests[..i] == requests;
      var s := SortCandidates(due);
      rows := if 0 <= p.maximumResults + 1 < |s| then s[..p.maximumResults + 1] else s;
    }

    method DeferInvalidRequest(id: string, now: int, cause: PlanError)
      modifies `requests
      ensures requests == Defer(old(requests), id, now, cause)
    {
      var i := 0;
      while i < |requests|
        invariant i <= |requests| == |old(requests)|
        invariant forall k :: 0 <= k < i ==> requests[k] == DeferOne(old(requests)[k], id, now, cause)
        invariant forall k :: i <= k < |requests| ==> requests[k] == old(requests)[k]
      {
        if requests[i].id == id {
          requests := requests[i := requests[i].(state := RetryableFailed, retryAt := Some(now + HOUR_MS),
                                                 attempts := requests[i].attempts + 1, failure := Some(cause))];
        }
        i := i + 1;
      }
    }

    method MarkBatched(ids: set<string>) returns (count: nat)
      modifies `requests
      ensures requests == Mark(old(requests), ids) && count == CountMarked(old(requests), ids)
    {
      count := 0;
      var i := 0;
      assert old(requests)[..0] == [];
      while i < |requests|
        invariant i <= |requests| == |old(requests)|
        invariant forall k :: 0 <= k < i ==> requests[k] == MarkOne(old(requests)[k], ids)
        invariant forall k :: i <= k < |requests| ==> requests[k] == old(requests)[k]
        invariant count == CountMarked(old(requests)[..i], ids)
      {
        assert old(requests)[..i + 1][..i] == old(requests)[..i];
        if requests[i].id in ids && requests[i].state != Batched {
          requests := requests[i := requests[i].(state := Batched, retryAt := None, failure := None)];
          count := count + 1;
        }
        i := i + 1;
      }
      assert old(requests)[..i] == old(requests);
    }

    method FreezeNextBatch(w: World, readable: Candidate -> bool, now: int, p: Policy, ids: Ids)
      returns (r: Result<Option<Batch>, FreezeError>)
      modifies this
      ensures Contents() == Freeze(w, readable, old(Contents()), now, p, ids).0
      ensures r == Freeze(w, readable, old(Contents()), now, p, ids).1
    {
      var rows := SelectRows(now, p);
      var broken := FirstUnreadable(rows, readable);
      if broken.Some? {
        DeferInvalidRequest(broken.value, now, InvalidCandidate);
        return Failure(Unplannable(InvalidCandidate));
      }
      var plan := PlanMatchBatch(w, rows, now, p, ids);
      if plan.Failure? {
        if rows != [] {
          DeferInvalidRequest(rows[0].request, now,
                              if plan.error == PayloadTooLarge then PayloadTooLarge else InvalidCandidate);
        }
        return Failure(Unplannable(plan.error));
      }
      if plan.value.None? {
        return Success(None);
      }
      var before := requests;
      var count := MarkBatched(RequestIds(plan.value.value.candidates));
      if count != |plan.value.value.candidates| {
        requests := before;
        return Failure(RequestsChanged);
      }
      outbox := outbox + [plan.value.value];
      return Success(plan.value);
    }
  }

  // ---- What is due --------------------------------------------------------------------------------------

  /** Every request has its own id and round. */
  predicate IsTidy(requests: seq<Request>) {
    && (forall i :: 0 <= i < |requests| ==> requests[i].candidate.request == requests[i].id)
    && (forall i, j :: 0 <= i < j < |requests| ==>
          requests[i].id != requests[j].id && requests[i].candidate.round != requests[j].candidate.round)
  }

  /** What is due at the time, in the order in which it will be published. */
  function Due(requests: seq<Request>, now: int): seq<Candidate> {
    SortCandidates(Eligible(requests, now))
  }

  predicate IsDueAt(requests: seq<Request>, now: int, i: nat, c: Candidate) {
    i < |requests| && IsPending(requests[i], now) && requests[i].candidate == c
  }

  predicate IsDue(requests: seq<Request>, now: int, c: Candidate) {
    exists i :: 0 <= i < |requests| && IsDueAt(requests, now, i, c)
  }

  lemma DueGrows(requests: seq<Request>, now: int, c: Candidate)
    requires requests != []
    ensures IsDue(requests, now, c)
       <==> IsDue(requests[..|requests| - 1], now, c) || IsDueAt(requests, now, |requests| - 1, c)
  {
    var n := |requests| - 1;
    if IsDue(requests, now, c) {
      var i :| 0 <= i < |requests| && IsDueAt(requests, now, i, c);
      assert i < n ==> IsDueAt(requests[..n], now, i, c);
    }
    if IsDue(requests[..n], now, c) {
      var i :| 0 <= i < n && IsDueAt(requests[..n], now, i, c);
      assert IsDueAt(requests, now, i, c);
    }
  }

  lemma {:induction false} EligibleMembers(requests: seq<Request>, now: int)
    requires IsTidy(requests)
    ensures forall c :: c in Eligible(requests, now) <==> IsDue(requests, now, c)
    ensures AreDistinct(Eligible(requests, now))
  {
    if requests != [] {
      var n := |requests| - 1;
      EligibleMembers(requests[..n], now);
      var earlier, all := Eligible(requests[..n], now), Eligible(requests, now);
      forall c ensures c in all <==> IsDue(requests, now, c) {
        DueGrows(requests, now, c);
      }
      forall k | 0 <= k < |earlier|
        ensures earlier[k].round != requests[n].candidate.round && earlier[k].request != requests[n].candidate.request
      {
        assert earlier[k] in earlier;
        var i :| 0 <= i < n && IsDueAt(requests[..n], now, i, earlier[k]);
        assert requests[i].candidate == earlier[k];
      }
    }
  }

  /** Distinct candidates have one order. */
  lemma {:induction false} OrderIsUnique(a: seq<Candidate>, b: seq<Candidate>)
    requires InOrder(a) && InOrder(b) && AreDistinct(a) && AreDistinct(b)
    requires forall c :: c in a <==> c in b
    ensures a == b
  {
    assert |a| > 0 ==> a[0] in b;
    assert |b| > 0 ==> b[0] in a;
    if a != [] {
      var x, y := a[|a| - 1], b[|b| - 1];
      assert x in a && y in b;
      LastIsLast(a, y);
      LastIsLast(b, x);
      SameRoundSame(a, x, y);
      WithoutLast(a);
      WithoutLast(b);
      var shorter, other := a[..|a| - 1], b[..|b| - 1];
      forall c | c in shorter ensures c in other {
        assert c in a && c != x;
        assert c in b && c != y;
      }
      forall c | c in other ensures c in shorter {
        assert c in b && c != y;
        assert c in a && c != x;
      }
      OrderIsUnique(a[..|a| - 1], b[..|b| - 1]);
      assert a == a[..|a| - 1] + [x] && b == b[..|b| - 1] + [y];
    }
  }

  lemma LastIsLast(s: seq<Candidate>, c: Candidate)
    requires InOrder(s) && c in s
    ensures ComesBefore(c, s[|s| - 1])
  {
    var i :| 0 <= i < |s| && s[i] == c;
    assert i < |s| - 1 ==> ComesBefore(s[i], s[|s| - 1]);
  }

  lemma SameRoundSame(a: seq<Candidate>, x: Candidate, y: Candidate)
    requires AreDistinct(a) && x in a && y in a && ComesBefore(x, y) && ComesBefore(y, x)
    ensures x == y
  {
    var i :| 0 <= i < |a| && a[i] == x;
    var j :| 0 <= j < |a| && a[j] == y;
    assert a[i].round == a[j].round;
  }

  lemma WithoutLast(s: seq<Candidate>)
    requires AreDistinct(s) && s != []
    ensures forall c :: c in s[..|s| - 1] <==> c in s && c != s[|s| - 1]
  {
    var n := |s| - 1;
    forall c | c in s && c != s[n] ensures c in s[..n] {
      var i :| 0 <= i < |s| && s[i] == c;
      assert s[..n][i] == c;
    }
    forall c | c in s[..n] ensures c != s[n] {
      var i :| 0 <= i < n && s[..n][i] == c;
      assert s[i].round != s[n].round;
    }
  }

  predicate Unlike(a: Candidate, b: Candidate) {
    a.round != b.round && a.request != b.request
  }

  lemma DistinctPermuted(s: seq<Candidate>, t: seq<Candidate>)
    requires AreDistinct(s) && multiset(t) == multiset(s)
    ensures AreDistinct(t)
  {
    assert Sorting.PairsOf(Unlike, s);
    Sorting.PairsPermute(Unlike, s, t);
    forall i, j | 0 <= i < j < |t| ensures t[i].round != t[j].round && t[i].request != t[j].request {
      assert Unlike(t[i], t[j]);
    }
  }

  lemma DueInOrder(requests: seq<Request>, now: int)
    requires IsTidy(requests)
    ensures InOrder(Due(requests, now)) && AreDistinct(Due(requests, now))
    ensures forall c :: c in Due(requests, now) <==> IsDue(requests, now, c)
  {
    EligibleMembers(requests, now);
    SortSorts(Eligible(requests, now));
    DistinctPermuted(Eligible(requests, now), Due(requests, now));
  }

  /** Whatever is in order and distinct and has the members of what is due, is what is due. */
  lemma DueIs(requests: seq<Request>, now: int, s: seq<Candidate>)
    requires IsTidy(requests) && InOrder(s) && AreDistinct(s)
    requires forall c :: c in s <==> IsDue(requests, now, c)
    ensures Due(requests, now) == s
  {
    DueInOrder(requests, now);
    OrderIsUnique(Due(requests, now), s);
  }

  // ---- What fits ----------------------------------------------------------------------------------------

  /** The row can be read and passes the checks on single candidates. */
  predicate IsWellFormed(w: World, readable: Candidate -> bool, c: Candidate) {
    && readable(c) && w.isResult(c.result)
    && c.completedAt.Some? && c.result.completedAt == c.completedAt.value && c.result.round == c.round
  }

  /** Every valid event of the publisher with this result alone is within the limit. */
  ghost predicate FitsAlone(w: World, readable: Candidate -> bool, c: Candidate, p: Policy) {
    && IsWellFormed(w, readable, c)
    && forall e: Event {:trigger SchemaHolds(w, e)} ::
         SchemaHolds(w, e) && e.results == [c.result] && e.publisher == p.publisher ==>
           w.bytes(w.text(e)) <= p.maximumBytes
  }

  /** The row cannot be read, or every valid event of the publisher with this result is over the limit. */
  ghost predicate NeverFits(w: World, readable: Candidate -> bool, c: Candidate, p: Policy) {
    || !readable(c)
    || (IsWellFormed(w, readable, c)
        && forall e: Event {:trigger SchemaHolds(w, e)} ::
             SchemaHolds(w, e) && c.result in e.results && e.publisher == p.publisher ==>
               w.bytes(w.text(e)) > p.maximumBytes)
  }

  ghost predicate IsDecided(w: World, readable: Candidate -> bool, c: Candidate, p: Policy) {
    FitsAlone(w, readable, c, p) || NeverFits(w, readable, c, p)
  }

  /** A queue of requests each of which either fits by itself or never does. */
  ghost predicate IsWorkable(w: World, readable: Candidate -> bool, requests: seq<Request>, p: Policy) {
    && IsTidy(requests) && PolicyIsValid(p) && w.isAccount(p.publisher) && (forall e: Event :: w.text(e) != "")
    && forall i :: 0 <= i < |requests| && requests[i].state != Batched ==>
         IsDecided(w, readable, requests[i].candidate, p)
  }

  predicate IdsAreValid(w: World, ids: Ids) {
    w.isUuid(ids.event) && w.isUuid(ids.batch) && w.isUuid(ids.outbox)
  }

  predicate IsReady(c: Candidate, now: int, p: Policy) {
    now - TimeOf(c) >= p.maximumAge
  }

  /** The ids of the turn are valid and all that is due has reached the age limit. */
  predicate TurnIsFair(w: World, requests: seq<Request>, p: Policy, turn: Turn) {
    && IdsAreValid(w, turn.ids)
    && forall i :: 0 <= i < |requests| && IsPending(requests[i], turn.now) ==>
         IsReady(requests[i].candidate, turn.now, p)
  }

  datatype Turn = Turn(now: int, ids: Ids)

  /** The candidates that fit, in their order. */
  ghost function Fitting(w: World, readable: Candidate -> bool, s: seq<Candidate>, p: Policy): seq<Candidate> {
    if s == [] then []
    else
      var n := |s| - 1;
      Fitting(w, readable, s[..n], p) + if FitsAlone(w, readable, s[n], p) then [s[n]] else []
  }

  lemma {:induction false} FittingConcat(w: World, readable: Candidate -> bool, a: seq<Candidate>, b: seq<Candidate>,
                                         p: Policy)
    ensures Fitting(w, readable, a + b, p) == Fitting(w, readable, a, p) + Fitting(w, readable, b, p)
  {
    if b == [] {
      assert a + b == a;
    } else {
      assert (a + b)[..|a + b| - 1] == a + b[..|b| - 1];
      FittingConcat(w, readable, a, b[..|b| - 1], p);
    }
  }

  lemma {:induction false} FittingAll(w: World, readable: Candidate -> bool, s: seq<Candidate>, p: Policy)
    requires forall i :: 0 <= i < |s| ==> FitsAlone(w, readable, s[i], p)
    ensures Fitting(w, readable, s, p) == s
  {
    if s != [] {
      var n := |s| - 1;
      FittingAll(w, readable, s[..n], p);
      assert s == s[..n] + [s[n]];
    }
  }

  /** Leaving out what does not fit leaves the rest as it is. */
  lemma FittingWithout(w: World, readable: Candidate -> bool, s: seq<Candidate>, m: nat, p: Policy)
    requires m < |s| && !FitsAlone(w, readable, s[m], p)
    ensures Fitting(w, readable, s[..m] + s[m + 1..], p) == Fitting(w, readable, s, p)
  {
    assert s == s[..m] + [s[m]] + s[m + 1..];
    assert [s[m]][..0] == [];
    FittingConcat(w, readable, s[..m] + [s[m]], s[m + 1..], p);
    FittingConcat(w, readable, s[..m], [s[m]], p);
    FittingConcat(w, readable, s[..m], s[m + 1..], p);
    assert Fitting(w, readable, [s[m]], p) == [];
  }

  // ---- What one freeze plans ----------------------------------------------------------------------------

  function Prefix(s: seq<Candidate>, n: int): seq<Candidate> {
    if 0 <= n < |s| then s[..n] else s
  }

  /** The rows of a freeze: the oldest of what is due, each decided and old enough. */
  ghost predicate AreOldest(w: World, readable: Candidate -> bool, rows: seq<Candidate>, due: seq<Candidate>,
                            p: Policy, turn: Turn)
  {
    && PolicyIsValid(p) && w.isAccount(p.publisher) && IdsAreValid(w, turn.ids)
    && rows == Prefix(due, p.maximumResults + 1) && InOrder(rows) && AreDistinct(rows)
    && forall i :: 0 <= i < |rows| ==> IsDecided(w, readable, rows[i], p) && IsReady(rows[i], turn.now, p)
  }

  lemma RowsAreOldest(w: World, readable: Candidate -> bool, q: Queue, p: Policy, turn: Turn)
    requires IsWorkable(w, readable, q.requests, p) && TurnIsFair(w, q.requests, p, turn)
    ensures AreOldest(w, readable, Rows(q.requests, turn.now, p), Due(q.requests, turn.now), p, turn)
  {
    var rows, due := Rows(q.requests, turn.now, p), Due(q.requests, turn.now);
    DueInOrder(q.requests, turn.now);
    forall i | 0 <= i < |rows|
      ensures IsDecided(w, readable, rows[i], p) && IsReady(rows[i], turn.now, p)
    {
      assert rows[i] == due[i] && due[i] in due;
      var k :| 0 <= k < |q.requests| && IsDueAt(q.requests, turn.now, k, rows[i]);
    }
  }

  lemma {:induction false} UnreadableIsFirst(rows: seq<Candidate>, readable: Candidate -> bool) returns (m: nat)
    ensures FirstUnreadable(rows, readable).None? ==> forall i :: 0 <= i < |rows| ==> readable(rows[i])
    ensures FirstUnreadable(rows, readable).Some? ==>
              m < |rows| && !readable(rows[m]) && FirstUnreadable(rows, readable).value == rows[m].request
  {
    m := 0;
    if rows != [] && readable(rows[0]) {
      m := UnreadableIsFirst(rows[1..], readable);
      m := m + 1;
      assert forall i :: 0 < i < |rows| ==> rows[i] == rows[1..][i - 1];
    }
  }

  /** Readable rows that are decided pass all checks of the planner. */
  lemma OldestAreSound(w: World, readable: Candidate -> bool, rows: seq<Candidate>, due: seq<Candidate>, p: Policy,
                       turn: Turn)
    requires AreOldest(w, readable, rows, due, p, turn) && forall i :: 0 <= i < |rows| ==> readable(rows[i])
    ensures AreSound(rows, turn.now) && InputsAreValid(w, rows, p, turn.ids)
  {
    forall i | 0 <= i < |rows| ensures IsConsistent(rows[i], turn.now) && w.isResult(rows[i].result) {
      assert IsDecided(w, readable, rows[i], p) && IsWellFormed(w, readable, rows[i]);
    }
  }

  /** The first row fits by itself exactly when its event does. */
  lemma FirstFitsIff(w: World, readable: Candidate -> bool, rows: seq<Candidate>, due: seq<Candidate>, p: Policy,
                     turn: Turn)
    requires AreOldest(w, readable, rows, due, p, turn) && forall i :: 0 <= i < |rows| ==> readable(rows[i])
    requires rows != []
    ensures Fits(w, rows, 1, turn.now, p, turn.ids) <==> FitsAlone(w, readable, rows[0], p)
  {
    OldestAreSound(w, readable, rows, due, p, turn);
    EveryEventFitsTheSchema(w, rows, 1, turn.now, p, turn.ids);
    var e := EventOf(rows, 1, turn.now, p, turn.ids);
    assert rows[..1] == [rows[0]];
    assert e.results == [rows[0].result];
    assert IsDecided(w, readable, rows[0], p);
  }

  /** What goes into a batch that fits, fits by itself. */
  lemma BatchFits(w: World, readable: Candidate -> bool, rows: seq<Candidate>, due: seq<Candidate>, p: Policy,
                  turn: Turn, k: nat)
    requires AreOldest(w, readable, rows, due, p, turn) && forall i :: 0 <= i < |rows| ==> readable(rows[i])
    requires rows != [] && 1 <= k <= Limit(rows, p) && Fits(w, rows, k, turn.now, p, turn.ids)
    ensures forall i :: 0 <= i < k ==> FitsAlone(w, readable, rows[i], p)
  {
    OldestAreSound(w, readable, rows, due, p, turn);
    EveryEventFitsTheSchema(w, rows, k, turn.now, p, turn.ids);
    var e := EventOf(rows, k, turn.now, p, turn.ids);
    forall i | 0 <= i < k ensures FitsAlone(w, readable, rows[i], p) {
      assert e.results[i] == rows[i].result;
      assert IsDecided(w, readable, rows[i], p);
    }
  }

  /** The plan of rows that are old enough: a batch of the oldest, or the oldest is too large. */
  lemma PlansIffFirstFits(w: World, rows: seq<Candidate>, p: Policy, turn: Turn)
    requires rows != [] && InOrder(rows) && AreSound(rows, turn.now) && InputsAreValid(w, rows, p, turn.ids)
    requires IsReady(rows[0], turn.now, p) && (forall e: Event :: w.text(e) != "")
    ensures var r := Plan(w, rows, turn.now, p, turn.ids);
            if !Fits(w, rows, 1, turn.now, p, turn.ids) then r == Failure(PayloadTooLarge)
            else
              && r.Success? && r.value.Some?
              && var taken := r.value.value.candidates;
                 && 0 < |taken| <= Limit(rows, p) && taken == rows[..|taken|]
                 && Fits(w, rows, |taken|, turn.now, p, turn.ids)
  {
    Sorting.SortedStays(ComesBefore, rows);
    PlanIsLongestPrefix(w, rows, turn.now, p, turn.ids);
  }

  /** The plan of readable rows: a batch of the oldest, all of which fit, or the oldest is too large. */
  lemma PlansOldest(w: World, readable: Candidate -> bool, rows: seq<Candidate>, due: seq<Candidate>, p: Policy,
                    turn: Turn)
    requires AreOldest(w, readable, rows, due, p, turn) && forall i :: 0 <= i < |rows| ==> readable(rows[i])
    requires rows != [] && (forall e: Event :: w.text(e) != "")
    ensures var r := Plan(w, rows, turn.now, p, turn.ids);
            if FitsAlone(w, readable, rows[0], p) then
              && r.Success? && r.value.Some?
              && var taken := r.value.value.candidates;
                 && 0 < |taken| <= |rows| && taken == rows[..|taken|]
                 && forall i :: 0 <= i < |taken| ==> FitsAlone(w, readable, taken[i], p)
            else r == Failure(PayloadTooLarge)
  {
    OldestAreSound(w, readable, rows, due, p, turn);
    FirstFitsIff(w, readable, rows, due, p, turn);
    PlansIffFirstFits(w, rows, p, turn);
    var r := Plan(w, rows, turn.now, p, turn.ids);
    if r.Success? {
      BatchFits(w, readable, rows, due, p, turn, |r.value.value.candidates|);
    }
  }

  // ---- The update of a batch ----------------------------------------------------------------------------

  /** The update of a frozen batch finds every one of its requests. */
  lemma {:induction false} CountsEveryOne(requests: seq<Request>, candidates: seq<Candidate>, now: int)
    requires IsTidy(requests) && AreDistinct(candidates)
    requires forall c :: c in candidates ==> IsDue(requests, now, c)
    ensures CountMarked(requests, RequestIds(candidates)) == |candidates|
  {
    var ids := RequestIds(candidates);
    assert |candidates| > 0 ==> IsDue(requests, now, candidates[0]);
    if requests != [] {
      var n := |requests| - 1;
      var last := requests[n].candidate;
      if IsPending(requests[n], now) && last in candidates {
        var k :| 0 <= k < |candidates| && candidates[k] == last;
        var rest := candidates[..k] + candidates[k + 1..];
        RestOf(requests, candidates, k, rest, now);
        CountsEveryOne(requests[..n], rest, now);
        assert requests[n].id in ids by {
          assert candidates[k].request == requests[n].id;
        }
        SameMarks(requests[..n], RequestIds(rest), ids, requests[n].id);
      } else {
        NotLast(requests, candidates, now);
        CountsEveryOne(requests[..n], candidates, now);
      }
    }
  }

  lemma RestOf(requests: seq<Request>, candidates: seq<Candidate>, k: nat, rest: seq<Candidate>, now: int)
    requires IsTidy(requests) && requests != [] && AreDistinct(candidates) && k < |candidates|
    requires candidates[k] == requests[|requests| - 1].candidate
    requires rest == candidates[..k] + candidates[k + 1..]
    requires forall c :: c in candidates ==> IsDue(requests, now, c)
    ensures AreDistinct(rest)
    ensures RequestIds(candidates) == RequestIds(rest) + {candidates[k].request}
    ensures forall c :: c in rest ==> IsDue(requests[..|requests| - 1], now, c)
  {
    forall c | c in rest ensures IsDue(requests[..|requests| - 1], now, c) {
      var j :| 0 <= j < |rest| && rest[j] == c;
      var at := if j < k then j else j + 1;
      assert candidates[at] == c && candidates[at].round != candidates[k].round;
      DueGrows(requests, now, c);
    }
    RestIds(candidates, k, rest);
  }

  lemma RestIds(candidates: seq<Candidate>, k: nat, rest: seq<Candidate>)
    requires k < |candidates| && rest == candidates[..k] + candidates[k + 1..]
    ensures RequestIds(candidates) == RequestIds(rest) + {candidates[k].request}
  {
    forall id | id in RequestIds(candidates) ensures id in RequestIds(rest) + {candidates[k].request} {
      var j :| 0 <= j < |candidates| && candidates[j].request == id;
      if j < k {
        assert rest[j].request == id;
      } else if j > k {
        assert rest[j - 1].request == id;
      }
    }
    forall id | id in RequestIds(rest) ensures id in RequestIds(candidates) {
      var j :| 0 <= j < |rest| && rest[j].request == id;
      assert candidates[if j < k then j else j + 1].request == id;
    }
  }

  lemma {:induction false} SameMarks(requests: seq<Request>, some: set<string>, more: set<string>, extra: string)
    requires more == some + {extra}
    requires forall i :: 0 <= i < |requests| ==> requests[i].id != extra
    ensures CountMarked(requests, more) == CountMarked(requests, some)
  {
    if requests != [] {
      SameMarks(requests[..|requests| - 1], some, more, extra);
    }
  }

  lemma NotLast(requests: seq<Request>, candidates: seq<Candidate>, now: int)
    requires IsTidy(requests) && requests != []
    requires forall c :: c in candidates ==> IsDue(requests, now, c)
    requires !IsPending(requests[|requests| - 1], now) || requests[|requests| - 1].candidate !in candidates
    ensures requests[|requests| - 1].id !in RequestIds(candidates)
    ensures forall c :: c in candidates ==> IsDue(requests[..|requests| - 1], now, c)
  {
    var n := |requests| - 1;
    forall c | c in candidates
      ensures IsDue(requests[..n], now, c)
      ensures c.request != requests[n].id
    {
      DueGrows(requests, now, c);
      var i :| 0 <= i < n && IsDueAt(requests[..n], now, i, c);
      assert requests[i].id == c.request;
    }
  }

  // ---- What one freeze does -----------------------------------------------------------------------------

  /** The request failed once more, and why. */
  predicate IsPutOff(readable: Candidate -> bool, before: Request, after: Request) {
    && after.state == RetryableFailed && after.attempts == before.attempts + 1
    && after.failure == Some(if readable(before.candidate) then PayloadTooLarge else InvalidCandidate)
  }

  /** The request stays, or goes into a batch and fits, or is put off for an hour and does not. */
  ghost predicate Moves(w: World, readable: Candidate -> bool, before: Request, after: Request, p: Policy, now: int) {
    || after == before
    || (&& IsPending(before, now) && after.id == before.id && after.candidate == before.candidate
        && if FitsAlone(w, readable, before.candidate, p) then
             after.state == Batched && after.retryAt.None? && after.failure.None? && after.attempts == before.attempts
           else IsPutOff(readable, before, after) && after.retryAt == Some(now + HOUR_MS))
  }

  /** One freeze publishes in order, puts off only what does not fit, and makes progress. */
  ghost predicate IsTurn(w: World, readable: Candidate -> bool, q: Queue, p: Policy, now: int, after: Queue) {
    && |after.requests| == |q.requests|
    && (forall i :: 0 <= i < |q.requests| ==> Moves(w, readable, q.requests[i], after.requests[i], p, now))
    && Published(after.outbox) + Fitting(w, readable, Due(after.requests, now), p)
       == Published(q.outbox) + Fitting(w, readable, Due(q.requests, now), p)
    && (Due(after.requests, now) == [] || |Due(after.requests, now)| < |Due(q.requests, now)|)
  }

  /** The candidates of all batches, one batch after the other. */
  function Published(outbox: seq<Batch>): seq<Candidate> {
    if outbox == [] then [] else Published(outbox[..|outbox| - 1]) + outbox[|outbox| - 1].candidates
  }

  lemma PublishedMore(outbox: seq<Batch>, batch: Batch)
    ensures Published(outbox + [batch]) == Published(outbox) + batch.candidates
  {
    assert (outbox + [batch])[..|outbox|] == outbox;
  }

  /** The request of a candidate that is due; no other request has its id. */
  lemma OwnRequest(requests: seq<Request>, now: int, c: Candidate) returns (i: nat)
    requires IsTidy(requests) && IsDue(requests, now, c)
    ensures IsDueAt(requests, now, i, c)
    ensures forall k :: 0 <= k < |requests| ==> (requests[k].id == c.request <==> k == i)
  {
    i :| 0 <= i < |requests| && IsDueAt(requests, now, i, c);
    forall k | 0 <= k < |requests| && k != i ensures requests[k].id != c.request {
      assert if k < i then requests[k].id != requests[i].id else requests[i].id != requests[k].id;
    }
  }

  /** Putting off one request takes exactly it out of what is due. */
  lemma DeferTakesOne(requests: seq<Request>, now: int, m: nat, cause: PlanError)
    requires IsTidy(requests) && m < |Due(requests, now)|
    ensures var due := Due(requests, now);
            var after := Defer(requests, due[m].request, now, cause);
            IsTidy(after) && Due(after, now) == due[..m] + due[m + 1..]
  {
    var due := Due(requests, now);
    var after, rest := Defer(requests, due[m].request, now, cause), due[..m] + due[m + 1..];
    DueInOrder(requests, now);
    assert due[m] in due;
    var own := OwnRequest(requests, now, due[m]);
    WithoutOneInOrder(due, m);
    forall c ensures c in rest <==> IsDue(after, now, c) {
      WithoutOne(due, m, c);
      DueAfterDefer(requests, now, own, due[m], cause, c);
    }
    DueIs(after, now, rest);
  }

  lemma WithoutOne(s: seq<Candidate>, m: nat, c: Candidate)
    requires AreDistinct(s) && m < |s|
    ensures c in s[..m] + s[m + 1..] <==> c in s && c != s[m]
  {
    var rest := s[..m] + s[m + 1..];
    if c in s && c != s[m] {
      var i :| 0 <= i < |s| && s[i] == c;
      assert rest[if i < m then i else i - 1] == c;
    }
    if c in rest {
      var j :| 0 <= j < |rest| && rest[j] == c;
      assert s[if j < m then j else j + 1].round != s[m].round;
    }
  }

  lemma WithoutOneInOrder(s: seq<Candidate>, m: nat)
    requires AreDistinct(s) && InOrder(s) && m < |s|
    ensures AreDistinct(s[..m] + s[m + 1..]) && InOrder(s[..m] + s[m + 1..])
  {
    var rest := s[..m] + s[m + 1..];
    forall j | 0 <= j < |rest| ensures rest[j] == s[if j < m then j else j + 1] {
    }
  }

  lemma DueAfterDefer(requests: seq<Request>, now: int, own: nat, gone: Candidate, cause: PlanError, c: Candidate)
    requires IsTidy(requests) && IsDueAt(requests, now, own, gone)
    requires forall k :: 0 <= k < |requests| ==> (requests[k].id == gone.request <==> k == own)
    ensures IsDue(Defer(requests, gone.request, now, cause), now, c) <==> IsDue(requests, now, c) && c != gone
  {
    var after := Defer(requests, gone.request, now, cause);
    if IsDue(after, now, c) {
      var i :| 0 <= i < |after| && IsDueAt(after, now, i, c);
      assert i != own && IsDueAt(requests, now, i, c);
    }
    if IsDue(requests, now, c) && c != gone {
      var i :| 0 <= i < |requests| && IsDueAt(requests, now, i, c);
      assert i != own && IsDueAt(after, now, i, c);
    }
  }

  /** A request that does not fit is put off, and everything else stays as it is. */
  lemma FreezePutsOff(w: World, readable: Candidate -> bool, q: Queue, p: Policy, now: int, m: nat, cause: PlanError)
    requires IsTidy(q.requests) && m < |Due(q.requests, now)|
    requires !FitsAlone(w, readable, Due(q.requests, now)[m], p)
    requires cause == if readable(Due(q.requests, now)[m]) then PayloadTooLarge else InvalidCandidate
    ensures IsTurn(w, readable, q, p, now,
                   q.(requests := Defer(q.requests, Due(q.requests, now)[m].request, now, cause)))
  {
    var due := Due(q.requests, now);
    DeferTakesOne(q.requests, now, m, cause);
    FittingWithout(w, readable, due, m, p);
    DueInOrder(q.requests, now);
    assert due[m] in due;
    var own := OwnRequest(q.requests, now, due[m]);
  }

  /** Taking a prefix of what is due leaves the rest of it. */
  lemma MarkTakesPrefix(requests: seq<Request>, now: int, k: nat)
    requires IsTidy(requests) && k <= |Due(requests, now)|
    ensures var due := Due(requests, now);
            var after := Mark(requests, RequestIds(due[..k]));
            IsTidy(after) && Due(after, now) == due[k..]
  {
    var s := Due(requests, now);
    var after := Mark(requests, RequestIds(s[..k]));
    DueInOrder(requests, now);
    forall c ensures c in s[k..] <==> IsDue(after, now, c) {
      if IsDue(after, now, c) {
        DueBefore(requests, now, s, k, after, c);
      }
      if c in s[k..] {
        DueStill(requests, now, s, k, after, c);
      }
    }
    DueIs(after, now, s[k..]);
  }

  lemma DueBefore(requests: seq<Request>, now: int, s: seq<Candidate>, k: nat, after: seq<Request>, c: Candidate)
    requires IsTidy(requests) && k <= |s| && after == Mark(requests, RequestIds(s[..k]))
    requires (forall x :: x in s <==> IsDue(requests, now, x)) && IsDue(after, now, c)
    ensures c in s[k..]
  {
    var i :| 0 <= i < |after| && IsDueAt(after, now, i, c);
    assert IsDueAt(requests, now, i, c);
    assert IsDue(requests, now, c);
    forall m | 0 <= m < k ensures s[m].request in RequestIds(s[..k]) {
      assert s[..k][m] == s[m];
    }
    var j :| 0 <= j < |s| && s[j] == c;
    assert s[k..][j - k] == c;
  }

  lemma DueStill(requests: seq<Request>, now: int, s: seq<Candidate>, k: nat, after: seq<Request>, c: Candidate)
    requires IsTidy(requests) && k <= |s| && after == Mark(requests, RequestIds(s[..k]))
    requires (forall x :: x in s <==> IsDue(requests, now, x)) && AreDistinct(s) && c in s[k..]
    ensures IsDue(after, now, c)
  {
    var j :| 0 <= j < |s[k..]| && s[k..][j] == c;
    assert s[k + j] == c && c in s;
    var i :| 0 <= i < |requests| && IsDueAt(requests, now, i, c);
    forall m | 0 <= m < k ensures s[..k][m].request != c.request {
      assert s[m].request != s[k + j].request;
    }
    assert IsDueAt(after, now, i, c);
  }

  /** Only what is due is marked. */
  lemma MarksDue(requests: seq<Request>, now: int, k: nat, i: nat)
    requires IsTidy(requests) && k <= |Due(requests, now)| && i < |requests|
    requires requests[i].id in RequestIds(Due(requests, now)[..k])
    ensures IsPending(requests[i], now)
    ensures exists m :: 0 <= m < k && Due(requests, now)[m] == requests[i].candidate
  {
    var due := Due(requests, now);
    var m :| 0 <= m < k && due[..k][m].request == requests[i].id;
    DueInOrder(requests, now);
    assert due[m] in due;
    var own := OwnRequest(requests, now, due[m]);
  }

  /** Marking a prefix of what is due, all of which fits, moves exactly its requests. */
  lemma MarkMoves(w: World, readable: Candidate -> bool, requests: seq<Request>, p: Policy, now: int, k: nat, i: nat)
    requires IsTidy(requests) && k <= |Due(requests, now)| && i < |requests|
    requires forall m :: 0 <= m < k ==> FitsAlone(w, readable, Due(requests, now)[m], p)
    ensures Moves(w, readable, requests[i], Mark(requests, RequestIds(Due(requests, now)[..k]))[i], p, now)
  {
    if requests[i].id in RequestIds(Due(requests, now)[..k]) {
      MarksDue(requests, now, k, i);
    }
  }

  lemma AllMove(w: World, readable: Candidate -> bool, requests: seq<Request>, p: Policy, now: int, k: nat)
    requires IsTidy(requests) && k <= |Due(requests, now)|
    requires forall m :: 0 <= m < k ==> FitsAlone(w, readable, Due(requests, now)[m], p)
    ensures var after := Mark(requests, RequestIds(Due(requests, now)[..k]));
            forall i :: 0 <= i < |requests| ==> Moves(w, readable, requests[i], after[i], p, now)
  {
    var after := Mark(requests, RequestIds(Due(requests, now)[..k]));
    forall i | 0 <= i < |requests| ensures Moves(w, readable, requests[i], after[i], p, now) {
      MarkMoves(w, readable, requests, p, now, k, i);
    }
  }

  lemma FittingTaken(w: World, readable: Candidate -> bool, due: seq<Candidate>, k: nat, p: Policy)
    requires k <= |due| && forall m :: 0 <= m < k ==> FitsAlone(w, readable, due[m], p)
    ensures Fitting(w, readable, due, p) == due[..k] + Fitting(w, readable, due[k..], p)
  {
    assert due == due[..k] + due[k..];
    FittingConcat(w, readable, due[..k], due[k..], p);
    FittingAll(w, readable, due[..k], p);
  }

  lemma CountsPrefix(requests: seq<Request>, now: int, k: nat)
    requires IsTidy(requests) && k <= |Due(requests, now)|
    ensures CountMarked(requests, RequestIds(Due(requests, now)[..k])) == k
  {
    var due := Due(requests, now);
    DueInOrder(requests, now);
    forall c | c in due[..k] ensures IsDue(requests, now, c) {
      assert c in due;
    }
    CountsEveryOne(requests, due[..k], now);
  }

  /** A batch of what fits goes into the outbox, and the rest stays due. */
  lemma MarkIsTurn(w: World, readable: Candidate -> bool, q: Queue, p: Policy, now: int, batch: Batch)
    requires IsTidy(q.requests) && 0 < |batch.candidates| <= |Due(q.requests, now)|
    requires batch.candidates == Due(q.requests, now)[..|batch.candidates|]
    requires forall i :: 0 <= i < |batch.candidates| ==> FitsAlone(w, readable, batch.candidates[i], p)
    ensures CountMarked(q.requests, RequestIds(batch.candidates)) == |batch.candidates|
    ensures IsTurn(w, readable, q, p, now,
                   Queue(Mark(q.requests, RequestIds(batch.candidates)), q.outbox + [batch]))
  {
    var k, due := |batch.candidates|, Due(q.requests, now);
    assert forall m :: 0 <= m < k ==> due[m] == batch.candidates[m];
    CountsPrefix(q.requests, now, k);
    MarkTakesPrefix(q.requests, now, k);
    AllMove(w, readable, q.requests, p, now, k);
    PublishedMore(q.outbox, batch);
    FittingTaken(w, readable, due, k, p);
    Joins(Published(q.outbox), batch.candidates, Fitting(w, readable, due[k..], p));
  }

  lemma Joins(a: seq<Candidate>, b: seq<Candidate>, c: seq<Candidate>)
    ensures a + b + c == a + (b + c)
  {
  }

  /**
   If the oldest rows can be read and the oldest of them fits, one freeze takes a nonempty prefix of what is
   due, all of which fits, and leaves the rest due.
   */
  lemma FreezeTakesPrefix(w: World, readable: Candidate -> bool, q: Queue, p: Policy, turn: Turn)
    returns (batch: Batch, after: Queue)
    requires IsWorkable(w, readable, q.requests, p) && TurnIsFair(w, q.requests, p, turn)
    requires FirstUnreadable(Rows(q.requests, turn.now, p), readable).None?
    requires var due := Due(q.requests, turn.now); due != [] && FitsAlone(w, readable, due[0], p)
    ensures Freeze(w, readable, q, turn.now, p, turn.ids) == (after, Success(Some(batch)))
    ensures var due := Due(q.requests, turn.now);
            && 0 < |batch.candidates| <= |due| && batch.candidates == due[..|batch.candidates|]
            && Due(after.requests, turn.now) == due[|batch.candidates|..]
    ensures forall i :: 0 <= i < |batch.candidates| ==> FitsAlone(w, readable, batch.candidates[i], p)
    ensures after.outbox == q.outbox + [batch] && IsTurn(w, readable, q, p, turn.now, after)
  {
    var rows, due := Rows(q.requests, turn.now, p), Due(q.requests, turn.now);
    RowsAreOldest(w, readable, q, p, turn);
    assert rows != [] && forall i :: 0 <= i < |rows| ==> rows[i] == due[i];
    var m := UnreadableIsFirst(rows, readable);
    PlansOldest(w, readable, rows, due, p, turn);
    batch := Plan(w, rows, turn.now, p, turn.ids).value.value;
    after := Queue(Mark(q.requests, RequestIds(batch.candidates)), q.outbox + [batch]);
    assert batch.candidates == due[..|batch.candidates|];
    MarkIsTurn(w, readable, q, p, turn.now, batch);
    MarkTakesPrefix(q.requests, turn.now, |batch.candidates|);
  }

  /** A freeze with nothing due does nothing. */
  lemma EmptyStays(w: World, readable: Candidate -> bool, q: Queue, now: int, p: Policy, ids: Ids)
    requires Due(q.requests, now) == [] && PolicyIsValid(p)
    ensures Freeze(w, readable, q, now, p, ids) == (q, Success(None))
  {
    assert Rows(q.requests, now, p) == [];
    assert Plan(w, [], now, p, ids) == Success(None);
  }

  /**
   One freeze of any workable queue: an unreadable row, or the oldest request if it is too large, is put
   off; else the oldest ones that fit are published.
   */
  lemma FreezeIsTurn(w: World, readable: Candidate -> bool, q: Queue, p: Policy, turn: Turn)
    requires IsWorkable(w, readable, q.requests, p) && TurnIsFair(w, q.requests, p, turn)
    ensures IsTurn(w, readable, q, p, turn.now, Freeze(w, readable, q, turn.now, p, turn.ids).0)
  {
    var now, rows, due := turn.now, Rows(q.requests, turn.now, p), Due(q.requests, turn.now);
    if due == [] {
      EmptyStays(w, readable, q, now, p, turn.ids);
    } else {
      RowsAreOldest(w, readable, q, p, turn);
      assert rows != [] && forall i :: 0 <= i < |rows| ==> rows[i] == due[i];
      var m := UnreadableIsFirst(rows, readable);
      if FirstUnreadable(rows, readable).Some? {
        FreezePutsOff(w, readable, q, p, now, m, InvalidCandidate);
      } else {
        if FitsAlone(w, readable, rows[0], p) {
          var batch, after := FreezeTakesPrefix(w, readable, q, p, turn);
        } else {
          PlansOldest(w, readable, rows, due, p, turn);
          FreezePutsOff(w, readable, q, p, now, 0, PayloadTooLarge);
        }
      }
    }
  }

  /** A request that a freeze has moved is due again exactly from an hour later on if it was put off, and else never. */
  lemma DueAgainIff(w: World, readable: Candidate -> bool, q: Queue, p: Policy, turn: Turn, i: nat, later: int)
    requires IsWorkable(w, readable, q.requests, p) && TurnIsFair(w, q.requests, p, turn) && i < |q.requests|
    ensures var before, after := q.requests[i], Freeze(w, readable, q, turn.now, p, turn.ids).0.requests;
            && |after| == |q.requests|
            && (after[i] != before ==>
                  (IsPending(after[i], later)
                   <==> !FitsAlone(w, readable, before.candidate, p) && later >= turn.now + HOUR_MS))
  {
    FreezeIsTurn(w, readable, q, p, turn);
    assert Moves(w, readable, q.requests[i], Freeze(w, readable, q, turn.now, p, turn.ids).0.requests[i], p, turn.now);
  }

  /** The rows of a freeze are distinct and in order, so planning does not reorder them. */
  lemma RowsInOrder(q: Queue, now: int, p: Policy)
    requires IsTidy(q.requests)
    ensures InOrder(Rows(q.requests, now, p)) && AreDistinct(Rows(q.requests, now, p))
    ensures SortCandidates(Rows(q.requests, now, p)) == Rows(q.requests, now, p)
  {
    DueInOrder(q.requests, now);
    Sorting.SortedStays(ComesBefore, Rows(q.requests, now, p));
  }

  /**
   Who is put off when planning fails: always the oldest row. So it is put off without a fault of its own
   exactly when it is consistent and fits, and some row after it is inconsistent, such as one that was
   completed after now.
   */
  lemma OldestPutOffIff(w: World, readable: Candidate -> bool, q: Queue, p: Policy, turn: Turn)
    requires IsTidy(q.requests) && PolicyIsValid(p) && w.isAccount(p.publisher) && IdsAreValid(w, turn.ids)
    requires (forall e: Event :: w.text(e) != "") && Rows(q.requests, turn.now, p) != []
    requires forall i :: 0 <= i < |Rows(q.requests, turn.now, p)| ==>
               readable(Rows(q.requests, turn.now, p)[i]) && w.isResult(Rows(q.requests, turn.now, p)[i].result)
    ensures var rows, r := Rows(q.requests, turn.now, p), Freeze(w, readable, q, turn.now, p, turn.ids);
            && (r.1.Failure? && r.1.error.Unplannable?
                <==> !Fits(w, rows, 1, turn.now, p, turn.ids)
                     || exists i :: 0 <= i < |rows| && !IsConsistent(rows[i], turn.now))
            && (r.1.Failure? && r.1.error.Unplannable? ==>
                  r.0 == q.(requests := Defer(q.requests, rows[0].request, turn.now, r.1.error.cause)))
  {
    var rows := Rows(q.requests, turn.now, p);
    RowsInOrder(q, turn.now, p);
    var m := UnreadableIsFirst(rows, readable);
    if AreSound(rows, turn.now) {
      PlanIsLongestPrefix(w, rows, turn.now, p, turn.ids);
    }
  }

  // ---- Draining -----------------------------------------------------------------------------------------

  function FreezeAll(w: World, readable: Candidate -> bool, q: Queue, p: Policy, turns: seq<Turn>): Queue
    decreases |turns|
  {
    if turns == [] then q
    else
      FreezeAll(w, readable, Freeze(w, readable, q, turns[0].now, p, turns[0].ids).0, p, turns[1..])
  }

  /** No request that is put off at one turn is due again at another. */
  predicate AreWithinAnHour(start: int, turns: seq<Turn>) {
    && (forall k :: 0 <= k < |turns| ==> start < turns[k].now + HOUR_MS)
    && (forall k, m :: 0 <= k < |turns| && 0 <= m < |turns| ==> turns[m].now < turns[k].now + HOUR_MS)
  }

  /**
   What is due at `start` is due at every turn, and nothing else becomes due; unless all of it fits, the
   turns are within an hour.
   */
  ghost predicate AreClose(w: World, readable: Candidate -> bool, requests: seq<Request>, p: Policy, start: int,
                           turns: seq<Turn>)
  {
    && (forall i, k :: 0 <= i < |requests| && 0 <= k < |turns| ==>
          (IsPending(requests[i], start) <==> IsPending(requests[i], turns[k].now)))
    && (AreWithinAnHour(start, turns)
        || forall i :: 0 <= i < |requests| && IsPending(requests[i], start) ==>
             FitsAlone(w, readable, requests[i].candidate, p))
  }

  lemma {:induction false} SameEligible(requests: seq<Request>, now: int, later: int)
    requires forall i :: 0 <= i < |requests| ==> (IsPending(requests[i], now) <==> IsPending(requests[i], later))
    ensures Eligible(requests, now) == Eligible(requests, later)
  {
    if requests != [] {
      SameEligible(requests[..|requests| - 1], now, later);
    }
  }

  /** What a turn leaves can be worked on by the turns after it. */
  lemma TurnKeeps(w: World, readable: Candidate -> bool, q: Queue, p: Policy, start: int, turns: seq<Turn>,
                  after: Queue)
    requires turns != [] && IsWorkable(w, readable, q.requests, p) && AreClose(w, readable, q.requests, p, start, turns)
    requires IsTurn(w, readable, q, p, turns[0].now, after)
    ensures IsWorkable(w, readable, after.requests, p) && AreClose(w, readable, after.requests, p, start, turns[1..])
    ensures Due(after.requests, start) == Due(after.requests, turns[0].now)
  {
    forall i | 0 <= i < |q.requests|
      ensures after.requests[i].id == q.requests[i].id && after.requests[i].candidate == q.requests[i].candidate
      ensures IsPending(after.requests[i], start) <==> IsPending(after.requests[i], turns[0].now)
      ensures forall k :: 0 <= k < |turns| ==>
                (IsPending(after.requests[i], start) <==> IsPending(after.requests[i], turns[k].now))
    {
      assert Moves(w, readable, q.requests[i], after.requests[i], p, turns[0].now);
    }
    SameEligible(after.requests, start, turns[0].now);
  }

  lemma FairAfter(w: World, readable: Candidate -> bool, q: Queue, p: Policy, start: int, turns: seq<Turn>, k: nat,
                  after: Queue)
    requires AreClose(w, readable, q.requests, p, start, turns) && 0 < k < |turns|
    requires TurnIsFair(w, q.requests, p, turns[k]) && IsTurn(w, readable, q, p, turns[0].now, after)
    ensures TurnIsFair(w, after.requests, p, turns[k])
  {
    forall i | 0 <= i < |after.requests| && IsPending(after.requests[i], turns[k].now)
      ensures IsReady(after.requests[i].candidate, turns[k].now, p)
    {
      assert Moves(w, readable, q.requests[i], after.requests[i], p, turns[0].now);
      assert IsPending(q.requests[i], turns[k].now);
    }
  }

  /** How a request ends that was due at `start`: in a batch if it fits, and else put off by one of the turns. */
  ghost predicate IsSettled(w: World, readable: Candidate -> bool, before: Request, after: Request, p: Policy,
                            start: int)
  {
    && after.id == before.id && after.candidate == before.candidate
    && if !IsPending(before, start) then after == before
       else if FitsAlone(w, readable, before.candidate, p) then
         after.state == Batched && after.retryAt.None? && after.failure.None? && after.attempts == before.attempts
       else IsPutOff(readable, before, after) && after.retryAt.Some? && after.retryAt.value > start
  }

  lemma SettledSooner(w: World, readable: Candidate -> bool, before: Request, middle: Request, after: Request,
                      p: Policy, now: int, start: int)
    requires Moves(w, readable, before, middle, p, now) && IsSettled(w, readable, middle, after, p, start)
    requires IsPending(before, start) <==> IsPending(before, now)
    requires start < now + HOUR_MS || !IsPending(before, start) || FitsAlone(w, readable, before.candidate, p)
    ensures IsSettled(w, readable, before, after, p, start)
  {
  }

  lemma AllSettledSooner(w: World, readable: Candidate -> bool, q: Queue, p: Policy, start: int, turns: seq<Turn>,
                         next: Queue, after: Queue)
    requires turns != [] && AreClose(w, readable, q.requests, p, start, turns)
    requires IsTurn(w, readable, q, p, turns[0].now, next) && |after.requests| == |next.requests|
    requires forall i :: 0 <= i < |next.requests| ==>
               IsSettled(w, readable, next.requests[i], after.requests[i], p, start)
    ensures forall i :: 0 <= i < |q.requests| ==>
              IsSettled(w, readable, q.requests[i], after.requests[i], p, start)
  {
    forall i | 0 <= i < |q.requests| ensures IsSettled(w, readable, q.requests[i], after.requests[i], p, start) {
      SettledSooner(w, readable, q.requests[i], next.requests[i], after.requests[i], p, turns[0].now, start);
    }
  }

  /** Nothing that is due is left when as many turns were taken as it has candidates. */
  lemma NothingDue(w: World, readable: Candidate -> bool, requests: seq<Request>, p: Policy, start: int)
    requires IsTidy(requests) && Due(requests, start) == []
    ensures forall i :: 0 <= i < |requests| ==> !IsPending(requests[i], start)
  {
    DueInOrder(requests, start);
    forall i | 0 <= i < |requests| ensures !IsPending(requests[i], start) {
      assert !IsDue(requests, start, requests[i].candidate);
      assert !IsDueAt(requests, start, i, requests[i].candidate);
    }
  }

  /**
   Conservation and progress: freezing as often as there are requests due leaves none due.
   The batches put together are those that fit, in order, none lost or repeated; the others are put
   off, wherever they stand, and never block; whatever was not due stays as it is.
   */
  lemma {:induction false} QueueDrains(w: World, readable: Candidate -> bool, q: Queue, p: Policy, start: int,
                                       turns: seq<Turn>)
    requires IsWorkable(w, readable, q.requests, p) && AreClose(w, readable, q.requests, p, start, turns)
    requires forall k :: 0 <= k < |turns| ==> TurnIsFair(w, q.requests, p, turns[k])
    requires |turns| >= |Due(q.requests, start)|
    ensures var after := FreezeAll(w, readable, q, p, turns);
            && Due(after.requests, start) == []
            && Published(after.outbox) == Published(q.outbox) + Fitting(w, readable, Due(q.requests, start), p)
            && |after.requests| == |q.requests|
            && forall i :: 0 <= i < |q.requests| ==>
                 IsSettled(w, readable, q.requests[i], after.requests[i], p, start)
    decreases |turns|
  {
    if turns == [] {
      assert Published(q.outbox) + [] == Published(q.outbox);
      NothingDue(w, readable, q.requests, p, start);
    } else {
      var next := Freeze(w, readable, q, turns[0].now, p, turns[0].ids).0;
      FreezeIsTurn(w, readable, q, p, turns[0]);
      TurnKeeps(w, readable, q, p, start, turns, next);
      SameEligible(q.requests, start, turns[0].now);
      forall k | 0 <= k < |turns[1..]| ensures TurnIsFair(w, next.requests, p, turns[1..][k]) {
        FairAfter(w, readable, q, p, start, turns, k + 1, next);
      }
      QueueDrains(w, readable, next, p, start, turns[1..]);
      AllSettledSooner(w, readable, q, p, start, turns, next, FreezeAll(w, readable, q, p, turns));
    }
  }
}
