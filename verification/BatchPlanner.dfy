/**
 Planning one batch of match results: the longest run of the oldest candidates whose event still fits,
 published once it is old enough, full enough, or cannot grow. Times are milliseconds; a round id
 stands for its 128-bit value.
 */
module BatchPlanner {
  import opened Wrappers
  import Sorting

  datatype PublicResult = PublicResult(round: nat, completedAt: int, body: string)

  /** `completedAt` is `None` when the timestamp cannot be parsed. */
  datatype Candidate = Candidate(request: string, round: nat, completedAt: Option<int>, result: PublicResult)

  datatype Event = Event(eventId: string, batchId: string, occurredAt: int, periodStart: int, periodEnd: int,
                         publisher: string, resultCount: nat, results: seq<PublicResult>)

  datatype Policy = Policy(publisher: string, maximumAge: int, maximumResults: int, maximumBytes: int)

  datatype Ids = Ids(event: string, batch: string, outbox: string)

  datatype PlanError = ConfigurationInvalid | InvalidCandidate | PayloadTooLarge

  const HIVE_LIMIT := 6144

  /** Canonical text, its size and the checks on single fields: fixed and otherwise unknown. */
  datatype World = World(text: Event -> string, bytes: string -> nat, isUuid: string -> bool,
                         isAccount: string -> bool, isResult: PublicResult -> bool)

  // ---- The schema of a batch --------------------------------------------------------------------------

  predicate Precedes(a: PublicResult, b: PublicResult) {
    a.completedAt < b.completedAt || (a.completedAt == b.completedAt && a.round <= b.round)
  }

  /** The refinements every batch event must satisfy. */
  predicate SchemaHolds(w: World, e: Event) {
    && w.isUuid(e.eventId) && w.isUuid(e.batchId) && w.isAccount(e.publisher)
    && 1 <= |e.results| <= 20 && e.resultCount == |e.results|
    && e.periodStart < e.periodEnd
    && (forall i :: 0 <= i < |e.results| ==> w.isResult(e.results[i]))
    && (forall i :: 0 <= i < |e.results| ==> e.periodStart <= e.results[i].completedAt < e.periodEnd)
    && (forall i, j :: 0 <= i < |e.results| && j == i + 1 && j < |e.results| ==> Precedes(e.results[i], e.results[j]))
    && (forall i, j :: 0 <= i < j < |e.results| ==> e.results[i].round != e.results[j].round)
  }

  /** Validates, writes out and weighs an event. */
  function Serialize(w: World, e: Event): Result<string, PlanError> {
    if !SchemaHolds(w, e) then Failure(InvalidCandidate)
    else if w.bytes(w.text(e)) > HIVE_LIMIT then Failure(PayloadTooLarge)
    else Success(w.text(e))
  }

  // ---- Order and checks -------------------------------------------------------------------------------

  function TimeOf(c: Candidate): int {
    if c.completedAt.Some? then c.completedAt.value else 0
  }

  predicate ComesBefore(a: Candidate, b: Candidate) {
    TimeOf(a) < TimeOf(b) || (TimeOf(a) == TimeOf(b) && a.round <= b.round)
  }

  function SortCandidates(s: seq<Candidate>): seq<Candidate> {
    Sorting.Sort(ComesBefore, s)
  }

  predicate IsConsistent(c: Candidate, now: int) {
    && c.completedAt.Some? && c.completedAt.value <= now
    && c.result.completedAt == c.completedAt.value && c.result.round == c.round
  }

  predicate AreDistinct(s: seq<Candidate>) {
    forall i, j :: 0 <= i < j < |s| ==> s[i].round != s[j].round && s[i].request != s[j].request
  }

  predicate AreSound(s: seq<Candidate>, now: int) {
    AreDistinct(s) && forall i :: 0 <= i < |s| ==> IsConsistent(s[i], now)
  }

  predicate PolicyIsValid(p: Policy) {
    p.maximumAge >= 1000 && 1 <= p.maximumResults <= 20 && 512 <= p.maximumBytes <= HIVE_LIMIT
  }

  // ---- Planning ---------------------------------------------------------------------------------------

  function ResultsOf(s: seq<Candidate>): (r: seq<PublicResult>)
    ensures |r| == |s| && forall i :: 0 <= i < |s| ==> r[i] == s[i].result
  {
    seq(|s|, i requires 0 <= i < |s| => s[i].result)
  }

  function LastOfLimit(s: seq<Candidate>, p: Policy): nat
    requires s != [] && p.maximumResults >= 1
  {
    if |s| < p.maximumResults then |s| - 1 else p.maximumResults - 1
  }

  /** The end of the period: now, or just after the last candidate that could be chosen. */
  function PeriodEnd(s: seq<Candidate>, now: int, p: Policy): int
    requires s != [] && p.maximumResults >= 1
  {
    var latest := TimeOf(s[LastOfLimit(s, p)]);
    if now > latest then now else latest + 1
  }

  /** The event of the first `n` candidates of the sorted `s`. */
  function EventOf(s: seq<Candidate>, n: nat, now: int, p: Policy, ids: Ids): Event
    requires s != [] && n <= |s| && p.maximumResults >= 1
  {
    Event(ids.event, ids.batch, now, TimeOf(s[0]), PeriodEnd(s, now, p), p.publisher, n, ResultsOf(s[..n]))
  }

  datatype Selection = Selection(count: nat, payload: string, full: bool)

  /** Takes candidate after candidate until one does not fit; the first one has to. */
  function Select(w: World, s: seq<Candidate>, n: nat, now: int, p: Policy, ids: Ids): Result<Selection, PlanError>
    requires s != [] && n <= |s| && p.maximumResults >= 1
  {
    if n == 0 then Success(Selection(0, "", false))
    else
      var earlier :- Select(w, s, n - 1, now, p, ids);
      if earlier.full then Success(earlier)
      else
        var payload := Serialize(w, EventOf(s, n, now, p, ids));
        if payload.Failure? && payload.error != PayloadTooLarge then Failure(InvalidCandidate)
        else if payload.Failure? || w.bytes(payload.value) > p.maximumBytes then
          if earlier.count == 0 then Failure(PayloadTooLarge) else Success(earlier.(full := true))
        else Success(Selection(n, payload.value, false))
  }

  datatype Batch = Batch(ids: Ids, event: Event, payload: string, candidates: seq<Candidate>)

  function Limit(s: seq<Candidate>, p: Policy): nat
    requires p.maximumResults >= 1
  {
    if |s| < p.maximumResults then |s| else p.maximumResults
  }

  /** `None` is a batch that is not due yet. */
  function Plan(w: World, candidates: seq<Candidate>, now: int, p: Policy, ids: Ids): Result<Option<Batch>, PlanError> {
    if !PolicyIsValid(p) then Failure(ConfigurationInvalid)
    else if candidates == [] then Success(None)
    else
      var s := SortCandidates(candidates);
      if s == [] || !AreSound(s, now) then Failure(InvalidCandidate)
      else if !w.isUuid(ids.event) || !w.isUuid(ids.batch) || !w.isUuid(ids.outbox) then Failure(ConfigurationInvalid)
      else
        var selection :- Select(w, s, Limit(s, p), now, p, ids);
        if selection.count == 0 || selection.count > |s| || selection.payload == "" then Failure(InvalidCandidate)
        else if now - TimeOf(s[0]) < p.maximumAge && selection.count != p.maximumResults && !selection.full then
          Success(None)
        else
          Success(Some(Batch(ids, EventOf(s, selection.count, now, p, ids), selection.payload, s[..selection.count])))
  }

  // ---- The loop ---------------------------------------------------------------------------------------

  /** Checks the candidates one by one against those before them. */
  method AssertCandidates(s: seq<Candidate>, now: int) returns (ok: bool)
    ensures ok == AreSound(s, now)
  {
    var rounds: set<nat> := {};
    var requests: set<string> := {};
    var i := 0;
    while i < |s|
      invariant i <= |s| && AreSound(s[..i], now)
      invariant rounds == set k | 0 <= k < i :: s[k].round
      invariant requests == set k | 0 <= k < i :: s[k].request
    {
      var c := s[i];
      if !IsConsistent(c, now) {
        return false;
      }
      if c.round in rounds || c.request in requests {
        var k :| 0 <= k < i && (s[k].round == c.round || s[k].request == c.request);
        assert s[k].round == s[i].round || s[k].request == s[i].request;
        return false;
      }
      assert s[..i + 1] == s[..i] + [c];
      rounds := rounds + {c.round};
      requests := requests + {c.request};
      i := i + 1;
    }
    assert s[..i] == s;
    return true;
  }

  /** Takes candidate after candidate, up to the limit, until one does not fit. */
  method SelectBatch(w: World, s: seq<Candidate>, now: int, p: Policy, ids: Ids)
    returns (r: Result<Selection, PlanError>)
    requires s != [] && p.maximumResults >= 1
    ensures r == Select(w, s, Limit(s, p), now, p, ids)
    ensures r.Success? ==> r.value.count <= |s|
  {
    var selected, payload, full := 0, "", false;
    var limit := Limit(s, p);
    var i := 0;
    while i < limit && !full
      invariant i <= limit <= |s|
      invariant Select(w, s, i, now, p, ids) == Success(Selection(selected, payload, full))
      invariant selected <= i
    {
      var serialized := Serialize(w, EventOf(s, i + 1, now, p, ids));
      if serialized.Failure? && serialized.error != PayloadTooLarge {
        SelectStops(w, s, i + 1, limit, now, p, ids);
        return Failure(InvalidCandidate);
      }
      if serialized.Failure? || w.bytes(serialized.value) > p.maximumBytes {
        if selected == 0 {
          SelectStops(w, s, i + 1, limit, now, p, ids);
          return Failure(PayloadTooLarge);
        }
        full := true;
      } else {
        selected, payload := i + 1, serialized.value;
      }
      i := i + 1;
    }
    SelectStops(w, s, i, limit, now, p, ids);
    return Success(Selection(selected, payload, full));
  }

  method PlanMatchBatch(w: World, candidates: seq<Candidate>, now: int, p: Policy, ids: Ids)
    returns (r: Result<Option<Batch>, PlanError>)
    ensures r == Plan(w, candidates, now, p, ids)
  {
    if !PolicyIsValid(p) {
      return Failure(ConfigurationInvalid);
    }
    if candidates == [] {
      return Success(None);
    }
    var ordered := SortCandidates(candidates);
    if ordered == [] {
      return Failure(InvalidCandidate);
    }
    var sound := AssertCandidates(ordered, now);
    if !sound {
      return Failure(InvalidCandidate);
    }
    if !w.isUuid(ids.event) || !w.isUuid(ids.batch) || !w.isUuid(ids.outbox) {
      return Failure(ConfigurationInvalid);
    }
    var selection := SelectBatch(w, ordered, now, p, ids);
    if selection.Failure? {
      return Failure(selection.error);
    }
    var count, payload := selection.value.count, selection.value.payload;
    if count == 0 || payload == "" {
      return Failure(InvalidCandidate);
    }
    if now - TimeOf(ordered[0]) < p.maximumAge && count != p.maximumResults && !selection.value.full {
      return Success(None);
    }
    return Success(Some(Batch(ids, EventOf(ordered, count, now, p, ids), payload, ordered[..count])));
  }

  /** Once the selection has failed or is full, later candidates make no difference. */
  lemma {:induction false} SelectStops(w: World, s: seq<Candidate>, n: nat, m: nat, now: int, p: Policy, ids: Ids)
    requires s != [] && n <= m <= |s| && p.maximumResults >= 1
    requires n == m || Select(w, s, n, now, p, ids).Failure? || Select(w, s, n, now, p, ids).value.full
    ensures Select(w, s, m, now, p, ids) == Select(w, s, n, now, p, ids)
  {
    if n < m {
      SelectStops(w, s, n, m - 1, now, p, ids);
    }
  }
}
