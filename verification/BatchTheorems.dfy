/** What every planned batch satisfies. */
module BatchTheorems {
  import opened Wrappers
  import opened BatchPlanner
  import Sorting

  // ---- Sorting ----------------------------------------------------------------------------------------

  predicate InOrder(s: seq<Candidate>) {
    Sorting.SortedBy(ComesBefore, s)
  }

  lemma SortSorts(s: seq<Candidate>)
    ensures InOrder(SortCandidates(s))
    ensures multiset(SortCandidates(s)) == multiset(s) && |SortCandidates(s)| == |s|
    ensures forall x :: x in SortCandidates(s) <==> x in s
  {
    Sorting.SortSorts(ComesBefore, s);
    Sorting.SortPermutes(ComesBefore, s);
  }

  // ---- The schema -------------------------------------------------------------------------------------

  /** What a planner needs to be given: valid names and results that are valid one by one. */
  predicate InputsAreValid(w: World, s: seq<Candidate>, p: Policy, ids: Ids) {
    && PolicyIsValid(p) && w.isUuid(ids.event) && w.isUuid(ids.batch) && w.isUuid(ids.outbox)
    && w.isAccount(p.publisher)
    && forall i :: 0 <= i < |s| ==> w.isResult(s[i].result)
  }

  /**
   Every event the planner ever tries satisfies the batch schema: the count matches, the results are in
   order and distinct, and all of them lie inside the half-open period.
   */
  lemma EveryEventFitsTheSchema(w: World, s: seq<Candidate>, n: nat, now: int, p: Policy, ids: Ids)
    requires InputsAreValid(w, s, p, ids) && AreSound(s, now) && InOrder(s)
    requires s != [] && 1 <= n <= Limit(s, p)
    ensures SchemaHolds(w, EventOf(s, n, now, p, ids))
  {
    var e := EventOf(s, n, now, p, ids);
    forall i | 0 <= i < n ensures e.periodStart <= e.results[i].completedAt < e.periodEnd {
      assert IsConsistent(s[i], now) && IsConsistent(s[0], now);
      assert i > 0 ==> ComesBefore(s[0], s[i]);
      var last := LastOfLimit(s, p);
      assert i < last ==> ComesBefore(s[i], s[last]);
    }
    forall i, j | 0 <= i < n && j == i + 1 && j < n ensures Precedes(e.results[i], e.results[j]) {
      assert ComesBefore(s[i], s[j]) && IsConsistent(s[i], now) && IsConsistent(s[j], now);
    }
    forall i, j | 0 <= i < j < n ensures e.results[i].round != e.results[j].round {
      assert IsConsistent(s[i], now) && IsConsistent(s[j], now);
    }
  }

  // ---- The longest prefix -----------------------------------------------------------------------------

  /** The event of the first `n` candidates is within both byte limits. */
  predicate Fits(w: World, s: seq<Candidate>, n: nat, now: int, p: Policy, ids: Ids)
    requires s != [] && n <= |s| && p.maximumResults >= 1
  {
    var size := w.bytes(w.text(EventOf(s, n, now, p, ids)));
    size <= HIVE_LIMIT && size <= p.maximumBytes
  }

  /** `k` candidates fit, as do all fewer, and one more does not or is beyond the limit. */
  predicate IsLongest(w: World, s: seq<Candidate>, k: nat, limit: nat, now: int, p: Policy, ids: Ids)
    requires s != [] && limit <= |s| && p.maximumResults >= 1
  {
    && 1 <= k <= limit
    && (forall j :: 1 <= j <= k ==> Fits(w, s, j, now, p, ids))
    && (k < limit ==> !Fits(w, s, k + 1, now, p, ids))
  }

  lemma {:induction false} SelectsLongest(w: World, s: seq<Candidate>, n: nat, now: int, p: Policy, ids: Ids)
    requires InputsAreValid(w, s, p, ids) && AreSound(s, now) && InOrder(s)
    requires s != [] && 1 <= n <= Limit(s, p)
    ensures var r := Select(w, s, n, now, p, ids);
            if !Fits(w, s, 1, now, p, ids) then r == Failure(PayloadTooLarge)
            else
              && r.Success? && IsLongest(w, s, r.value.count, n, now, p, ids)
              && (r.value.full <==> r.value.count < n)
              && r.value.payload == w.text(EventOf(s, r.value.count, now, p, ids))
  {
    EveryEventFitsTheSchema(w, s, n, now, p, ids);
    if n > 1 {
      SelectsLongest(w, s, n - 1, now, p, ids);
    } else {
      assert Select(w, s, 0, now, p, ids) == Success(Selection(0, "", false));
    }
  }

  /** Longer prefixes weigh no less; then the longest prefix is also the largest that fits. */
  ghost predicate WeighsMore(w: World, s: seq<Candidate>, now: int, p: Policy, ids: Ids)
    requires s != [] && p.maximumResults >= 1
  {
    forall i, j :: 0 <= i <= j <= |s| ==>
      w.bytes(w.text(EventOf(s, i, now, p, ids))) <= w.bytes(w.text(EventOf(s, j, now, p, ids)))
  }

  lemma LongestIsLargest(w: World, s: seq<Candidate>, k: nat, limit: nat, now: int, p: Policy, ids: Ids, j: nat)
    requires s != [] && limit <= |s| && p.maximumResults >= 1
    requires WeighsMore(w, s, now, p, ids) && IsLongest(w, s, k, limit, now, p, ids)
    requires 1 <= j <= limit
    ensures Fits(w, s, j, now, p, ids) <==> j <= k
  {
    if j > k {
      assert !Fits(w, s, k + 1, now, p, ids);
      var small, large := EventOf(s, k + 1, now, p, ids), EventOf(s, j, now, p, ids);
      assert w.bytes(w.text(small)) <= w.bytes(w.text(large));
    }
  }

  /**
   Batch planning, for all candidates that pass the identity checks: the outcome is an error exactly
   when the oldest candidate alone does not fit; nothing exactly when there is nothing, or all
   candidates fit together, are fewer than the limit and the oldest is still young; and else the
   longest fitting prefix of the sorted candidates, whose event satisfies the schema.
   */
  lemma PlanIsLongestPrefix(w: World, candidates: seq<Candidate>, now: int, p: Policy, ids: Ids)
    requires var s := SortCandidates(candidates); InputsAreValid(w, s, p, ids) && AreSound(s, now)
    requires candidates != []
    requires forall e: Event :: w.text(e) != ""
    ensures var s, r := SortCandidates(candidates), Plan(w, candidates, now, p, ids);
            && s != []
            && (if !Fits(w, s, 1, now, p, ids) then r == Failure(PayloadTooLarge)
                else
                  && r.Success?
                  && (r.value.None? <==>
                        && now - TimeOf(s[0]) < p.maximumAge && |s| < p.maximumResults
                        && IsLongest(w, s, |s|, |s|, now, p, ids))
                  && (r.value.Some? ==>
                        var b := r.value.value;
                        && 0 < |b.candidates| <= |s| && b.candidates == s[..|b.candidates|]
                        && IsLongest(w, s, |b.candidates|, Limit(s, p), now, p, ids)
                        && b.event == EventOf(s, |b.candidates|, now, p, ids) && SchemaHolds(w, b.event)
                        && b.payload == w.text(b.event)))
  {
    var s := SortCandidates(candidates);
    SortSorts(candidates);
    var limit := Limit(s, p);
    SelectsLongest(w, s, limit, now, p, ids);
    if Fits(w, s, 1, now, p, ids) {
      var k := Select(w, s, limit, now, p, ids).value.count;
      EveryEventFitsTheSchema(w, s, k, now, p, ids);
    }
  }

  /**
   What is in a planned batch, in terms of its own candidates: their results in order, counted, between
   the time of the oldest and now, under the ids and the publisher given. The period ends a millisecond
   after now exactly when one of the oldest candidates, up to the limit, was completed just now.
   */
  lemma EventIsStamped(w: World, candidates: seq<Candidate>, now: int, p: Policy, ids: Ids, b: Batch)
    requires Plan(w, candidates, now, p, ids) == Success(Some(b))
    ensures 1 <= |b.candidates| <= p.maximumResults && IsStamped(b.event, b.candidates, now, p.publisher, ids)
    ensures b.ids == ids && b.payload == w.text(b.event) && SchemaHolds(w, b.event)
    ensures w.bytes(b.payload) <= p.maximumBytes <= HIVE_LIMIT
    ensures b.event.periodEnd == if IsFresh(SortCandidates(candidates), p.maximumResults, now) then now + 1 else now
  {
    var s := SortCandidates(candidates);
    SortSorts(candidates);
    SelectIsWritten(w, s, Limit(s, p), now, p, ids);
    PeriodEndIs(s, now, p);
    forall i | 0 <= i < |b.candidates| ensures b.candidates[i] == s[i] {
    }
    assert IsConsistent(s[0], now);
  }

  /** One of the first `n` candidates was completed now. */
  predicate IsFresh(s: seq<Candidate>, n: int, now: int) {
    exists i :: 0 <= i < |s| && i < n && s[i].completedAt == Some(now)
  }

  /** The event says when, by whom and under which ids it was made, and holds the results of the candidates. */
  predicate IsStamped(e: Event, chosen: seq<Candidate>, now: int, publisher: string, ids: Ids) {
    && e.eventId == ids.event && e.batchId == ids.batch && e.occurredAt == now && e.publisher == publisher
    && e.resultCount == |chosen| == |e.results| && chosen != [] && Some(e.periodStart) == chosen[0].completedAt
    && forall i :: 0 <= i < |chosen| ==> e.results[i] == chosen[i].result
  }

  /** A selection is the text of an event that was tried and fits. */
  lemma {:induction false} SelectIsWritten(w: World, s: seq<Candidate>, n: nat, now: int, p: Policy, ids: Ids)
    requires s != [] && n <= |s| && p.maximumResults >= 1
    ensures var r := Select(w, s, n, now, p, ids);
            r.Success? ==> r.value.count <= n
    ensures var r := Select(w, s, n, now, p, ids);
            r.Success? && r.value.count > 0 ==>
              var e := EventOf(s, r.value.count, now, p, ids);
              r.value.payload == w.text(e) && SchemaHolds(w, e) && w.bytes(w.text(e)) <= p.maximumBytes
  {
    if n > 0 {
      SelectIsWritten(w, s, n - 1, now, p, ids);
    }
  }

  lemma PeriodEndIs(s: seq<Candidate>, now: int, p: Policy)
    requires s != [] && p.maximumResults >= 1 && InOrder(s) && AreSound(s, now)
    ensures PeriodEnd(s, now, p) == if IsFresh(s, p.maximumResults, now) then now + 1 else now
  {
    var last := LastOfLimit(s, p);
    assert IsConsistent(s[last], now);
    forall i | 0 <= i < |s| && i < p.maximumResults ensures TimeOf(s[i]) <= TimeOf(s[last]) {
      assert i < last ==> ComesBefore(s[i], s[last]);
    }
    if IsFresh(s, p.maximumResults, now) {
      var i :| 0 <= i < |s| && i < p.maximumResults && s[i].completedAt == Some(now);
      assert TimeOf(s[i]) == now;
    }
  }
}
