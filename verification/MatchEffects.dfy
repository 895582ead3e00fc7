/**
 What the events put into the view, field by field: the results of a batch, the two kinds of change, and
 what a projected result is after any sequence of events.
 */
module MatchEffects {
  import opened Wrappers
  import opened MatchView

  // ---- A batch --------------------------------------------------------------------------------------

  /** Position `p` is the first from `from` on with a known result of the round. */
  predicate IsFirstKnown(data: LocalData, event: Event, from: nat, round: string, p: nat)
    requires event.ResultsBatch?
  {
    && from <= p < |event.results| && PublishesAt(data, event, round, p)
    && forall q :: from <= q < p ==> !PublishesAt(data, event, round, q)
  }

  predicate PublishesAt(data: LocalData, event: Event, round: string, p: nat)
    requires event.ResultsBatch? && p < |event.results|
  {
    event.results[p].round == round && data.knows(event.results[p])
  }

  /** The batch holds a known result of the round. */
  predicate Publishes(data: LocalData, event: Event, round: string) {
    event.ResultsBatch? && exists p :: 0 <= p < |event.results| && PublishesAt(data, event, round, p)
  }

  /** The result is the one of position `p` of the batch, current and unchanged. */
  predicate IsResultAt(data: LocalData, event: Event, p: nat, result: MatchResult)
    requires event.ResultsBatch? && p < |event.results|
  {
    && result.initialEvent == event.id && result.currentEvent == event.id && result.batch == event.batch
    && result.position == p && result.published == event.results[p]
    && result.standing == Current && result.revision == data.revisionOf(event.results[p])
  }

  /** A round that has a result keeps it; another gets that of its first known position, if there is one. */
  ghost predicate IsRoundFilled(data: LocalData, view: View, event: Event, from: nat, next: View, round: string)
    requires event.ResultsBatch?
  {
    if round in view.results then round in next.results && next.results[round] == view.results[round]
    else
      && (round in next.results <==> exists p: nat :: IsFirstKnown(data, event, from, round, p))
      && forall p: nat :: IsFirstKnown(data, event, from, round, p) ==>
           round in next.results && IsResultAt(data, event, p, next.results[round])
  }

  /** `next` is `view` with a new result for every round that has none yet and a known result from `from` on. */
  ghost predicate IsFilled(data: LocalData, view: View, event: Event, from: nat, next: View)
    requires event.ResultsBatch?
  {
    next.changes == view.changes && forall round :: IsRoundFilled(data, view, event, from, next, round)
  }

  lemma {:induction false} BatchFills(data: LocalData, view: View, event: Event, from: nat)
    requires event.ResultsBatch? && from <= |event.results|
    ensures IsFilled(data, view, event, from, MaterializeResults(data, view, event, from))
    decreases |event.results| - from
  {
    if from < |event.results| {
      var published := event.results[from];
      if data.knows(published) && published.round !in view.results {
        var taken := view.(results := view.results[published.round :=
          MatchResult(event.id, event.batch, from, published, Current, event.id, data.revisionOf(published))]);
        BatchFills(data, taken, event, from + 1);
        FillsFromTaken(data, view, event, from, taken, MaterializeResults(data, view, event, from));
      } else {
        BatchFills(data, view, event, from + 1);
        FillsFromSkipped(data, view, event, from, MaterializeResults(data, view, event, from));
      }
    }
  }

  /** What is first after a position is first from it on, unless that position publishes the round. */
  lemma FirstSooner(data: LocalData, event: Event, from: nat, round: string, p: nat)
    requires event.ResultsBatch? && from < |event.results|
    ensures PublishesAt(data, event, round, from) ==> (IsFirstKnown(data, event, from, round, p) <==> p == from)
    ensures !PublishesAt(data, event, round, from) ==>
              (IsFirstKnown(data, event, from, round, p) <==> IsFirstKnown(data, event, from + 1, round, p))
  {
  }

  /** What a round is filled with does not depend on positions that do not publish it. */
  lemma FilledSooner(data: LocalData, view: View, event: Event, from: nat, next: View, round: string)
    requires event.ResultsBatch? && from < |event.results| && round !in view.results
    requires IsRoundFilled(data, view, event, from + 1, next, round) && !PublishesAt(data, event, round, from)
    ensures IsRoundFilled(data, view, event, from, next, round)
  {
    forall p: nat
      ensures IsFirstKnown(data, event, from, round, p) <==> IsFirstKnown(data, event, from + 1, round, p)
    {
      FirstSooner(data, event, from, round, p);
    }
    if round in next.results {
      var p: nat :| IsFirstKnown(data, event, from + 1, round, p);
      assert IsFirstKnown(data, event, from, round, p);
    }
  }

  lemma FilledHere(data: LocalData, view: View, event: Event, from: nat, next: View, round: string)
    requires event.ResultsBatch? && from < |event.results| && round !in view.results
    requires PublishesAt(data, event, round, from) && round in next.results
    requires IsResultAt(data, event, from, next.results[round])
    ensures IsRoundFilled(data, view, event, from, next, round)
  {
    assert IsFirstKnown(data, event, from, round, from);
    forall p: nat | IsFirstKnown(data, event, from, round, p) ensures p == from {
      FirstSooner(data, event, from, round, p);
    }
  }

  lemma FillsFromTaken(data: LocalData, view: View, event: Event, from: nat, taken: View, next: View)
    requires event.ResultsBatch? && from < |event.results|
    requires data.knows(event.results[from]) && event.results[from].round !in view.results
    requires var published := event.results[from];
             taken == view.(results := view.results[published.round :=
               MatchResult(event.id, event.batch, from, published, Current, event.id, data.revisionOf(published))])
    requires IsFilled(data, taken, event, from + 1, next)
    ensures IsFilled(data, view, event, from, next)
  {
    forall round ensures IsRoundFilled(data, view, event, from, next, round) {
      assert IsRoundFilled(data, taken, event, from + 1, next, round);
      if round == event.results[from].round {
        FilledHere(data, view, event, from, next, round);
      } else if round !in view.results {
        assert IsRoundFilled(data, view, event, from + 1, next, round);
        FilledSooner(data, view, event, from, next, round);
      }
    }
  }

  lemma FillsFromSkipped(data: LocalData, view: View, event: Event, from: nat, next: View)
    requires event.ResultsBatch? && from < |event.results|
    requires !data.knows(event.results[from]) || event.results[from].round in view.results
    requires IsFilled(data, view, event, from + 1, next)
    ensures IsFilled(data, view, event, from, next)
  {
    forall round ensures IsRoundFilled(data, view, event, from, next, round) {
      assert IsRoundFilled(data, view, event, from + 1, next, round);
      if round !in view.results {
        FilledSooner(data, view, event, from, next, round);
      }
    }
  }

  // ---- A change -------------------------------------------------------------------------------------

  /**
   The change takes effect: its result is projected, from the event it names as the original, its current
   event is the one to supersede, a correction has a matching revision, and the change is not recorded yet.
   */
  predicate TakesEffect(data: LocalData, view: View, event: Event) {
    && (event.ResultCorrected? || event.ResultInvalidated?)
    && event.round in view.results
    && view.results[event.round].initialEvent == event.original
    && view.results[event.round].currentEvent == event.supersedes
    && event.id !in view.changes
    && (event.ResultCorrected? ==> data.correctionOf(event.round, event.reason, event.replacement).Some?)
  }

  /** The change as it is recorded. */
  predicate IsRecorded(data: LocalData, event: Event, change: Change) {
    match event
    case ResultCorrected(_, round, _, original, supersedes, reason, replacement) =>
      && change.Correction? && change.round == round && change.original == original
      && change.supersedes == supersedes && change.reason == reason && change.replacement == replacement
      && data.correctionOf(round, reason, replacement) == Some(change.revision)
    case ResultInvalidated(_, round, _, original, supersedes, reason) =>
      && change.Invalidation? && change.round == round && change.original == original
      && change.supersedes == supersedes && change.reason == reason
    case _ => false
  }

  /** The result after the change: another current event and standing, a correction's revision, all else as before. */
  predicate IsChanged(data: LocalData, event: Event, before: MatchResult, after: MatchResult) {
    && after.initialEvent == before.initialEvent && after.batch == before.batch
    && after.position == before.position && after.published == before.published
    && after.currentEvent == event.id
    && (if event.ResultCorrected? then
          after.standing == Corrected
          && after.revision == data.correctionOf(event.round, event.reason, event.replacement)
        else after.standing == Invalidated && after.revision == before.revision)
  }

  /** A change has exactly its effect, or none. */
  lemma ChangeEffect(data: LocalData, view: View, event: Event)
    requires event.ResultCorrected? || event.ResultInvalidated?
    ensures var next := Materialize(data, view, event);
            if TakesEffect(data, view, event) then
              && next.changes.Keys == view.changes.Keys + {event.id} && next.results.Keys == view.results.Keys
              && (forall id :: id in view.changes ==> next.changes[id] == view.changes[id])
              && (forall round :: round in view.results && round != event.round ==>
                    next.results[round] == view.results[round])
              && IsRecorded(data, event, next.changes[event.id])
              && IsChanged(data, event, view.results[event.round], next.results[event.round])
            else next == view
  {
  }

  // ---- What is refused ------------------------------------------------------------------------------

  /**
   The change would be written, recorded or not, but names another batch than the one its result came from:
   the result is projected, from the event it names, its current event is the one to supersede, and a
   correction has a matching revision.
   */
  predicate IsStray(data: LocalData, view: View, event: Event) {
    && (event.ResultCorrected? || event.ResultInvalidated?)
    && event.round in view.results
    && view.results[event.round].initialEvent == event.original
    && view.results[event.round].currentEvent == event.supersedes
    && (event.ResultCorrected? ==> data.correctionOf(event.round, event.reason, event.replacement).Some?)
    && view.results[event.round].batch != event.originalBatch
  }

  predicate IsStrayAt(data: LocalData, view: View, events: seq<Event>, k: nat)
    requires k < |events|
  {
    IsStray(data, MaterializeAll(data, view, events[..k]), events[k])
  }

  /** Events are accepted exactly when none of them is stray in its turn. */
  lemma {:induction false} AcceptedIff(data: LocalData, view: View, events: seq<Event>)
    ensures AreAccepted(data, view, events) <==> forall k :: 0 <= k < |events| ==> !IsStrayAt(data, view, events, k)
  {
    if events != [] {
      var n := |events| - 1;
      AcceptedIff(data, view, events[..n]);
      forall k | 0 <= k < n ensures IsStrayAt(data, view, events[..n], k) <==> IsStrayAt(data, view, events, k) {
        assert events[..n][..k] == events[..k];
      }
      assert IsRefused(data, MaterializeAll(data, view, events[..n]), events[n]) <==> IsStrayAt(data, view, events, n);
    }
  }

  // ---- Over any events ------------------------------------------------------------------------------

  lemma AllButLast(data: LocalData, view: View, events: seq<Event>)
    requires events != []
    ensures MaterializeAll(data, view, events)
         == Materialize(data, MaterializeAll(data, view, events[..|events| - 1]), events[|events| - 1])
  {
  }

  /** Event `k` is the first to publish a known result of the round. */
  predicate IsFirstToPublish(data: LocalData, events: seq<Event>, round: string, k: nat) {
    && k < |events| && Publishes(data, events[k], round)
    && forall j :: 0 <= j < k ==> !Publishes(data, events[j], round)
  }

  lemma FirstToPublishGrows(data: LocalData, events: seq<Event>, round: string, k: nat)
    requires events != []
    ensures var n := |events| - 1;
            IsFirstToPublish(data, events, round, k) <==>
              || IsFirstToPublish(data, events[..n], round, k)
              || (k == n && Publishes(data, events[n], round) && forall j :: 0 <= j < n ==>
                    !Publishes(data, events[..n][j], round))
  {
    var n := |events| - 1;
    forall j | 0 <= j < n ensures events[..n][j] == events[j] {
    }
  }

  lemma {:induction false} SomeFirst(data: LocalData, events: seq<Event>, round: string, j: nat) returns (k: nat)
    requires j < |events| && Publishes(data, events[j], round)
    ensures k <= j && IsFirstToPublish(data, events, round, k)
  {
    if i :| 0 <= i < j && Publishes(data, events[i], round) {
      k := SomeFirst(data, events, round, i);
    } else {
      k := j;
    }
  }

  /** Whether the round is projected, and where its result comes from. */
  ghost predicate RoundComesFrom(data: LocalData, events: seq<Event>, view: View, round: string) {
    && (round in view.results <==> exists k: nat :: IsFirstToPublish(data, events, round, k))
    && forall k: nat :: IsFirstToPublish(data, events, round, k) ==>
         round in view.results && ComesFrom(data, events[k], round, view.results[round])
  }

  ghost predicate RoundsComeFrom(data: LocalData, events: seq<Event>, view: View) {
    forall round :: RoundComesFrom(data, events, view, round)
  }

  /** The fields of a result that no change touches are those of the first known result of the batch. */
  predicate ComesFrom(data: LocalData, event: Event, round: string, result: MatchResult) {
    && event.ResultsBatch? && result.initialEvent == event.id && result.batch == event.batch
    && IsFirstKnown(data, event, 0, round, result.position) && result.published == event.results[result.position]
  }

  /**
   The rounds that are projected after any events are those some batch published a known result of, and each
   result comes from the first position of the first such batch.
   */
  lemma {:induction false} ProjectedIffPublished(data: LocalData, events: seq<Event>)
    ensures RoundsComeFrom(data, events, MaterializeAll(data, EMPTY_VIEW, events))
  {
    if events != [] {
      var n := |events| - 1;
      var before := MaterializeAll(data, EMPTY_VIEW, events[..n]);
      ProjectedIffPublished(data, events[..n]);
      if events[n].ResultsBatch? {
        BatchFills(data, before, events[n], 0);
        BatchKeepsOrigin(data, events, before, MaterializeAll(data, EMPTY_VIEW, events));
      } else {
        if events[n].ResultCorrected? || events[n].ResultInvalidated? {
          ChangeEffect(data, before, events[n]);
        }
        ChangeKeepsOrigin(data, events, before, MaterializeAll(data, EMPTY_VIEW, events));
      }
    }
  }

  lemma FirstKnownIff(data: LocalData, event: Event, round: string)
    requires event.ResultsBatch?
    ensures Publishes(data, event, round) <==> exists p: nat :: IsFirstKnown(data, event, 0, round, p)
  {
    if Publishes(data, event, round) {
      var p :| 0 <= p < |event.results| && PublishesAt(data, event, round, p);
      var q := EarliestKnown(data, event, round, p);
    }
  }

  lemma {:induction false} EarliestKnown(data: LocalData, event: Event, round: string, p: nat) returns (q: nat)
    requires event.ResultsBatch? && p < |event.results| && PublishesAt(data, event, round, p)
    ensures IsFirstKnown(data, event, 0, round, q)
  {
    if i :| 0 <= i < p && PublishesAt(data, event, round, i) {
      q := EarliestKnown(data, event, round, i);
    } else {
      q := p;
    }
  }

  lemma BatchKeepsOrigin(data: LocalData, events: seq<Event>, before: View, after: View)
    requires events != [] && events[|events| - 1].ResultsBatch?
    requires RoundsComeFrom(data, events[..|events| - 1], before)
    requires IsFilled(data, before, events[|events| - 1], 0, after)
    ensures RoundsComeFrom(data, events, after)
  {
    forall round ensures RoundComesFrom(data, events, after, round) {
      assert RoundComesFrom(data, events[..|events| - 1], before, round);
      assert IsRoundFilled(data, before, events[|events| - 1], 0, after, round);
      if round in before.results {
        OldRoundKept(data, events, before, after, round);
      } else {
        NewRoundComes(data, events, before, after, round);
      }
    }
  }

  lemma OldRoundKept(data: LocalData, events: seq<Event>, before: View, after: View, round: string)
    requires events != [] && RoundComesFrom(data, events[..|events| - 1], before, round)
    requires round in before.results && round in after.results
    requires var a, b := before.results[round], after.results[round];
             b.initialEvent == a.initialEvent && b.batch == a.batch && b.position == a.position
             && b.published == a.published
    ensures RoundComesFrom(data, events, after, round)
  {
    var n := |events| - 1;
    var i: nat :| IsFirstToPublish(data, events[..n], round, i);
    forall k: nat ensures IsFirstToPublish(data, events, round, k) <==> IsFirstToPublish(data, events[..n], round, k) {
      FirstToPublishGrows(data, events, round, k);
    }
    forall k: nat | IsFirstToPublish(data, events, round, k)
      ensures ComesFrom(data, events[k], round, after.results[round])
    {
      assert ComesFrom(data, events[..n][k], round, before.results[round]);
    }
  }

  lemma NewRoundComes(data: LocalData, events: seq<Event>, before: View, after: View, round: string)
    requires events != [] && events[|events| - 1].ResultsBatch?
    requires RoundComesFrom(data, events[..|events| - 1], before, round) && round !in before.results
    requires IsRoundFilled(data, before, events[|events| - 1], 0, after, round)
    ensures RoundComesFrom(data, events, after, round)
  {
    var n := |events| - 1;
    FirstKnownIff(data, events[n], round);
    NobodyPublished(data, events[..n], before, round);
    forall k: nat ensures IsFirstToPublish(data, events, round, k) <==> k == n && Publishes(data, events[n], round) {
      FirstToPublishGrows(data, events, round, k);
    }
    assert Publishes(data, events[n], round) ==> IsFirstToPublish(data, events, round, n);
  }

  lemma NobodyPublished(data: LocalData, events: seq<Event>, view: View, round: string)
    requires RoundComesFrom(data, events, view, round) && round !in view.results
    ensures forall j :: 0 <= j < |events| ==> !Publishes(data, events[j], round)
  {
    forall j | 0 <= j < |events| ensures !Publishes(data, events[j], round) {
      if Publishes(data, events[j], round) {
        var k := SomeFirst(data, events, round, j);
      }
    }
  }

  lemma ChangeKeepsOrigin(data: LocalData, events: seq<Event>, before: View, after: View)
    requires events != [] && !events[|events| - 1].ResultsBatch?
    requires RoundsComeFrom(data, events[..|events| - 1], before) && after.results.Keys == before.results.Keys
    requires forall round :: round in before.results ==>
               && after.results[round].initialEvent == before.results[round].initialEvent
               && after.results[round].batch == before.results[round].batch
               && after.results[round].position == before.results[round].position
               && after.results[round].published == before.results[round].published
    ensures RoundsComeFrom(data, events, after)
  {
    var n := |events| - 1;
    forall round ensures RoundComesFrom(data, events, after, round) {
      assert RoundComesFrom(data, events[..n], before, round);
      assert round in after.results <==> round in before.results.Keys;
      if round in before.results {
        OldRoundKept(data, events, before, after, round);
      } else {
        NobodyPublished(data, events[..n], before, round);
        forall k: nat ensures !IsFirstToPublish(data, events, round, k) {
          FirstToPublishGrows(data, events, round, k);
        }
      }
    }
  }

  // ---- The standing of a result ---------------------------------------------------------------------

  /** Every recorded change is the record of one of the events. */
  ghost predicate ChangesComeFrom(data: LocalData, events: seq<Event>, view: View) {
    forall id :: id in view.changes ==>
      exists k :: 0 <= k < |events| && events[k].id == id && IsRecorded(data, events[k], view.changes[id])
  }

  /** The event of the round that took effect last, counted from one; zero if none did. */
  function LastEffect(data: LocalData, events: seq<Event>, round: string): nat {
    if events == [] then 0
    else
      var n := |events| - 1;
      if TakesEffect(data, MaterializeAll(data, EMPTY_VIEW, events[..n]), events[n]) && events[n].round == round then
        n + 1
      else LastEffect(data, events[..n], round)
  }

  /** The correction of the round that took effect last, counted from one; zero if none did. */
  function LastCorrection(data: LocalData, events: seq<Event>, round: string): nat {
    if events == [] then 0
    else
      var n := |events| - 1;
      if TakesEffect(data, MaterializeAll(data, EMPTY_VIEW, events[..n]), events[n]) && events[n].round == round
         && events[n].ResultCorrected? then n + 1
      else LastCorrection(data, events[..n], round)
  }

  /** The result as change `last` and correction `corrected` leave it; zero stands for none. */
  predicate Stands(data: LocalData, events: seq<Event>, last: nat, corrected: nat, result: MatchResult) {
    && last <= |events| && corrected <= |events|
    && (if last == 0 then result.currentEvent == result.initialEvent && result.standing == Current
        else
          && result.currentEvent == events[last - 1].id
          && result.standing == if events[last - 1].ResultCorrected? then Corrected else Invalidated)
    && (if corrected == 0 then result.revision == data.revisionOf(result.published)
        else
          var e := events[corrected - 1];
          e.ResultCorrected? && result.revision == data.correctionOf(e.round, e.reason, e.replacement))
  }

  /** Current event and standing are those of the last effective change, the revision that of the last correction. */
  predicate StandsAt(data: LocalData, events: seq<Event>, round: string, result: MatchResult) {
    Stands(data, events, LastEffect(data, events, round), LastCorrection(data, events, round), result)
  }

  lemma StandsLonger(data: LocalData, events: seq<Event>, n: nat, last: nat, corrected: nat, result: MatchResult)
    requires n <= |events| && Stands(data, events[..n], last, corrected, result)
    ensures Stands(data, events, last, corrected, result)
  {
  }

  lemma LastIsWithin(data: LocalData, events: seq<Event>, round: string)
    ensures LastEffect(data, events, round) <= |events| && LastCorrection(data, events, round) <= |events|
  {
    if events != [] {
      LastIsWithin(data, events[..|events| - 1], round);
    }
  }

  /**
   After any events, every projected result stands where the last change that took effect put it, with the
   revision of the last correction among them.
   */
  lemma {:induction false} ResultsStand(data: LocalData, events: seq<Event>, round: string)
    requires round in MaterializeAll(data, EMPTY_VIEW, events).results
    ensures StandsAt(data, events, round, MaterializeAll(data, EMPTY_VIEW, events).results[round])
  {
    if events != [] {
      var n := |events| - 1;
      var before := MaterializeAll(data, EMPTY_VIEW, events[..n]);
      LastIsWithin(data, events[..n], round);
      if round in before.results {
        ResultsStand(data, events[..n], round);
      } else {
        NoEffectBefore(data, events[..n], round);
      }
      if events[n].ResultsBatch? {
        BatchFills(data, before, events[n], 0);
        StandsAfterBatch(data, events, before, round);
      } else {
        StandsAfterChange(data, events, before, round);
      }
    }
  }

  /** The last event changes the counts only if it takes effect on the round. */
  lemma LastsGrow(data: LocalData, events: seq<Event>, round: string)
    requires events != []
    ensures var n := |events| - 1;
            var effective := TakesEffect(data, MaterializeAll(data, EMPTY_VIEW, events[..n]), events[n])
                             && events[n].round == round;
            && LastEffect(data, events, round) == (if effective then n + 1 else LastEffect(data, events[..n], round))
            && LastCorrection(data, events, round)
               == if effective && events[n].ResultCorrected? then n + 1 else LastCorrection(data, events[..n], round)
  {
  }

  lemma StandsAfterBatch(data: LocalData, events: seq<Event>, before: View, round: string)
    requires events != [] && before == MaterializeAll(data, EMPTY_VIEW, events[..|events| - 1])
    requires events[|events| - 1].ResultsBatch?
    requires var after := MaterializeAll(data, EMPTY_VIEW, events);
             round in after.results && IsRoundFilled(data, before, events[|events| - 1], 0, after, round)
    requires var earlier := events[..|events| - 1];
             if round in before.results then StandsAt(data, earlier, round, before.results[round])
             else LastEffect(data, earlier, round) == 0 && LastCorrection(data, earlier, round) == 0
    ensures StandsAt(data, events, round, MaterializeAll(data, EMPTY_VIEW, events).results[round])
  {
    var n, after := |events| - 1, MaterializeAll(data, EMPTY_VIEW, events);
    LastsGrow(data, events, round);
    if round in before.results {
      StandsLonger(data, events, n, LastEffect(data, events[..n], round), LastCorrection(data, events[..n], round),
                   before.results[round]);
    } else {
      FilledStands(data, before, events[n], after, round);
    }
  }

  lemma FilledStands(data: LocalData, before: View, event: Event, after: View, round: string)
    requires event.ResultsBatch? && round !in before.results && round in after.results
    requires IsRoundFilled(data, before, event, 0, after, round)
    ensures Stands(data, [], 0, 0, after.results[round])
  {
    var p: nat :| IsFirstKnown(data, event, 0, round, p);
    assert IsResultAt(data, event, p, after.results[round]);
  }

  lemma StandsAfterChange(data: LocalData, events: seq<Event>, before: View, round: string)
    requires events != [] && before == MaterializeAll(data, EMPTY_VIEW, events[..|events| - 1])
    requires !events[|events| - 1].ResultsBatch? && round in MaterializeAll(data, EMPTY_VIEW, events).results
    requires round in before.results ==> StandsAt(data, events[..|events| - 1], round, before.results[round])
    ensures StandsAt(data, events, round, MaterializeAll(data, EMPTY_VIEW, events).results[round])
  {
    var n := |events| - 1;
    LastsGrow(data, events, round);
    if events[n].ResultCorrected? || events[n].ResultInvalidated? {
      ChangeEffect(data, before, events[n]);
    }
    StandsLonger(data, events, n, LastEffect(data, events[..n], round), LastCorrection(data, events[..n], round),
                 before.results[round]);
  }

  /** A round that is not projected has seen no change. */
  lemma {:induction false} NoEffectBefore(data: LocalData, events: seq<Event>, round: string)
    requires round !in MaterializeAll(data, EMPTY_VIEW, events).results
    ensures LastEffect(data, events, round) == 0 && LastCorrection(data, events, round) == 0
  {
    if events != [] {
      var n := |events| - 1;
      var before := MaterializeAll(data, EMPTY_VIEW, events[..n]);
      if events[n].ResultsBatch? {
        BatchFills(data, before, events[n], 0);
      } else if events[n].ResultCorrected? || events[n].ResultInvalidated? {
        ChangeEffect(data, before, events[n]);
      }
      assert round !in before.results by {
        assert events[n].ResultsBatch? ==> IsRoundFilled(data, before, events[n], 0,
                                                         MaterializeAll(data, EMPTY_VIEW, events), round);
      }
      NoEffectBefore(data, events[..n], round);
    }
  }

  lemma {:induction false} ChangesAreRecorded(data: LocalData, events: seq<Event>)
    ensures ChangesComeFrom(data, events, MaterializeAll(data, EMPTY_VIEW, events))
  {
    if events != [] {
      var n := |events| - 1;
      var before, after := MaterializeAll(data, EMPTY_VIEW, events[..n]), MaterializeAll(data, EMPTY_VIEW, events);
      ChangesAreRecorded(data, events[..n]);
      if events[n].ResultsBatch? {
        BatchFills(data, before, events[n], 0);
      } else if events[n].ResultCorrected? || events[n].ResultInvalidated? {
        ChangeEffect(data, before, events[n]);
      }
      forall id | id in after.changes
        ensures exists k :: 0 <= k < |events| && events[k].id == id && IsRecorded(data, events[k], after.changes[id])
      {
        if id in before.changes && after.changes[id] == before.changes[id] {
          var k :| 0 <= k < n && events[..n][k].id == id && IsRecorded(data, events[..n][k], before.changes[id]);
          assert events[k] == events[..n][k];
        } else {
          assert events[n].id == id;
        }
      }
    }
  }
}
