/**
 The business view of match results: what the projector materialises from the events it has seen
 become irreversible, and the linear history that every projected result keeps.
 */
module MatchView {
  import opened Wrappers

  /** One public result inside a batch. The summary stands for its schema, map, server and hash. */
  datatype PublicResult = PublicResult(round: string, summary: string)

  datatype Event =
    | ResultsBatch(id: string, batch: string, results: seq<PublicResult>)
    | ResultCorrected(id: string, round: string, originalBatch: string, original: string, supersedes: string,
                      reason: string, replacement: PublicResult)
    | ResultInvalidated(id: string, round: string, originalBatch: string, original: string, supersedes: string,
                        reason: string)
    | CollectibleEvent(id: string)
  {
    predicate IsMatchEvent() {
      !CollectibleEvent?
    }
  }

  /** The local game data the queries join with, fixed for a whole run. */
  datatype LocalData = LocalData(
    knows: PublicResult -> bool,
    revisionOf: PublicResult -> Option<string>,
    correctionOf: (string, string, PublicResult) -> Option<string>)

  datatype Standing = Current | Corrected | Invalidated

  /** `batch` is the batch id of the initial event. */
  datatype MatchResult = MatchResult(initialEvent: string, batch: string, position: nat, published: PublicResult,
                                     standing: Standing, currentEvent: string, revision: Option<string>)

  datatype Change =
    | Correction(round: string, original: string, supersedes: string, reason: string,
                 replacement: PublicResult, revision: string)
    | Invalidation(round: string, original: string, supersedes: string, reason: string)

  /** `match_result`, keyed by round, and `match_result_change`, keyed by event. */
  datatype View = View(results: map<string, MatchResult>, changes: map<string, Change>)

  const EMPTY_VIEW := View(map[], map[])

  // ---- One event ------------------------------------------------------------------------------

  /** The results of a batch from position `from` on; a round that already has a result is skipped. */
  function MaterializeResults(data: LocalData, view: View, event: Event, from: nat): View
    requires event.ResultsBatch? && from <= |event.results|
    decreases |event.results| - from
  {
    if from == |event.results| then view
    else
      var published := event.results[from];
      var next :=
        if data.knows(published) && published.round !in view.results then
          view.(results := view.results[published.round :=
            MatchResult(event.id, event.batch, from, published, Current, event.id, data.revisionOf(published))])
        else view;
      MaterializeResults(data, next, event, from + 1)
  }

  /** True when the projected result of the round is the one the change event wants to supersede. */
  predicate Extends(view: View, round: string, original: string, supersedes: string) {
    && round in view.results
    && view.results[round].initialEvent == original
    && view.results[round].currentEvent == supersedes
  }

  function MaterializeCorrection(data: LocalData, view: View, event: Event): View
    requires event.ResultCorrected?
  {
    var revision := data.correctionOf(event.round, event.reason, event.replacement);
    if !Extends(view, event.round, event.original, event.supersedes) || revision.None? || event.id in view.changes
    then view
    else
      View(
        view.results[event.round := view.results[event.round]
          .(currentEvent := event.id, standing := Corrected, revision := Some(revision.value))],
        view.changes[event.id := Correction(event.round, event.original, event.supersedes, event.reason,
                                            event.replacement, revision.value)])
  }

  function MaterializeInvalidation(view: View, event: Event): View
    requires event.ResultInvalidated?
  {
    if !Extends(view, event.round, event.original, event.supersedes) || event.id in view.changes
    then view
    else
      View(
        view.results[event.round := view.results[event.round]
          .(currentEvent := event.id, standing := Invalidated)],
        view.changes[event.id := Invalidation(event.round, event.original, event.supersedes, event.reason)])
  }

  function Materialize(data: LocalData, view: View, event: Event): View {
    match event
    case ResultsBatch(_, _, _) => MaterializeResults(data, view, event, 0)
    case ResultCorrected(_, _, _, _, _, _, _) => MaterializeCorrection(data, view, event)
    case ResultInvalidated(_, _, _, _, _, _) => MaterializeInvalidation(view, event)
    case CollectibleEvent(_) => view
  }

  /** The view after a whole sequence of events, oldest first. */
  function MaterializeAll(data: LocalData, view: View, events: seq<Event>): View {
    if events == [] then view
    else Materialize(data, MaterializeAll(data, view, events[..|events| - 1]), events[|events| - 1])
  }

  lemma {:induction false} MaterializeAllConcat(data: LocalData, view: View, first: seq<Event>, second: seq<Event>)
    ensures MaterializeAll(data, view, first + second)
         == MaterializeAll(data, MaterializeAll(data, view, first), second)
  {
    if second == [] {
      assert first + second == first;
    } else {
      var n := |second| - 1;
      assert (first + second)[..|first + second| - 1] == first + second[..n];
      MaterializeAllConcat(data, view, first, second[..n]);
    }
  }

  // ---- What the database refuses ------------------------------------------------------------------

  /** A change that would take effect must name the batch of the original event. */
  predicate IsRefused(data: LocalData, view: View, event: Event) {
    match event
    case ResultCorrected(_, _, _, _, _, _, _) =>
      && Extends(view, event.round, event.original, event.supersedes)
      && data.correctionOf(event.round, event.reason, event.replacement).Some?
      && view.results[event.round].batch != event.originalBatch
    case ResultInvalidated(_, _, _, _, _, _) =>
      && Extends(view, event.round, event.original, event.supersedes)
      && view.results[event.round].batch != event.originalBatch
    case _ => false
  }

  /** None of the events is refused when its turn comes. */
  predicate AreAccepted(data: LocalData, view: View, events: seq<Event>) {
    events != [] ==>
      var n := |events| - 1;
      && AreAccepted(data, view, events[..n])
      && !IsRefused(data, MaterializeAll(data, view, events[..n]), events[n])
  }

  lemma {:induction false} AcceptedConcat(data: LocalData, view: View, first: seq<Event>, second: seq<Event>)
    ensures AreAccepted(data, view, first + second)
       <==> AreAccepted(data, view, first) && AreAccepted(data, MaterializeAll(data, view, first), second)
  {
    if second == [] {
      assert first + second == first;
    } else {
      var n := |second| - 1;
      assert (first + second)[..|first + second| - 1] == first + second[..n];
      AcceptedConcat(data, view, first, second[..n]);
      MaterializeAllConcat(data, view, first, second[..n]);
    }
  }

  /** The event is the one its id stands for, and a change names the batch its original event was in. */
  predicate IsHonest(event: Event, payload: string -> Event) {
    && event == payload(event.id)
    && (event.ResultCorrected? || event.ResultInvalidated? ==>
          payload(event.original).ResultsBatch? ==> payload(event.original).batch == event.originalBatch)
  }

  /** Every result knows the batch of its initial event. */
  predicate ViewFits(view: View, payload: string -> Event) {
    forall round :: round in view.results ==>
      var initial := payload(view.results[round].initialEvent);
      initial.ResultsBatch? && initial.batch == view.results[round].batch
  }

  lemma {:induction false} ResultsKeepFit(data: LocalData, view: View, event: Event, from: nat,
                                          payload: string -> Event)
    requires event.ResultsBatch? && from <= |event.results|
    requires ViewFits(view, payload) && event == payload(event.id)
    ensures ViewFits(MaterializeResults(data, view, event, from), payload)
    decreases |event.results| - from
  {
    if from < |event.results| {
      var published := event.results[from];
      if data.knows(published) && published.round !in view.results {
        var next := view.(results := view.results[published.round :=
          MatchResult(event.id, event.batch, from, published, Current, event.id, data.revisionOf(published))]);
        ResultsKeepFit(data, next, event, from + 1, payload);
      } else {
        ResultsKeepFit(data, view, event, from + 1, payload);
      }
    }
  }

  /** Honest events are never refused. */
  lemma {:induction false} HonestAreAccepted(data: LocalData, view: View, events: seq<Event>, payload: string -> Event)
    requires ViewFits(view, payload) && forall i :: 0 <= i < |events| ==> IsHonest(events[i], payload)
    ensures AreAccepted(data, view, events) && ViewFits(MaterializeAll(data, view, events), payload)
  {
    if events != [] {
      var n := |events| - 1;
      HonestAreAccepted(data, view, events[..n], payload);
      if events[n].ResultsBatch? {
        ResultsKeepFit(data, MaterializeAll(data, view, events[..n]), events[n], 0, payload);
      }
    }
  }

  // ---- Linear history ---------------------------------------------------------------------------

  predicate Distinct(ids: seq<string>) {
    forall i, j :: 0 <= i < j < |ids| ==> ids[i] != ids[j]
  }

  function Ids(events: seq<Event>): (ids: seq<string>)
    ensures |ids| == |events|
    ensures forall i :: 0 <= i < |events| ==> ids[i] == events[i].id
  {
    seq(|events|, i requires 0 <= i < |events| => events[i].id)
  }

  /**
   `path` is the whole history of the round's result: it starts at the initial event, ends at the
   current one, repeats nothing, every later event is a recorded change of this round superseding
   the one just before it, and no recorded change of the round lies off the path.
   */
  ghost predicate IsHistory(view: View, round: string, path: seq<string>) {
    && round in view.results
    && path != []
    && path[0] == view.results[round].initialEvent
    && path[|path| - 1] == view.results[round].currentEvent
    && Distinct(path)
    && (forall k :: 1 <= k < |path| ==> Links(view, round, path, k))
    && (forall id :: id in view.changes && view.changes[id].round == round ==> id in path[1..])
    && view.results[round].standing == StandingAfter(view, path[|path| - 1], |path| == 1)
  }

  /** The standing of a result whose latest event is `head`. */
  function StandingAfter(view: View, head: string, untouched: bool): Standing {
    if untouched then Current
    else if head in view.changes && view.changes[head].Correction? then Corrected
    else Invalidated
  }

  ghost predicate Links(view: View, round: string, path: seq<string>, k: int)
    requires 1 <= k < |path|
  {
    && path[k] in view.changes
    && view.changes[path[k]].round == round
    && view.changes[path[k]].original == path[0]
    && view.changes[path[k]].supersedes == path[k - 1]
  }

  /** Every event id the view mentions comes from `seen`; used to know that the next one is new. */
  ghost predicate MentionsOnly(view: View, seen: set<string>) {
    && (forall id :: id in view.changes ==> id in seen && view.changes[id].round in view.results)
    && (forall round :: round in view.results ==>
          view.results[round].initialEvent in seen && view.results[round].currentEvent in seen)
  }

  ghost predicate Linear(view: View, seen: set<string>) {
    && MentionsOnly(view, seen)
    && forall round :: round in view.results ==> HasHistory(view, round, seen)
  }

  ghost predicate HasHistory(view: View, round: string, seen: set<string>) {
    exists path :: IsHistory(view, round, path) && OnlyFrom(path, seen)
  }

  ghost predicate OnlyFrom(path: seq<string>, seen: set<string>) {
    forall id :: id in path ==> id in seen
  }

  /** A history survives any change of the view that touches neither the round nor its changes. */
  lemma HistoryFrame(view: View, next: View, round: string, path: seq<string>)
    requires IsHistory(view, round, path)
    requires round in next.results && next.results[round] == view.results[round]
    requires forall id :: id in view.changes ==> id in next.changes && next.changes[id] == view.changes[id]
    requires forall id :: id in next.changes && next.changes[id].round == round ==> id in view.changes
    ensures IsHistory(next, round, path)
  {
    forall k | 1 <= k < |path| ensures Links(next, round, path, k) {
      assert Links(view, round, path, k);
    }
    if |path| > 1 {
      assert Links(view, round, path, |path| - 1);
    }
  }

  lemma {:induction false} ResultsKeepLinear(data: LocalData, view: View, event: Event, from: nat, seen: set<string>)
    requires event.ResultsBatch? && from <= |event.results|
    requires Linear(view, seen) && event.id in seen
    ensures Linear(MaterializeResults(data, view, event, from), seen)
    decreases |event.results| - from
  {
    if from < |event.results| {
      var published := event.results[from];
      if data.knows(published) && published.round !in view.results {
        var next := view.(results := view.results[published.round :=
          MatchResult(event.id, event.batch, from, published, Current, event.id, data.revisionOf(published))]);
        forall round | round in next.results
          ensures HasHistory(next, round, seen)
        {
          if round == published.round {
            assert IsHistory(next, round, [event.id]) && OnlyFrom([event.id], seen);
          } else {
            var path :| IsHistory(view, round, path) && OnlyFrom(path, seen);
            HistoryFrame(view, next, round, path);
          }
        }
        ResultsKeepLinear(data, next, event, from + 1, seen);
      } else {
        ResultsKeepLinear(data, view, event, from + 1, seen);
      }
    }
  }

  /** `next` appends the change `id` to the head of the round's history and touches nothing else. */
  ghost predicate AppendsChange(view: View, next: View, round: string, id: string) {
    && round in view.results && id !in view.changes
    && next.changes.Keys == view.changes.Keys + {id}
    && (forall other :: other in view.changes ==> next.changes[other] == view.changes[other])
    && next.changes[id].round == round
    && next.changes[id].original == view.results[round].initialEvent
    && next.changes[id].supersedes == view.results[round].currentEvent
    && next.results.Keys == view.results.Keys
    && (forall other :: other in view.results && other != round ==> next.results[other] == view.results[other])
    && next.results[round].initialEvent == view.results[round].initialEvent
    && next.results[round].currentEvent == id
    && next.results[round].standing == StandingAfter(next, id, false)
  }

  lemma HistoryGrows(view: View, next: View, round: string, id: string, path: seq<string>)
    requires AppendsChange(view, next, round, id)
    requires IsHistory(view, round, path) && id !in path
    ensures IsHistory(next, round, path + [id])
  {
    var longer := path + [id];
    forall k | 1 <= k < |longer| ensures Links(next, round, longer, k) {
      if k < |path| {
        assert Links(view, round, path, k);
      }
    }
    assert longer[1..] == path[1..] + [id];
    forall other | other in next.changes && next.changes[other].round == round
      ensures other in longer[1..]
    {
      if other != id {
        assert other in view.changes && other in path[1..];
      }
    }
  }

  lemma ChangeKeepsLinear(view: View, next: View, round: string, id: string, seen: set<string>)
    requires Linear(view, seen) && id !in seen
    requires AppendsChange(view, next, round, id)
    ensures Linear(next, seen + {id})
  {
    forall other | other in next.results ensures HasHistory(next, other, seen + {id}) {
      assert HasHistory(view, other, seen);
      var path :| IsHistory(view, other, path) && OnlyFrom(path, seen);
      if other == round {
        HistoryGrows(view, next, round, id, path);
        assert OnlyFrom(path + [id], seen + {id});
      } else {
        HistoryFrame(view, next, other, path);
        assert OnlyFrom(path, seen + {id});
      }
    }
  }

  lemma LinearGrows(view: View, seen: set<string>, more: set<string>)
    requires Linear(view, seen) && seen <= more
    ensures Linear(view, more)
  {
    forall round | round in view.results
      ensures HasHistory(view, round, more)
    {
      var path :| IsHistory(view, round, path) && OnlyFrom(path, seen);
      assert OnlyFrom(path, more);
    }
  }

  lemma CorrectionAppends(data: LocalData, view: View, event: Event)
    requires event.ResultCorrected?
    ensures MaterializeCorrection(data, view, event) == view
         || AppendsChange(view, MaterializeCorrection(data, view, event), event.round, event.id)
  {
  }

  lemma InvalidationAppends(view: View, event: Event)
    requires event.ResultInvalidated?
    ensures MaterializeInvalidation(view, event) == view
         || AppendsChange(view, MaterializeInvalidation(view, event), event.round, event.id)
  {
  }

  lemma MaterializeKeepsLinear(data: LocalData, view: View, event: Event, seen: set<string>)
    requires Linear(view, seen) && event.id !in seen
    ensures Linear(Materialize(data, view, event), seen + {event.id})
  {
    var next := Materialize(data, view, event);
    match event
    case ResultsBatch(_, _, _) =>
      LinearGrows(view, seen, seen + {event.id});
      ResultsKeepLinear(data, view, event, 0, seen + {event.id});
    case ResultCorrected(_, _, _, _, _, _, _) =>
      CorrectionAppends(data, view, event);
      if next == view {
        LinearGrows(view, seen, seen + {event.id});
      } else {
        ChangeKeepsLinear(view, next, event.round, event.id, seen);
      }
    case ResultInvalidated(_, _, _, _, _, _) =>
      InvalidationAppends(view, event);
      if next == view {
        LinearGrows(view, seen, seen + {event.id});
      } else {
        ChangeKeepsLinear(view, next, event.round, event.id, seen);
      }
    case CollectibleEvent(_) =>
      LinearGrows(view, seen, seen + {event.id});
  }

  /**
   Linear history: whatever the order and content of the events, as long as no event is
   materialised twice, the changes of every projected result form one path without branch or cycle
   from its initial event to its current event.
   */
  lemma {:induction false} HistoryIsLinear(data: LocalData, events: seq<Event>)
    requires Distinct(Ids(events))
    ensures Linear(MaterializeAll(data, EMPTY_VIEW, events), set id | id in Ids(events))
  {
    if events != [] {
      var n := |events| - 1;
      var earlier := events[..n];
      assert Ids(earlier) == Ids(events)[..n];
      HistoryIsLinear(data, earlier);
      var seen := set id | id in Ids(earlier);
      assert Ids(events) == Ids(earlier) + [events[n].id];
      assert (set id | id in Ids(events)) == seen + {events[n].id};
      MaterializeKeepsLinear(data, MaterializeAll(data, EMPTY_VIEW, earlier), events[n], seen);
    }
  }

  /** The path is unique, so it really is the history and not one of several. */
  lemma HistoryIsUnique(view: View, round: string, a: seq<string>, b: seq<string>)
    requires IsHistory(view, round, a) && IsHistory(view, round, b)
    ensures a == b
  {
    // Were one path shorter, the longer one would visit the initial event twice.
    if |a| < |b| {
      HistoryAgrees(view, round, a, b, |a| - 1);
      assert false;
    } else if |b| < |a| {
      HistoryAgrees(view, round, a, b, |b| - 1);
      assert false;
    }
    forall i | 0 <= i < |a| ensures a[i] == b[i] {
      HistoryAgrees(view, round, a, b, |a| - 1 - i);
    }
  }

  lemma {:induction false} HistoryAgrees(view: View, round: string, a: seq<string>, b: seq<string>, k: nat)
    requires IsHistory(view, round, a) && IsHistory(view, round, b)
    requires k < |a| && k < |b|
    ensures a[|a| - 1 - k] == b[|b| - 1 - k]
  {
    if k > 0 {
      HistoryAgrees(view, round, a, b, k - 1);
      assert Links(view, round, a, |a| - k) && Links(view, round, b, |b| - k);
    }
  }
}
