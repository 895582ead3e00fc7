/**
 Where the hypotheses on runs end: for each of them the exact condition, and the smallest input that
 fails it.
 */
module ProjectionLimits {
  import opened Wrappers
  import opened MatchView
  import opened ProjectionTables
  import opened ProjectionChain
  import opened ProjectionRuns
  import opened ProjectionTheorems
  import Sorting

  const ROUND := PublicResult("g", "s")
  const FIRST_BATCH := ResultsBatch("e", "b", [ROUND])
  const OTHER_BATCH := ResultsBatch("f", "b", [PublicResult("h", "s")])
  const LATER_BATCH := ResultsBatch("f", "l", [PublicResult("h", "s")])
  const EARLY_CHANGE := ResultCorrected("d", "g", "b", "e", "c", "w", ROUND)
  const LATE_CHANGE := ResultCorrected("c", "g", "b", "e", "e", "w", ROUND)
  const FIRST_BLOCK := Block(1, "h", "", "")

  function Published1(index: nat, sourceId: string, event: Event): Decision {
    Decision(Operation(sourceId, None, index, false, 1, "", "", ""), Accepted(event))
  }

  function KnowsAll(): LocalData {
    LocalData((p: PublicResult) => true, (p: PublicResult) => Some("r"),
              (round: string, reason: string, p: PublicResult) => Some("r"))
  }
  const SECOND_BLOCK := Block(2, "k", "h", "")

  // ---- Events that are refused ----------------------------------------------------------------------

  const STRAY_CHANGE := ResultInvalidated("i", "g", "x", "e", "e", "w")

  /** The smallest such chain: a batch, and an invalidation that names another batch than that. */
  lemma SmallestRefusal()
    ensures AreAccepted(KnowsAll(), EMPTY_VIEW, [FIRST_BATCH])
    ensures !AreAccepted(KnowsAll(), EMPTY_VIEW, [FIRST_BATCH, STRAY_CHANGE])
  {
    var events := [FIRST_BATCH, STRAY_CHANGE];
    assert events[..1] == [FIRST_BATCH] && [FIRST_BATCH][..0] == [];
    var first := EMPTY_VIEW.(results := EMPTY_VIEW.results["g" :=
      MatchResult("e", "b", 0, ROUND, Current, "e", Some("r"))]);
    assert MaterializeResults(KnowsAll(), EMPTY_VIEW, FIRST_BATCH, 0)
        == MaterializeResults(KnowsAll(), first, FIRST_BATCH, 1) == first;
    assert MaterializeAll(KnowsAll(), EMPTY_VIEW, [FIRST_BATCH]) == first;
  }

  // ---- Events that share a batch id -----------------------------------------------------------------

  /** An event without a binding gets one exactly when no other event holds its batch id. */
  lemma BoundIffBatchFree(t: Tables, checkpoint: nat, decision: Decision)
    requires InsertOperation(t, checkpoint, decision).Success?
    requires decision.Publishes() && decision.verdict.event.id !in t.bindings
    ensures decision.verdict.event.id in InsertOperation(t, checkpoint, decision).value.bindings
       <==> !BatchTaken(t.bindings, decision.verdict.event)
  {
    assert BindEvent(t.bindings, decision.verdict.event, |t.rows|).Success?;
  }

  /** An event id stands for one payload. */
  predicate HasPayload(payload: string -> Event, decision: Decision) {
    decision.Publishes() ==> decision.verdict.event == payload(decision.verdict.event.id)
  }

  predicate SharesBatch(row: Row, event: Event) {
    && row.decision.Publishes() && row.decision.verdict.event.ResultsBatch?
    && event.ResultsBatch? && row.decision.verdict.event.batch == event.batch
  }

  /** Row `f` publishes the event, and no row before it, live or reverted, published its batch id. */
  predicate OpensBatch(rows: seq<Row>, f: nat, id: string, payload: string -> Event) {
    && f < |rows| && rows[f].decision.Carries(id)
    && forall k :: 0 <= k < f ==> !SharesBatch(rows[k], payload(id))
  }

  ghost predicate IsFirstOfBatch(rows: seq<Row>, id: string, payload: string -> Event) {
    exists f: nat :: OpensBatch(rows, f, id, payload)
  }

  /** The events that are bound are those that came first with their batch id. */
  ghost predicate BindsFirst(t: Tables, payload: string -> Event) {
    && (forall r :: 0 <= r < |t.rows| ==> HasPayload(payload, t.rows[r].decision))
    && (forall id :: id in t.bindings ==> t.bindings[id].batch == BatchOf(payload(id)))
    && (forall id :: id in t.bindings <==> IsFirstOfBatch(t.rows, id, payload))
  }

  lemma FirstGrows(rows: seq<Row>, row: Row, id: string, payload: string -> Event)
    ensures IsFirstOfBatch(rows + [row], id, payload)
       <==> IsFirstOfBatch(rows, id, payload) || OpensBatch(rows + [row], |rows|, id, payload)
  {
    var longer := rows + [row];
    if IsFirstOfBatch(rows, id, payload) {
      var f: nat :| OpensBatch(rows, f, id, payload);
      assert OpensBatch(longer, f, id, payload);
    }
    if IsFirstOfBatch(longer, id, payload) {
      var f: nat :| OpensBatch(longer, f, id, payload);
      assert f < |rows| ==> OpensBatch(rows, f, id, payload) by {
        forall k | 0 <= k < f && f < |rows| ensures !SharesBatch(rows[k], payload(id)) {
          assert longer[k] == rows[k];
        }
      }
    }
  }

  /** The first row that publishes a batch id, if one does. */
  lemma {:induction false} FirstSharing(rows: seq<Row>, event: Event, n: nat) returns (f: nat)
    requires n <= |rows| && exists k :: 0 <= k < n && SharesBatch(rows[k], event)
    ensures f < n && SharesBatch(rows[f], event) && forall k :: 0 <= k < f ==> !SharesBatch(rows[k], event)
  {
    if exists k :: 0 <= k < n - 1 && SharesBatch(rows[k], event) {
      f := FirstSharing(rows, event, n - 1);
    } else {
      f := n - 1;
    }
  }

  /** A batch id is taken exactly when some row has published it. */
  lemma TakenIff(t: Tables, payload: string -> Event, event: Event)
    requires BindsFirst(t, payload) && event.ResultsBatch?
    ensures BatchTaken(t.bindings, event) <==> exists k :: 0 <= k < |t.rows| && SharesBatch(t.rows[k], event)
  {
    if BatchTaken(t.bindings, event) {
      var id :| id in t.bindings && t.bindings[id].batch == Some(event.batch);
      var f: nat :| OpensBatch(t.rows, f, id, payload);
      assert HasPayload(payload, t.rows[f].decision);
      assert SharesBatch(t.rows[f], event);
    }
    if exists k :: 0 <= k < |t.rows| && SharesBatch(t.rows[k], event) {
      var f := FirstSharing(t.rows, event, |t.rows|);
      var id := t.rows[f].decision.verdict.event.id;
      assert HasPayload(payload, t.rows[f].decision);
      assert OpensBatch(t.rows, f, id, payload);
      assert t.bindings[id].batch == Some(event.batch);
    }
  }

  lemma InsertBindsFirst(t: Tables, checkpoint: nat, decision: Decision, payload: string -> Event)
    requires BindsFirst(t, payload) && HasPayload(payload, decision)
    requires InsertOperation(t, checkpoint, decision).Success?
    ensures BindsFirst(InsertOperation(t, checkpoint, decision).value, payload)
  {
    var after, row := InsertOperation(t, checkpoint, decision).value, Row(checkpoint, decision, Included, None);
    assert after.rows == t.rows + [row];
    forall id ensures id in after.bindings <==> IsFirstOfBatch(after.rows, id, payload) {
      FirstGrows(t.rows, row, id, payload);
      if decision.Carries(id) {
        NewRowOpensIff(t, row, id, payload);
      }
    }
  }

  lemma NewRowOpensIff(t: Tables, row: Row, id: string, payload: string -> Event)
    requires BindsFirst(t, payload) && HasPayload(payload, row.decision) && row.decision.Carries(id)
    ensures OpensBatch(t.rows + [row], |t.rows|, id, payload) <==> !BatchTaken(t.bindings, row.decision.verdict.event)
  {
    var longer, event := t.rows + [row], row.decision.verdict.event;
    if event.ResultsBatch? {
      TakenIff(t, payload, event);
    }
    forall k | 0 <= k < |t.rows| ensures longer[k] == t.rows[k] {
    }
  }

  lemma {:induction false} InsertAllBindFirst(t: Tables, checkpoint: nat, decisions: seq<Decision>,
                                              payload: string -> Event)
    requires BindsFirst(t, payload) && forall k :: 0 <= k < |decisions| ==> HasPayload(payload, decisions[k])
    requires InsertOperations(t, checkpoint, decisions).Success?
    ensures BindsFirst(InsertOperations(t, checkpoint, decisions).value, payload)
  {
    if decisions != [] {
      var n := |decisions| - 1;
      InsertAllBindFirst(t, checkpoint, decisions[..n], payload);
      InsertBindsFirst(InsertOperations(t, checkpoint, decisions[..n]).value, checkpoint, decisions[n], payload);
    }
  }

  /** Neither the decisions of the rows nor the keys and batch ids of the bindings have changed. */
  predicate SameEvidence(before: Tables, after: Tables) {
    && |after.rows| == |before.rows|
    && (forall r :: 0 <= r < |before.rows| ==> after.rows[r].decision == before.rows[r].decision)
    && after.bindings.Keys == before.bindings.Keys
    && forall id :: id in before.bindings ==> after.bindings[id].batch == before.bindings[id].batch
  }

  lemma SameEvidenceOpens(before: Tables, after: Tables, f: nat, id: string, payload: string -> Event)
    requires SameEvidence(before, after)
    ensures OpensBatch(after.rows, f, id, payload) <==> OpensBatch(before.rows, f, id, payload)
  {
  }

  lemma SameEvidenceBinds(before: Tables, after: Tables, payload: string -> Event)
    requires BindsFirst(before, payload) && SameEvidence(before, after)
    ensures BindsFirst(after, payload)
  {
    forall id ensures id in after.bindings <==> IsFirstOfBatch(after.rows, id, payload) {
      forall f: nat ensures OpensBatch(after.rows, f, id, payload) <==> OpensBatch(before.rows, f, id, payload) {
        SameEvidenceOpens(before, after, f, id, payload);
      }
    }
  }

  predicate StepHasPayloads(payload: string -> Event, step: Step) {
    step.Apply? ==> forall k :: 0 <= k < |step.decisions| ==> HasPayload(payload, step.decisions[k])
  }

  lemma ApplyBindsFirst(t: Tables, block: Block, decisions: seq<Decision>, payload: string -> Event)
    requires BindsFirst(t, payload) && forall k :: 0 <= k < |decisions| ==> HasPayload(payload, decisions[k])
    requires ApplyBlock(t, block, decisions).Success?
    ensures BindsFirst(ApplyBlock(t, block, decisions).value, payload)
  {
    var started := t.(checkpoints := t.checkpoints + [Checkpoint(block, Included)]);
    SameEvidenceBinds(t, started, payload);
    InsertAllBindFirst(started, |t.checkpoints|, decisions, payload);
    SameEvidenceBinds(InsertOperations(started, |t.checkpoints|, decisions).value,
                      ApplyBlock(t, block, decisions).value, payload);
  }

  lemma StepBindsFirst(data: LocalData, t: Tables, step: Step, payload: string -> Event)
    requires BindsFirst(t, payload) && StepHasPayloads(payload, step)
    ensures BindsFirst(Do(data, t, step), payload)
  {
    if Attempt(data, t, step).Success? {
      match step
      case Apply(block, decisions) => ApplyBindsFirst(t, block, decisions, payload);
      case _ => SameEvidenceBinds(t, Do(data, t, step), payload);
    }
  }

  /**
   The exact condition for a binding, over whole runs: whatever is applied, reverted and finalised, an event
   is bound if and only if no other event was recorded with its batch id before it, on whatever branch.
   */
  lemma {:induction false} RunBindsFirst(data: LocalData, steps: seq<Step>, payload: string -> Event)
    requires forall k :: 0 <= k < |steps| ==> StepHasPayloads(payload, steps[k])
    ensures BindsFirst(Run(data, steps), payload)
  {
    if steps != [] {
      var n := |steps| - 1;
      RunBindsFirst(data, steps[..n], payload);
      StepBindsFirst(data, Run(data, steps[..n]), steps[n], payload);
    }
  }

  /**
   Two events that share a batch id: the second is accepted, live and the only one with its id, yet
   it is bound to nothing. This is the input the hypothesis on batch ids excludes.
   */
  lemma SharedBatchStaysUnbound()
    ensures var decisions := [Published1(0, "1", FIRST_BATCH), Published1(1, "2", OTHER_BATCH)];
            var t := Run(KnowsAll(), [Apply(FIRST_BLOCK, decisions)]);
            |t.rows| == 2 && LiveCarrier(t.rows[1], "f") && "f" !in t.bindings
  {
    var decisions := [Published1(0, "1", FIRST_BATCH), Published1(1, "2", OTHER_BATCH)];
    var step := Apply(FIRST_BLOCK, decisions);
    var t0 := EMPTY_TABLES.(checkpoints := [Checkpoint(FIRST_BLOCK, Included)]);
    var t1 := InsertOperation(t0, 0, decisions[0]).value;
    assert t1.rows == [Row(0, decisions[0], Included, None)];
    assert t1.bindings == map["e" := Binding(0, Some("b"), FIRST_BATCH, Included)];
    assert InsertOperations(t0, 0, decisions[..1][..0]) == Success(t0);
    assert InsertOperations(t0, 0, decisions[..1]) == Success(t1);
    assert t1.bindings["e"].batch == Some(OTHER_BATCH.batch);
    assert BatchTaken(t1.bindings, OTHER_BATCH);
    var t2 := InsertOperation(t1, 0, decisions[1]).value;
    assert InsertOperations(t0, 0, decisions) == Success(t2);
    assert [step][..0] == [];
    assert EMPTY_TABLES.checkpoints + [Checkpoint(FIRST_BLOCK, Included)] == t0.checkpoints;
    assert ApplyBlock(EMPTY_TABLES, FIRST_BLOCK, decisions) == Success(t2.(lastProcessed := 1));
  }

  // ---- Instants that are used again -----------------------------------------------------------------

  /** Batch ids identify events and no revert aims above the cursor; the instants may be any. */
  predicate IsOrderly(data: LocalData, owner: string -> string, steps: seq<Step>) {
    forall k :: 0 <= k < |steps| ==> IsOrderlyAt(data, owner, steps, k)
  }

  predicate IsOrderlyAt(data: LocalData, owner: string -> string, steps: seq<Step>, k: nat)
    requires k < |steps|
  {
    match steps[k]
    case Apply(_, decisions) => AllOwned(owner, decisions)
    case Revert(ancestor) => ancestor <= Run(data, steps[..k]).lastProcessed
    case Finalize(_, _) => true
  }

  lemma OrderlyPrefix(data: LocalData, owner: string -> string, steps: seq<Step>, n: nat)
    requires IsOrderly(data, owner, steps) && n <= |steps|
    ensures IsOrderly(data, owner, steps[..n])
  {
    forall k | 0 <= k < n ensures IsOrderlyAt(data, owner, steps[..n], k) {
      assert steps[..n][..k] == steps[..k] && steps[..n][k] == steps[k];
      assert IsOrderlyAt(data, owner, steps, k);
    }
  }

  /** Whatever the instants, the tables represent a chain. */
  lemma {:induction false} RunRepresents(data: LocalData, owner: string -> string, steps: seq<Step>)
    returns (entries: seq<Entry>)
    requires IsOrderly(data, owner, steps)
    ensures Represents(Run(data, steps), entries, owner)
  {
    if steps == [] {
      entries := [];
    } else {
      var n := |steps| - 1;
      OrderlyPrefix(data, owner, steps, n);
      entries := RunRepresents(data, owner, steps[..n]);
      var t := Run(data, steps[..n]);
      assert IsOrderlyAt(data, owner, steps, n);
      if Attempt(data, t, steps[n]).Success? {
        match steps[n]
        case Apply(block, decisions) =>
          ApplyAppends(t, entries, block, decisions, owner);
          entries := entries + [Entry(block, decisions)];
        case Revert(ancestor) =>
          RevertCuts(t, entries, ancestor, owner);
          entries := entries[..ancestor];
        case Finalize(number, now) =>
          FinalizeRaises(data, t, entries, number, now, owner);
      }
    }
  }

  /**
   What a finalisation at any instant does, in every state reached with any instants: it takes in what was
   finalised at its instant before, then the blocks that are new; and it takes in exactly the new ones if
   and only if no irreversible operation up to its height carries the instant and has its event bound.
   */
  lemma ReusedInstantReplays(data: LocalData, owner: string -> string, steps: seq<Step>, entries: seq<Entry>,
                             number: nat, now: nat)
    requires IsOrderly(data, owner, steps) && Represents(Run(data, steps), entries, owner) && number <= |entries|
    ensures var t := Run(data, steps);
            var after := FinalizeThrough(data, t, number, now);
            var added := NewEvents(entries, t.lastIrreversible, number);
            && FinalizedNow(t, number, now) == ReplayedAt(t, number, now) + added
            && (FinalizedNow(t, number, now) == added <==> ReplaysNothing(t, number, now))
            && (after.Success? <==> AreAccepted(data, t.view, ReplayedAt(t, number, now) + added))
            && (after.Success? ==> after.value.view == MaterializeAll(data, t.view, ReplayedAt(t, number, now) + added))
  {
    FinalizesInTwo(Run(data, steps), entries, owner, number, now);
    FinalizesNewIff(Run(data, steps), entries, owner, number, now);
  }

  function KnownEvent(id: string): Event {
    if id == "e" then FIRST_BATCH
    else if id == "d" then EARLY_CHANGE
    else if id == "c" then LATE_CHANGE
    else LATER_BATCH
  }

  /**
   Materialising events a second time is not harmless: a change that came before the event it
   supersedes is skipped the first time and takes effect the second time. With the lemma above this
   is why a finalisation must not replay.
   */
  lemma ReplayChangesTheView()
    ensures var first := [FIRST_BATCH, EARLY_CHANGE, LATE_CHANGE];
            var all := first + [LATER_BATCH];
            var fold := MaterializeAll(KnowsAll(), EMPTY_VIEW, all);
            var replayed := MaterializeAll(KnowsAll(), MaterializeAll(KnowsAll(), EMPTY_VIEW, first), all);
            && AreAccepted(KnowsAll(), EMPTY_VIEW, all)
            && AreAccepted(KnowsAll(), MaterializeAll(KnowsAll(), EMPTY_VIEW, first), all)
            && "g" in fold.results && fold.results["g"].currentEvent == "c"
            && "g" in replayed.results && replayed.results["g"].currentEvent == "d"
  {
    HonestAreAccepted(KnowsAll(), EMPTY_VIEW, [FIRST_BATCH, EARLY_CHANGE, LATE_CHANGE], KnownEvent);
    HonestAreAccepted(KnowsAll(), EMPTY_VIEW, [FIRST_BATCH, EARLY_CHANGE, LATE_CHANGE] + [LATER_BATCH], KnownEvent);
    HonestAreAccepted(KnowsAll(), MaterializeAll(KnowsAll(), EMPTY_VIEW, [FIRST_BATCH, EARLY_CHANGE, LATE_CHANGE]),
                      [FIRST_BATCH, EARLY_CHANGE, LATE_CHANGE] + [LATER_BATCH], KnownEvent);
    var first := [FIRST_BATCH, EARLY_CHANGE, LATE_CHANGE];
    var all := first + [LATER_BATCH];
    assert all[..3] == first;
    ReplayFolds(EMPTY_VIEW);
    var view0 := Materialize(KnowsAll(), EMPTY_VIEW, FIRST_BATCH);
    assert view0 == MaterializeResults(KnowsAll(), EMPTY_VIEW.(results := EMPTY_VIEW.results["g" :=
      MatchResult("e", "b", 0, ROUND, Current, "e", Some("r"))]), FIRST_BATCH, 1);
    assert Materialize(KnowsAll(), view0, EARLY_CHANGE) == view0;
    var once := Materialize(KnowsAll(), view0, LATE_CHANGE);
    assert once.results["g"].currentEvent == "c";
    LaterBatchKeeps(once);
    ReplayFolds(once);
    assert Materialize(KnowsAll(), once, FIRST_BATCH) == MaterializeResults(KnowsAll(), once, FIRST_BATCH, 1) == once;
    LaterBatchKeeps(MaterializeAll(KnowsAll(), once, first));
  }

  lemma LaterBatchKeeps(view: View)
    requires "g" in view.results
    ensures "g" in Materialize(KnowsAll(), view, LATER_BATCH).results
    ensures Materialize(KnowsAll(), view, LATER_BATCH).results["g"] == view.results["g"]
  {
    var after := Materialize(KnowsAll(), view, LATER_BATCH);
    assert LATER_BATCH.results[0].round == "h";
    assert MaterializeResults(KnowsAll(), after, LATER_BATCH, 1) == after;
  }

  lemma ReplayFolds(view: View)
    ensures var events := [FIRST_BATCH, EARLY_CHANGE, LATE_CHANGE];
            MaterializeAll(KnowsAll(), view, events)
              == Materialize(KnowsAll(), Materialize(KnowsAll(), Materialize(KnowsAll(), view, FIRST_BATCH),
                                                     EARLY_CHANGE), LATE_CHANGE)
  {
    var events := [FIRST_BATCH, EARLY_CHANGE, LATE_CHANGE];
    assert events[..2] == [FIRST_BATCH, EARLY_CHANGE] && events[..2][..1] == [FIRST_BATCH] && events[..1][..0] == [];
    assert MaterializeAll(KnowsAll(), view, events[..2][..1]) == Materialize(KnowsAll(), view, FIRST_BATCH);
  }

  // ---- The smallest replay --------------------------------------------------------------------------

  /** A change that comes before the batch it changes, both in one block. */
  function TwoDecisions(): seq<Decision> {
    [Published1(0, "1", LATE_CHANGE), Published1(1, "2", FIRST_BATCH)]
  }

  /** The tables after the block was applied, with its operations in the given state. */
  function WithTwo(state: State, at: Option<nat>): Tables {
    EMPTY_TABLES.(
      checkpoints := [Checkpoint(FIRST_BLOCK, state)],
      rows := [Row(0, TwoDecisions()[0], state, at), Row(0, TwoDecisions()[1], state, at)],
      bindings := map["c" := Binding(0, None, LATE_CHANGE, state), "e" := Binding(1, Some("b"), FIRST_BATCH, state)],
      lastProcessed := 1)
  }

  /** The view with the batch alone: the change had nothing to change. */
  function BatchOnly(): View {
    EMPTY_VIEW.(results := map["g" := MatchResult("e", "b", 0, ROUND, Current, "e", Some("r"))])
  }

  lemma InsertTwo()
    ensures InsertOperations(EMPTY_TABLES.(checkpoints := [Checkpoint(FIRST_BLOCK, Included)]), 0, TwoDecisions())
         == Success(WithTwo(Included, None).(lastProcessed := 0))
  {
    var decisions := TwoDecisions();
    var t0 := EMPTY_TABLES.(checkpoints := [Checkpoint(FIRST_BLOCK, Included)]);
    var t1 := InsertOperation(t0, 0, decisions[0]).value;
    assert t1.rows == [Row(0, decisions[0], Included, None)];
    assert t1.bindings == map["c" := Binding(0, None, LATE_CHANGE, Included)];
    assert InsertOperations(t0, 0, decisions[..1][..0]) == Success(t0);
    assert InsertOperations(t0, 0, decisions[..1]) == Success(t1);
    assert !BatchTaken(t1.bindings, FIRST_BATCH) && !Clash(decisions[0].operation, decisions[1].operation);
    var t2 := InsertOperation(t1, 0, decisions[1]).value;
    assert t2.bindings == WithTwo(Included, None).bindings && t2.rows == WithTwo(Included, None).rows;
    assert InsertOperations(t0, 0, decisions) == Success(t2);
  }

  lemma ApplyTwo()
    ensures ApplyBlock(EMPTY_TABLES, FIRST_BLOCK, TwoDecisions()) == Success(WithTwo(Included, None))
  {
    InsertTwo();
    assert EMPTY_TABLES.checkpoints + [Checkpoint(FIRST_BLOCK, Included)] == [Checkpoint(FIRST_BLOCK, Included)];
    assert WithTwo(Included, None).(lastProcessed := 0).(lastProcessed := 1) == WithTwo(Included, None);
  }

  /** Whenever both operations are selected, the change comes first. */
  lemma SelectsTwo(checkpoints: seq<Checkpoint>, number: nat)
    requires number >= 1 && checkpoints != [] && checkpoints[0].block == FIRST_BLOCK
    ensures var t := WithTwo(Irreversible, Some(0));
            BoundEvents(Ordered(Selected(checkpoints, t.rows, t.bindings, number, 0))) == [LATE_CHANGE, FIRST_BATCH]
  {
    var t := WithTwo(Irreversible, Some(0));
    var items := [Item(1, 0, LATE_CHANGE, true), Item(1, 1, FIRST_BATCH, true)];
    assert t.rows[..1][..0] == [];
    assert Selected(checkpoints, t.rows[..1], t.bindings, number, 0) == [items[0]];
    assert Selected(checkpoints, t.rows, t.bindings, number, 0) == items;
    Sorting.SortedStays(Before, items);
    assert items[..1] == [items[0]] && [items[0]][..0] == [];
    assert BoundEvents(items[..1]) == [LATE_CHANGE];
  }

  lemma FoldsTwo(view: View)
    ensures MaterializeAll(KnowsAll(), view, [LATE_CHANGE, FIRST_BATCH])
         == Materialize(KnowsAll(), Materialize(KnowsAll(), view, LATE_CHANGE), FIRST_BATCH)
    ensures AreAccepted(KnowsAll(), view, [LATE_CHANGE, FIRST_BATCH]) <==> !IsRefused(KnowsAll(), view, LATE_CHANGE)
  {
    var events := [LATE_CHANGE, FIRST_BATCH];
    assert events[..1] == [LATE_CHANGE] && [LATE_CHANGE][..0] == [];
    assert MaterializeAll(KnowsAll(), view, [LATE_CHANGE]) == Materialize(KnowsAll(), view, LATE_CHANGE);
    assert AreAccepted(KnowsAll(), view, [LATE_CHANGE]) <==> !IsRefused(KnowsAll(), view, LATE_CHANGE);
  }

  lemma BatchOnTop(view: View)
    requires view == EMPTY_VIEW || "g" in view.results
    ensures Materialize(KnowsAll(), view, FIRST_BATCH) == if view == EMPTY_VIEW then BatchOnly() else view
  {
    var next := if view == EMPTY_VIEW then BatchOnly() else view;
    assert MaterializeResults(KnowsAll(), next, FIRST_BATCH, 1) == next;
    assert FIRST_BATCH.results[0] == ROUND;
  }

  lemma UpdateTwo()
    ensures var before, after := WithTwo(Included, None), WithTwo(Irreversible, Some(0));
            && FinalizeRows(before.checkpoints, before.rows, 1, 0) == after.rows
            && FinalizeBindings(before, 1) == after.bindings
            && FinalizeCheckpoints(before.checkpoints, 1) == after.checkpoints
  {
  }

  lemma FinalizeTwo()
    ensures FinalizeThrough(KnowsAll(), WithTwo(Included, None), 1, 0)
         == Success(WithTwo(Irreversible, Some(0)).(lastIrreversible := 1, view := BatchOnly()))
  {
    UpdateTwo();
    SelectsTwo(WithTwo(Included, None).checkpoints, 1);
    FoldsTwo(EMPTY_VIEW);
    BatchOnTop(EMPTY_VIEW);
  }

  /** The same after another block, and at the same instant: now the change finds its batch. */
  lemma FinalizeAgain(t: Tables)
    requires t == WithTwo(Irreversible, Some(0)).(
               checkpoints := [Checkpoint(FIRST_BLOCK, Irreversible), Checkpoint(SECOND_BLOCK, Included)],
               lastProcessed := 2, lastIrreversible := 1, view := BatchOnly())
    ensures var after := FinalizeThrough(KnowsAll(), t, 2, 0);
            after.Success? && after.value.rows == t.rows && "g" in after.value.view.results
            && after.value.view.results["g"].currentEvent == "c"
  {
    assert FinalizeRows(t.checkpoints, t.rows, 2, 0) == t.rows;
    assert FinalizeBindings(t, 2) == t.bindings;
    SelectsTwo(t.checkpoints, 2);
    FoldsTwo(BatchOnly());
    BatchOnTop(Materialize(KnowsAll(), BatchOnly(), LATE_CHANGE));
  }

  lemma RunOfTwo(data: LocalData, a: Step, b: Step)
    ensures Run(data, [a]) == Do(data, EMPTY_TABLES, a) && Run(data, [a, b]) == Do(data, Run(data, [a]), b)
  {
    assert [a][..0] == [] && [a, b][..1] == [a];
  }

  lemma RunOfFour(data: LocalData, a: Step, b: Step, c: Step, d: Step)
    ensures Run(data, [a, b, c, d]) == Do(data, Do(data, Run(data, [a, b]), c), d)
  {
    assert [a, b, c, d][..3] == [a, b, c] && [a, b, c][..2] == [a, b];
  }

  /** After the first finalisation the view is the fold. */
  lemma OnceIsFold()
    ensures Run(KnowsAll(), [Apply(FIRST_BLOCK, TwoDecisions()), Finalize(1, 0)])
         == WithTwo(Irreversible, Some(0)).(lastIrreversible := 1, view := BatchOnly())
    ensures FoldOf(KnowsAll(), IrreversibleDecisions(WithTwo(Irreversible, Some(0)).rows)) == BatchOnly()
  {
    var data, owner := KnowsAll(), (_: string) => "e";
    var apply, finalize := Apply(FIRST_BLOCK, TwoDecisions()), Finalize(1, 0);
    ApplyTwo();
    FinalizeTwo();
    RunOfTwo(data, apply, finalize);
    TwoArePermitted(data, owner, apply, finalize);
    ViewIsFold(data, owner, [apply, finalize]);
  }

  lemma TwoArePermitted(data: LocalData, owner: string -> string, a: Step, b: Step)
    requires a.Apply? && AllOwned(owner, a.decisions) && b.Finalize?
    ensures Permitted(data, owner, [a, b])
  {
    var steps := [a, b];
    assert PermittedAt(data, owner, steps, 0);
    assert steps[..1] == [a];
    FreshReplaysNothing(data, [a], b.number, b.now);
    assert PermittedAt(data, owner, steps, 1);
  }

  lemma ApplySecond(t: Tables)
    requires t == WithTwo(Irreversible, Some(0)).(lastIrreversible := 1, view := BatchOnly())
    ensures ApplyBlock(t, SECOND_BLOCK, [])
         == Success(t.(checkpoints := t.checkpoints + [Checkpoint(SECOND_BLOCK, Included)], lastProcessed := 2))
  {
    assert t.checkpoints[1..] == [];
    assert CurrentCheckpoint(t.checkpoints, 1) == Some(t.checkpoints[0]);
  }

  /**
   The smallest run that shows it: two blocks with one change and its batch in the first, finalised one
   after the other at one instant. The view is not the fold of the irreversible operations.
   */
  lemma SmallestReplay()
    ensures var apply := Apply(FIRST_BLOCK, TwoDecisions());
            var t := Run(KnowsAll(), [apply, Finalize(1, 0), Apply(SECOND_BLOCK, []), Finalize(2, 0)]);
            t.lastIrreversible == 2 && t.view != FoldOf(KnowsAll(), IrreversibleDecisions(t.rows))
  {
    var two := WithTwo(Irreversible, Some(0)).(lastIrreversible := 1, view := BatchOnly());
    var three := two.(checkpoints := two.checkpoints + [Checkpoint(SECOND_BLOCK, Included)], lastProcessed := 2);
    OnceIsFold();
    ApplySecond(two);
    FinalizeAgain(three);
    RunOfFour(KnowsAll(), Apply(FIRST_BLOCK, TwoDecisions()), Finalize(1, 0), Apply(SECOND_BLOCK, []), Finalize(2, 0));
  }
}
