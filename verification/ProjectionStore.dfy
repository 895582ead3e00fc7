/**
 The projection store itself: tables that each transaction changes in place, row by row. A refused
 transaction restores what it had changed. Every method is proved equal to its transaction on table
 values, so everything known about those holds of this object.
 */
module ProjectionStore {
  import opened Wrappers
  import opened MatchView
  import opened ProjectionTables
  import Sorting

  class Store {
    var checkpoints: seq<Checkpoint>
    var rows: seq<Row>
    var bindings: map<string, Binding>
    var lastProcessed: nat
    var lastIrreversible: nat
    var view: View

    constructor ()
      ensures Contents() == EMPTY_TABLES
    {
      checkpoints, rows, bindings := [], [], map[];
      lastProcessed, lastIrreversible := 0, 0;
      view := EMPTY_VIEW;
    }

    function Contents(): Tables
      reads this
    {
      Tables(checkpoints, rows, bindings, lastProcessed, lastIrreversible, view)
    }

    method GetCursor() returns (cursor: Cursor)
      ensures cursor == ProjectionTables.GetCursor(Contents())
    {
      var current := GetCurrentCheckpoint(lastProcessed);
      cursor := Cursor(lastProcessed, if current.Some? then Some(current.value.block.id) else None, lastIrreversible);
    }

    method GetCurrentCheckpoint(number: nat) returns (current: Option<Checkpoint>)
      ensures current == CurrentCheckpoint(checkpoints, number)
    {
      var i := 0;
      while i < |checkpoints|
        invariant i <= |checkpoints|
        invariant CurrentCheckpoint(checkpoints[i..], number) == CurrentCheckpoint(checkpoints, number)
      {
        assert checkpoints[i..][1..] == checkpoints[i + 1..];
        if checkpoints[i].block.number == number && checkpoints[i].state != Reverted {
          return Some(checkpoints[i]);
        }
        i := i + 1;
      }
      return None;
    }

    // ---- applyBlock -------------------------------------------------------------------------------

    method Restore(before: Tables)
      modifies this
      ensures Contents() == before
    {
      checkpoints, rows, bindings := before.checkpoints, before.rows, before.bindings;
      lastProcessed, lastIrreversible, view := before.lastProcessed, before.lastIrreversible, before.view;
    }

    /** One insert of an operation with the binding of its event. */
    method InsertOperation(checkpoint: nat, decision: Decision) returns (r: Result<(), Error>)
      modifies this
      ensures var expected := ProjectionTables.InsertOperation(old(Contents()), checkpoint, decision);
              if expected.Success? then r.Success? && Contents() == expected.value
              else r == Failure(expected.error) && Contents() == old(Contents())
    {
      if checkpoint >= |checkpoints| || checkpoints[checkpoint].block.number != decision.operation.blockNumber {
        return Failure(EvidenceConflict);
      }
      var i := 0;
      while i < |rows|
        invariant i <= |rows| && Contents() == old(Contents())
        invariant forall k :: 0 <= k < i ==>
                    !(rows[k].state != Reverted && Clash(rows[k].decision.operation, decision.operation))
      {
        if rows[i].state != Reverted && Clash(rows[i].decision.operation, decision.operation) {
          return Failure(EvidenceConflict);
        }
        i := i + 1;
      }
      if decision.Publishes() {
        var event := decision.verdict.event;
        if event.id in bindings {
          if bindings[event.id].state == Reverted {
            if bindings[event.id].event != event {
              return Failure(EvidenceConflict);
            }
            bindings := bindings[event.id := bindings[event.id].(row := |rows|, state := Included)];
          }
        } else if !BatchTaken(bindings, event) {
          bindings := bindings[event.id := Binding(|rows|, BatchOf(event), event, Included)];
        }
      }
      rows := rows + [Row(checkpoint, decision, Included, None)];
      return Success(());
    }

    method ApplyBlock(block: Block, decisions: seq<Decision>) returns (r: Result<(), Error>)
      modifies this
      ensures var expected := ProjectionTables.ApplyBlock(old(Contents()), block, decisions);
              if expected.Success? then r.Success? && Contents() == expected.value
              else r == Failure(expected.error) && Contents() == old(Contents())
    {
      var before := Contents();
      var cursor := GetCursor();
      if block.number != cursor.lastProcessed + 1
         || (cursor.lastId.Some? && cursor.lastId.value != block.previousId) {
        return Failure(CursorConflict);
      }
      var current := GetCurrentCheckpoint(block.number);
      if current.Some? || RecordsBlockId(checkpoints, block.id) {
        return Failure(EvidenceConflict);
      }
      checkpoints := checkpoints + [Checkpoint(block, Included)];
      ghost var extended := Contents();
      var i := 0;
      while i < |decisions|
        invariant i <= |decisions|
        invariant InsertOperations(extended, |before.checkpoints|, decisions[..i]) == Success(Contents())
      {
        assert decisions[..i + 1][..i] == decisions[..i];
        var inserted := InsertOperation(|before.checkpoints|, decisions[i]);
        if inserted.Failure? {
          InsertFails(extended, |before.checkpoints|, decisions, i + 1);
          Restore(before);
          return Failure(inserted.error);
        }
        i := i + 1;
      }
      assert decisions[..i] == decisions;
      lastProcessed := block.number;
      return Success(());
    }

    // ---- revertAfter ------------------------------------------------------------------------------

    method RevertBindings(ancestor: nat)
      modifies `bindings
      ensures bindings == ProjectionTables.RevertBindings(old(Contents()), ancestor)
    {
      bindings := map id | id in bindings ::
        if bindings[id].row < |rows| && NumberOf(checkpoints, rows[bindings[id].row]) > ancestor
           && bindings[id].state == Included then bindings[id].(state := Reverted)
        else bindings[id];
    }

    method RevertRows(ancestor: nat)
      modifies `rows
      ensures rows == ProjectionTables.RevertRows(checkpoints, old(rows), ancestor)
    {
      var i := 0;
      while i < |rows|
        invariant i <= |rows| == |old(rows)|
        invariant forall k :: 0 <= k < i ==> rows[k] == RevertRow(checkpoints, old(rows)[k], ancestor)
        invariant forall k :: i <= k < |rows| ==> rows[k] == old(rows)[k]
      {
        if NumberOf(checkpoints, rows[i]) > ancestor && rows[i].state != Reverted {
          rows := rows[i := rows[i].(state := Reverted)];
        }
        i := i + 1;
      }
    }

    method RevertCheckpoints(ancestor: nat)
      modifies `checkpoints
      ensures checkpoints == ProjectionTables.RevertCheckpoints(old(checkpoints), ancestor)
    {
      var i := 0;
      while i < |checkpoints|
        invariant i <= |checkpoints| == |old(checkpoints)|
        invariant forall k :: 0 <= k < i ==> checkpoints[k] == RevertCheckpoint(old(checkpoints)[k], ancestor)
        invariant forall k :: i <= k < |checkpoints| ==> checkpoints[k] == old(checkpoints)[k]
      {
        if checkpoints[i].block.number > ancestor && checkpoints[i].state != Reverted {
          checkpoints := checkpoints[i := checkpoints[i].(state := Reverted)];
        }
        i := i + 1;
      }
    }

    method RevertAfter(ancestor: nat) returns (r: Result<(), Error>)
      modifies this
      ensures var expected := ProjectionTables.RevertAfter(old(Contents()), ancestor);
              if expected.Success? then r.Success? && Contents() == expected.value
              else r == Failure(expected.error) && Contents() == old(Contents())
    {
      if ancestor < lastIrreversible {
        return Failure(IrreversibleFork);
      }
      RevertBindings(ancestor);
      RevertRows(ancestor);
      RevertCheckpoints(ancestor);
      lastProcessed := ancestor;
      return Success(());
    }

    // ---- finalizeThrough --------------------------------------------------------------------------

    method FinalizeBindings(number: nat)
      modifies `bindings
      ensures bindings == ProjectionTables.FinalizeBindings(old(Contents()), number)
    {
      bindings := map id | id in bindings ::
        if bindings[id].row < |rows| && NumberOf(checkpoints, rows[bindings[id].row]) <= number
           && bindings[id].state == Included then bindings[id].(state := Irreversible)
        else bindings[id];
    }

    method FinalizeRows(number: nat, now: nat)
      modifies `rows
      ensures rows == ProjectionTables.FinalizeRows(checkpoints, old(rows), number, now)
    {
      var i := 0;
      while i < |rows|
        invariant i <= |rows| == |old(rows)|
        invariant forall k :: 0 <= k < i ==> rows[k] == FinalizeRow(checkpoints, old(rows)[k], number, now)
        invariant forall k :: i <= k < |rows| ==> rows[k] == old(rows)[k]
      {
        if NumberOf(checkpoints, rows[i]) <= number && rows[i].state == Included {
          rows := rows[i := rows[i].(state := Irreversible, irreversibleAt := Some(now))];
        }
        i := i + 1;
      }
    }

    method FinalizeCheckpoints(number: nat)
      modifies `checkpoints
      ensures checkpoints == ProjectionTables.FinalizeCheckpoints(old(checkpoints), number)
    {
      var i := 0;
      while i < |checkpoints|
        invariant i <= |checkpoints| == |old(checkpoints)|
        invariant forall k :: 0 <= k < i ==> checkpoints[k] == FinalizeCheckpoint(old(checkpoints)[k], number)
        invariant forall k :: i <= k < |checkpoints| ==> checkpoints[k] == old(checkpoints)[k]
      {
        if checkpoints[i].block.number <= number && checkpoints[i].state == Included {
          checkpoints := checkpoints[i := checkpoints[i].(state := Irreversible)];
        }
        i := i + 1;
      }
    }

    /** The rows of the query, selected one by one and put in its order. */
    method SelectItems(number: nat, now: nat) returns (items: seq<Item>)
      ensures items == Ordered(Selected(checkpoints, rows, bindings, number, now))
    {
      items := [];
      var i := 0;
      assert rows[..0] == [];
      while i < |rows|
        invariant i <= |rows|
        invariant items == Ordered(Selected(checkpoints, rows[..i], bindings, number, now))
      {
        assert rows[..i + 1][..i] == rows[..i];
        ghost var earlier := Selected(checkpoints, rows[..i], bindings, number, now);
        assert earlier + [] == earlier;
        if IsSelected(checkpoints, rows[i], number, now) {
          var item := ItemOf(rows[i], bindings, i);
          assert (earlier + [item])[..|earlier|] == earlier;
          items := Sorting.Insert(Before, items, item);
        }
        i := i + 1;
      }
      assert rows[..i] == rows;
    }

    /** The inserts of one batch; a round that already has a result is skipped. */
    method MaterializeResults(data: LocalData, event: Event)
      requires event.ResultsBatch?
      modifies `view
      ensures view == MatchView.MaterializeResults(data, old(view), event, 0)
    {
      var position := 0;
      while position < |event.results|
        invariant position <= |event.results|
        invariant MatchView.MaterializeResults(data, view, event, position)
               == MatchView.MaterializeResults(data, old(view), event, 0)
      {
        var published := event.results[position];
        if data.knows(published) && published.round !in view.results {
          view := view.(results := view.results[published.round :=
            MatchResult(event.id, event.batch, position, published, Current, event.id, data.revisionOf(published))]);
        }
        position := position + 1;
      }
    }

    /** A correction or an invalidation; one that names the wrong batch is refused when it is inserted. */
    method MaterializeChange(data: LocalData, event: Event) returns (ok: bool)
      requires event.ResultCorrected? || event.ResultInvalidated?
      modifies `view
      ensures ok == !IsRefused(data, old(view), event)
      ensures view == if ok then Materialize(data, old(view), event) else old(view)
    {
      ok := true;
      if event.round in view.results && view.results[event.round].initialEvent == event.original
         && view.results[event.round].currentEvent == event.supersedes {
        var inLine := view.results[event.round].batch == event.originalBatch;
        if event.ResultInvalidated? {
          if !inLine {
            return false;
          }
          if event.id !in view.changes {
            view := View(
              view.results[event.round :=
                view.results[event.round].(currentEvent := event.id, standing := Invalidated)],
              view.changes[event.id := Invalidation(event.round, event.original, event.supersedes, event.reason)]);
          }
        } else {
          var revision := data.correctionOf(event.round, event.reason, event.replacement);
          if revision.Some? && !inLine {
            return false;
          }
          if revision.Some? && event.id !in view.changes {
            view := View(
              view.results[event.round := view.results[event.round]
                .(currentEvent := event.id, standing := Corrected, revision := revision)],
              view.changes[event.id := Correction(event.round, event.original, event.supersedes, event.reason,
                                                  event.replacement, revision.value)]);
          }
        }
      }
    }

    method MaterializeEvent(data: LocalData, event: Event) returns (ok: bool)
      modifies `view
      ensures ok == !IsRefused(data, old(view), event)
      ensures view == if ok then Materialize(data, old(view), event) else old(view)
    {
      ok := true;
      match event
      case ResultsBatch(_, _, _) => MaterializeResults(data, event);
      case ResultCorrected(_, _, _, _, _, _, _) => ok := MaterializeChange(data, event);
      case ResultInvalidated(_, _, _, _, _, _) => ok := MaterializeChange(data, event);
      case CollectibleEvent(_) =>
    }

    /** The loop over the selected operations; one whose event is bound elsewhere changes nothing. */
    method MaterializeItems(data: LocalData, items: seq<Item>) returns (ok: bool)
      modifies `view
      ensures ok == AreAccepted(data, old(view), BoundEvents(items))
      ensures ok ==> view == MaterializeAll(data, old(view), BoundEvents(items))
    {
      var i := 0;
      ok := true;
      assert items[..0] == [];
      while i < |items|
        invariant i <= |items|
        invariant view == MaterializeAll(data, old(view), BoundEvents(items[..i]))
        invariant AreAccepted(data, old(view), BoundEvents(items[..i])) && ok
      {
        assert items[..i + 1][..i] == items[..i];
        ghost var earlier := BoundEvents(items[..i]);
        assert earlier + [] == earlier;
        if items[i].bound {
          ghost var event := items[i].event;
          assert (earlier + [event])[..|earlier|] == earlier;
          ok := MaterializeEvent(data, items[i].event);
          if !ok {
            RefusalStays(data, old(view), items, i + 1);
            return;
          }
        }
        i := i + 1;
      }
      assert items[..i] == items;
    }

    method FinalizeThrough(data: LocalData, number: nat, now: nat) returns (r: Result<(), Error>)
      modifies this
      ensures var expected := ProjectionTables.FinalizeThrough(data, old(Contents()), number, now);
              if expected.Success? then r.Success? && Contents() == expected.value
              else r == Failure(expected.error) && Contents() == old(Contents())
    {
      if number > lastProcessed {
        return Failure(CursorConflict);
      }
      var before := Contents();
      FinalizeBindings(number);
      FinalizeRows(number, now);
      var items := SelectItems(number, now);
      FinalizeCheckpoints(number);
      if number > lastIrreversible {
        lastIrreversible := number;
      }
      var ok := MaterializeItems(data, items);
      if !ok {
        Restore(before);
        return Failure(EvidenceConflict);
      }
      return Success(());
    }
  }

  /** Once an event is refused, the events after it make no difference. */
  lemma {:induction false} RefusalStays(data: LocalData, view: View, items: seq<Item>, n: nat)
    requires n <= |items| && !AreAccepted(data, view, BoundEvents(items[..n]))
    ensures !AreAccepted(data, view, BoundEvents(items))
    decreases |items|
  {
    if n == |items| {
      assert items[..n] == items;
    } else {
      var shorter := items[..|items| - 1];
      assert shorter[..n] == items[..n];
      RefusalStays(data, view, shorter, n);
      var events := BoundEvents(items);
      if items[|items| - 1].bound {
        assert events[..|events| - 1] == BoundEvents(shorter);
      } else {
        assert events == BoundEvents(shorter);
      }
    }
  }

  /** A block one of whose operations is refused is refused as a whole, for the same reason. */
  lemma {:induction false} InsertFails(t: Tables, checkpoint: nat, decisions: seq<Decision>, n: nat)
    requires n <= |decisions| && InsertOperations(t, checkpoint, decisions[..n]).Failure?
    ensures InsertOperations(t, checkpoint, decisions) == InsertOperations(t, checkpoint, decisions[..n])
    decreases |decisions|
  {
    if n == |decisions| {
      assert decisions[..n] == decisions;
    } else {
      var shorter := decisions[..|decisions| - 1];
      assert shorter[..n] == decisions[..n];
      InsertFails(t, checkpoint, shorter, n);
    }
  }
}
