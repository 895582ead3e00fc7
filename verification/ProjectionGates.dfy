/**
 What each store transaction accepts in every state that represents a chain, and with which error it
 refuses the rest.
 */
module ProjectionGates {
  import opened Wrappers
  import opened MatchView
  import opened MatchEffects
  import opened ProjectionTables
  import opened ProjectionChain
  import opened ProjectionRuns
  import opened ProjectionTheorems

  // ---- Unique keys ----------------------------------------------------------------------------------

  /** Two operations that may both be live: other source ids, and not one place of one transaction. */
  predicate AreApart(a: Operation, b: Operation) {
    && a.sourceId != b.sourceId
    && (a.transactionId.None? || b.transactionId.None? || a.transactionId != b.transactionId || a.index != b.index)
  }

  /** No two of the decisions stand in each other's way. */
  predicate AllApart(decisions: seq<Decision>) {
    forall i, j :: 0 <= i < j < |decisions| ==> AreApart(decisions[i].operation, decisions[j].operation)
  }

  predicate IsApartFrom(decisions: seq<Decision>, operation: Operation) {
    forall i :: 0 <= i < |decisions| ==> AreApart(decisions[i].operation, operation)
  }

  lemma ApartGrows(decisions: seq<Decision>, next: Decision)
    ensures AllApart(decisions + [next]) <==> AllApart(decisions) && IsApartFrom(decisions, next.operation)
  {
    var all := decisions + [next];
    if AllApart(all) {
      forall i, j | 0 <= i < j < |decisions| ensures AreApart(decisions[i].operation, decisions[j].operation) {
        assert AreApart(all[i].operation, all[j].operation);
      }
      forall i | 0 <= i < |decisions| ensures AreApart(decisions[i].operation, next.operation) {
        assert AreApart(all[i].operation, all[|decisions|].operation);
      }
    }
  }

  lemma {:induction false} ClashesIff(rows: seq<Row>, operation: Operation)
    ensures ClashesLive(rows, operation) <==> !IsApartFrom(LiveDecisions(rows), operation)
  {
    if rows != [] {
      var n := |rows| - 1;
      ClashesIff(rows[..n], operation);
      var earlier, all := LiveDecisions(rows[..n]), LiveDecisions(rows);
      ClashesGrow(rows, operation);
      if rows[n].state != Reverted {
        assert all == earlier + [rows[n].decision];
        ApartAlso(earlier, rows[n].decision, operation);
      } else {
        assert all == earlier;
      }
    }
  }

  lemma ApartAlso(decisions: seq<Decision>, next: Decision, operation: Operation)
    ensures IsApartFrom(decisions + [next], operation)
       <==> IsApartFrom(decisions, operation) && AreApart(next.operation, operation)
  {
    var all := decisions + [next];
    if IsApartFrom(all, operation) {
      assert AreApart(all[|decisions|].operation, operation);
      forall i | 0 <= i < |decisions| ensures AreApart(decisions[i].operation, operation) {
        assert AreApart(all[i].operation, operation);
      }
    }
  }

  lemma ClashesGrow(rows: seq<Row>, operation: Operation)
    requires rows != []
    ensures var n := |rows| - 1;
            ClashesLive(rows, operation) <==>
              || ClashesLive(rows[..n], operation)
              || (rows[n].state != Reverted && !AreApart(rows[n].decision.operation, operation))
  {
    var n := |rows| - 1;
    if ClashesLive(rows, operation) {
      var i :| 0 <= i < |rows| && rows[i].state != Reverted && Clash(rows[i].decision.operation, operation);
      assert i < n ==> rows[..n][i] == rows[i];
    }
    if ClashesLive(rows[..n], operation) {
      var i :| 0 <= i < n && rows[..n][i].state != Reverted && Clash(rows[..n][i].decision.operation, operation);
      assert rows[i] == rows[..n][i];
    }
  }

  // ---- Bindings that move ---------------------------------------------------------------------------

  predicate SomeCarries(decisions: seq<Decision>, event: string) {
    exists j :: 0 <= j < |decisions| && decisions[j].Carries(event)
  }

  predicate IsReverted(bindings: map<string, Binding>, id: string) {
    id in bindings && bindings[id].state == Reverted
  }

  /** Decision `k` is the first of the block to publish an event whose binding was reverted. */
  predicate MovesBinding(bindings: map<string, Binding>, decisions: seq<Decision>, k: nat) {
    && k < |decisions| && decisions[k].Publishes() && IsReverted(bindings, decisions[k].verdict.event.id)
    && !SomeCarries(decisions[..k], decisions[k].verdict.event.id)
  }

  /** Every binding that moves to a new operation keeps its event. */
  ghost predicate EventsStay(bindings: map<string, Binding>, decisions: seq<Decision>) {
    forall k: nat :: MovesBinding(bindings, decisions, k) ==>
      decisions[k].verdict.event == bindings[decisions[k].verdict.event.id].event
  }

  lemma MovesSooner(bindings: map<string, Binding>, decisions: seq<Decision>, n: nat, k: nat)
    requires k < n <= |decisions|
    ensures MovesBinding(bindings, decisions[..n], k) <==> MovesBinding(bindings, decisions, k)
  {
    assert decisions[..n][..k] == decisions[..k];
  }

  lemma EventsStayOneMore(bindings: map<string, Binding>, decisions: seq<Decision>)
    requires decisions != []
    ensures var n := |decisions| - 1;
            EventsStay(bindings, decisions) <==>
              && EventsStay(bindings, decisions[..n])
              && (MovesBinding(bindings, decisions, n) ==>
                    decisions[n].verdict.event == bindings[decisions[n].verdict.event.id].event)
  {
    var n := |decisions| - 1;
    forall k: nat | k < n
      ensures MovesBinding(bindings, decisions[..n], k) <==> MovesBinding(bindings, decisions, k)
    {
      MovesSooner(bindings, decisions, n, k);
    }
    if EventsStay(bindings, decisions) {
      forall k: nat | MovesBinding(bindings, decisions[..n], k)
        ensures decisions[..n][k].verdict.event == bindings[decisions[..n][k].verdict.event.id].event
      {
        assert MovesBinding(bindings, decisions, k);
      }
    }
    if EventsStay(bindings, decisions[..n]) {
      forall k: nat | MovesBinding(bindings, decisions, k) && k < n
        ensures decisions[k].verdict.event == bindings[decisions[k].verdict.event.id].event
      {
        assert MovesBinding(bindings, decisions[..n], k) && decisions[..n][k] == decisions[k];
      }
    }
  }

  // ---- Inserting decisions --------------------------------------------------------------------------

  /** The bindings that are still reverted are those the decisions have not moved. */
  ghost predicate AreMoved(before: map<string, Binding>, done: seq<Decision>, after: map<string, Binding>) {
    forall id :: (IsReverted(after, id) <==> IsReverted(before, id) && !SomeCarries(done, id))
                 && (IsReverted(after, id) ==> after[id] == before[id])
  }

  /** `u` is `t` with the decisions inserted. */
  ghost predicate HoldsAlso(t: Tables, done: seq<Decision>, u: Tables) {
    && u.checkpoints == t.checkpoints && LiveDecisions(u.rows) == LiveDecisions(t.rows) + done
    && AreMoved(t.bindings, done, u.bindings)
  }

  lemma CarriesOneMore(done: seq<Decision>, next: Decision, id: string)
    ensures SomeCarries(done + [next], id) <==> SomeCarries(done, id) || next.Carries(id)
  {
    var all := done + [next];
    if SomeCarries(done, id) {
      var j :| 0 <= j < |done| && done[j].Carries(id);
      assert all[j].Carries(id);
    }
    if next.Carries(id) {
      assert all[|done|].Carries(id);
    }
  }

  lemma BindMoves(before: map<string, Binding>, done: seq<Decision>, bindings: map<string, Binding>, next: Decision,
                  row: nat)
    requires AreMoved(before, done, bindings) && next.Publishes()
    ensures var r, event := BindEvent(bindings, next.verdict.event, row), next.verdict.event;
            && (r.Success? <==>
                  (IsReverted(before, event.id) && !SomeCarries(done, event.id) ==> before[event.id].event == event))
            && (r.Success? ==> AreMoved(before, done + [next], r.value))
            && (r.Failure? ==> r.error == EvidenceConflict)
  {
    var r, event := BindEvent(bindings, next.verdict.event, row), next.verdict.event;
    if r.Success? {
      forall id
        ensures IsReverted(r.value, id) <==> IsReverted(before, id) && !SomeCarries(done + [next], id)
        ensures IsReverted(r.value, id) ==> r.value[id] == before[id]
      {
        CarriesOneMore(done, next, id);
      }
    }
  }

  lemma UnpublishedMoves(before: map<string, Binding>, done: seq<Decision>, bindings: map<string, Binding>,
                         next: Decision)
    requires AreMoved(before, done, bindings) && !next.Publishes()
    ensures AreMoved(before, done + [next], bindings)
  {
    forall id ensures SomeCarries(done + [next], id) <==> SomeCarries(done, id) {
      CarriesOneMore(done, next, id);
    }
  }

  lemma LiveGrows(rows: seq<Row>, row: Row)
    requires row.state != Reverted
    ensures LiveDecisions(rows + [row]) == LiveDecisions(rows) + [row.decision]
  {
    assert (rows + [row])[..|rows|] == rows;
  }

  /** One more decision is inserted exactly when it is of the block, apart from all live ones, and moves no event. */
  lemma InsertIff(t: Tables, checkpoint: nat, decisions: seq<Decision>, u: Tables)
    requires decisions != [] && HoldsAlso(t, decisions[..|decisions| - 1], u) && checkpoint < |t.checkpoints|
    ensures var n := |decisions| - 1;
            var r := InsertOperation(u, checkpoint, decisions[n]);
            && (r.Success? <==>
                  && decisions[n].operation.blockNumber == t.checkpoints[checkpoint].block.number
                  && IsApartFrom(LiveDecisions(t.rows) + decisions[..n], decisions[n].operation)
                  && (MovesBinding(t.bindings, decisions, n) ==>
                        decisions[n].verdict.event == t.bindings[decisions[n].verdict.event.id].event))
            && (r.Success? ==> HoldsAlso(t, decisions, r.value))
            && (r.Failure? ==> r.error == EvidenceConflict)
  {
    var n := |decisions| - 1;
    var next := decisions[n];
    ClashesIff(u.rows, next.operation);
    LiveGrows(u.rows, Row(checkpoint, next, Included, None));
    assert decisions[..n] + [next] == decisions;
    if next.Publishes() {
      BindMoves(t.bindings, decisions[..n], u.bindings, next, |u.rows|);
    } else {
      UnpublishedMoves(t.bindings, decisions[..n], u.bindings, next);
    }
  }

  /** The decisions are of the block, apart from each other and from all live ones, and no binding changes its event. */
  ghost predicate CanJoin(t: Tables, number: nat, decisions: seq<Decision>) {
    && (forall k :: 0 <= k < |decisions| ==> decisions[k].operation.blockNumber == number)
    && AllApart(LiveDecisions(t.rows) + decisions) && EventsStay(t.bindings, decisions)
  }

  lemma CanJoinOneMore(t: Tables, number: nat, decisions: seq<Decision>)
    requires decisions != []
    ensures var n := |decisions| - 1;
            CanJoin(t, number, decisions) <==>
              && CanJoin(t, number, decisions[..n])
              && decisions[n].operation.blockNumber == number
              && IsApartFrom(LiveDecisions(t.rows) + decisions[..n], decisions[n].operation)
              && (MovesBinding(t.bindings, decisions, n) ==>
                    decisions[n].verdict.event == t.bindings[decisions[n].verdict.event.id].event)
  {
    var n, live := |decisions| - 1, LiveDecisions(t.rows);
    EventsStayOneMore(t.bindings, decisions);
    ApartGrows(live + decisions[..n], decisions[n]);
    assert live + decisions == (live + decisions[..n]) + [decisions[n]];
  }

  lemma {:induction false} InsertAllIff(t: Tables, checkpoint: nat, decisions: seq<Decision>)
    requires checkpoint < |t.checkpoints| && AllApart(LiveDecisions(t.rows))
    ensures var r := InsertOperations(t, checkpoint, decisions);
            && (r.Success? <==> CanJoin(t, t.checkpoints[checkpoint].block.number, decisions))
            && (r.Success? ==> HoldsAlso(t, decisions, r.value))
            && (r.Failure? ==> r.error == EvidenceConflict)
  {
    if decisions == [] {
      assert LiveDecisions(t.rows) + [] == LiveDecisions(t.rows);
    } else {
      var n := |decisions| - 1;
      InsertAllIff(t, checkpoint, decisions[..n]);
      CanJoinOneMore(t, t.checkpoints[checkpoint].block.number, decisions);
      if InsertOperations(t, checkpoint, decisions[..n]).Success? {
        InsertIff(t, checkpoint, decisions, InsertOperations(t, checkpoint, decisions[..n]).value);
      }
    }
  }

  // ---- applyBlock -----------------------------------------------------------------------------------

  lemma {:induction false} LiveAreApart(rows: seq<Row>)
    requires forall r, s :: 0 <= r < s < |rows| ==> LiveInOrder(rows, r, s)
    ensures AllApart(LiveDecisions(rows))
  {
    if rows != [] {
      var n := |rows| - 1;
      forall r, s | 0 <= r < s < n ensures LiveInOrder(rows[..n], r, s) {
        assert LiveInOrder(rows, r, s);
      }
      LiveAreApart(rows[..n]);
      if rows[n].state != Reverted {
        forall r | 0 <= r < n && rows[..n][r].state != Reverted
          ensures !Clash(rows[..n][r].decision.operation, rows[n].decision.operation)
        {
          assert LiveInOrder(rows, r, n);
        }
        ClashesIff(rows[..n], rows[n].decision.operation);
        ApartGrows(LiveDecisions(rows[..n]), rows[n].decision);
      }
    }
  }

  /** The block is the next of the chain and links to its tip. */
  predicate IsNext(entries: seq<Entry>, block: Block) {
    && block.number == |entries| + 1
    && (entries != [] ==> block.previousId == entries[|entries| - 1].block.id)
  }

  /** No checkpoint, live or reverted, records the id. */
  predicate IsNewId(checkpoints: seq<Checkpoint>, id: string) {
    forall i :: 0 <= i < |checkpoints| ==> checkpoints[i].block.id != id
  }

  /**
   What a block needs to be applied to tables that represent a chain, for all blocks and decisions: it is
   the next of the chain, its id was never recorded, its decisions are its own and apart from all live
   ones, and none of them gives a reverted event another content.
   */
  lemma ApplyIff(t: Tables, entries: seq<Entry>, block: Block, decisions: seq<Decision>, owner: string -> string)
    requires Represents(t, entries, owner)
    ensures var r := ApplyBlock(t, block, decisions);
            && (r == Failure(CursorConflict) <==> !IsNext(entries, block))
            && (r.Success? <==>
                  && IsNext(entries, block) && IsNewId(t.checkpoints, block.id)
                  && CanJoin(t, block.number, decisions))
            && (r.Failure? ==> r.error == CursorConflict || r.error == EvidenceConflict)
  {
    CursorIsTip(t, entries, owner);
    LiveAreApart(t.rows);
    var extended := t.(checkpoints := t.checkpoints + [Checkpoint(block, Included)]);
    InsertAllIff(extended, |t.checkpoints|, decisions);
    assert CanJoin(extended, block.number, decisions) <==> CanJoin(t, block.number, decisions);
  }

  // ---- revertAfter and finalizeThrough --------------------------------------------------------------

  /** A chain is cut exactly where it is not irreversible yet, and only the live blocks above are reverted. */
  lemma RevertIff(t: Tables, entries: seq<Entry>, ancestor: nat, owner: string -> string)
    requires Represents(t, entries, owner) && ancestor <= |entries|
    ensures var r := RevertAfter(t, ancestor);
            && (r == Failure(IrreversibleFork) <==> ancestor < t.lastIrreversible)
            && (r.Success? <==> t.lastIrreversible <= ancestor)
            && (r.Success? ==> Represents(r.value, entries[..ancestor], owner) && r.value.view == t.view)
  {
    if t.lastIrreversible <= ancestor {
      RevertCuts(t, entries, ancestor, owner);
    }
  }

  /** Finality is taken up to the tip unless an event that becomes irreversible is stray in its turn. */
  lemma FinalizeIff(data: LocalData, t: Tables, entries: seq<Entry>, number: nat, now: nat, owner: string -> string)
    requires Represents(t, entries, owner)
    ensures var r, events := FinalizeThrough(data, t, number, now), FinalizedNow(t, number, now);
            && (r == Failure(CursorConflict) <==> number > |entries|)
            && (r.Success? <==>
                  number <= |entries| && forall k :: 0 <= k < |events| ==> !IsStrayAt(data, t.view, events, k))
            && (r.Failure? ==> r.error == CursorConflict || r.error == EvidenceConflict)
            && (r.Success? ==>
                  && Represents(r.value, entries, owner) && r.value.view == MaterializeAll(data, t.view, events)
                  && r.value.lastIrreversible == Max(t.lastIrreversible, number))
  {
    AcceptedIff(data, t.view, FinalizedNow(t, number, now));
    if FinalizeThrough(data, t, number, now).Success? {
      FinalizeRaises(data, t, entries, number, now, owner);
    }
  }
}
