/**
 What every run of the store guarantees, stated on its tables alone.
 */
module ProjectionTheorems {
  import opened Wrappers
  import opened MatchView
  import opened ProjectionTables
  import opened ProjectionChain
  import opened ProjectionRuns
  import Sorting

  /** The decisions that are irreversible, in the order they were recorded. */
  function IrreversibleDecisions(rows: seq<Row>): seq<Decision> {
    if rows == [] then []
    else
      var n := |rows| - 1;
      IrreversibleDecisions(rows[..n]) + if rows[n].state == Irreversible then [rows[n].decision] else []
  }

  lemma {:induction false} IrreversibleIsFiltered(rows: seq<Row>, irreversible: nat, upTo: Filter)
    requires forall r :: 0 <= r < |rows| && rows[r].state != Reverted ==>
               (rows[r].state == Irreversible <==> rows[r].decision.operation.blockNumber <= irreversible)
    requires FiltersByHeight(upTo, irreversible)
    ensures IrreversibleDecisions(rows) == upTo(LiveDecisions(rows))
  {
    if rows != [] {
      var n := |rows| - 1;
      var live := if rows[n].state != Reverted then [rows[n].decision] else [];
      IrreversibleIsFiltered(rows[..n], irreversible, upTo);
      assert AtHeight(live, rows[n].decision.operation.blockNumber);
      assert LiveDecisions(rows) == LiveDecisions(rows[..n]) + live;
    }
  }

  lemma IrreversibleChain(t: Tables, entries: seq<Entry>, owner: string -> string)
    requires Represents(t, entries, owner)
    ensures IrreversibleDecisions(t.rows) == Decisions(entries[..t.lastIrreversible])
  {
    LiveRowsWithin(t.checkpoints, t.rows, entries, t.lastIrreversible);
    UpToHeightFilters(t.lastIrreversible);
    IrreversibleIsFiltered(t.rows, t.lastIrreversible, UpToHeight(t.lastIrreversible));
    CutIsFiltered(entries, t.lastIrreversible, UpToHeight(t.lastIrreversible));
  }

  function FoldOf(data: LocalData, decisions: seq<Decision>): View {
    MaterializeAll(data, EMPTY_VIEW, BoundEvents(Ordered(Items(decisions))))
  }

  /**
   View independence: after any run the view is the fold of the irreversible operations in order.
   The branches that were reverted and the calls finalisation was split into leave no trace.
   */
  lemma ViewIsFold(data: LocalData, owner: string -> string, steps: seq<Step>)
    requires Permitted(data, owner, steps)
    ensures Run(data, steps).view == FoldOf(data, IrreversibleDecisions(Run(data, steps).rows))
  {
    var entries := RunIsSound(data, owner, steps);
    IrreversibleChain(Run(data, steps), entries, owner);
  }

  /** So two stores with the same irreversible operations show the same results and changes. */
  lemma SameIrreversibleSameView(data: LocalData, ownerA: string -> string, a: seq<Step>,
                                 ownerB: string -> string, b: seq<Step>)
    requires Permitted(data, ownerA, a) && Permitted(data, ownerB, b)
    requires IrreversibleDecisions(Run(data, a).rows) == IrreversibleDecisions(Run(data, b).rows)
    ensures Run(data, a).view == Run(data, b).view
  {
    ViewIsFold(data, ownerA, a);
    ViewIsFold(data, ownerB, b);
  }

  // ---- Linear history over runs ---------------------------------------------------------------------

  /** No event is bound twice. */
  predicate Apart(a: Item, b: Item) {
    a.bound && b.bound ==> a.event.id != b.event.id
  }

  predicate BoundOnce(items: seq<Item>) {
    Sorting.PairsOf(Apart, items)
  }

  lemma {:induction false} ItemsComeFrom(decisions: seq<Decision>)
    ensures forall x :: x in Items(decisions) && x.bound ==> Published(decisions, x.event.id)
  {
    if decisions != [] {
      var n := |decisions| - 1;
      ItemsComeFrom(decisions[..n]);
      forall x | x in Items(decisions) && x.bound ensures Published(decisions, x.event.id) {
        if x in Items(decisions[..n]) {
          var k :| 0 <= k < n && decisions[..n][k].Carries(x.event.id);
          assert decisions[k].Carries(x.event.id);
        } else {
          assert decisions[n].Carries(x.event.id);
        }
      }
    }
  }

  lemma {:induction false} ItemsBoundOnce(decisions: seq<Decision>)
    ensures BoundOnce(Items(decisions))
  {
    if decisions != [] {
      var n := |decisions| - 1;
      ItemsBoundOnce(decisions[..n]);
      ItemsComeFrom(decisions[..n]);
      var items := Items(decisions[..n]);
      forall i | 0 <= i < |items| ensures items[i] in items {
      }
    }
  }

  lemma OrderedBoundOnce(items: seq<Item>)
    requires BoundOnce(items)
    ensures BoundOnce(Ordered(items))
  {
    OrderedSorts(items);
    Sorting.PairsPermute(Apart, items, Ordered(items));
  }

  lemma {:induction false} BoundEventsDistinct(items: seq<Item>)
    requires BoundOnce(items)
    ensures Distinct(Ids(BoundEvents(items)))
    ensures forall e :: e in BoundEvents(items) ==>
              exists i :: 0 <= i < |items| && items[i].bound && items[i].event == e
  {
    if items != [] {
      var n := |items| - 1;
      BoundEventsDistinct(items[..n]);
      var earlier, all := BoundEvents(items[..n]), BoundEvents(items);
      forall e | e in all ensures exists i :: 0 <= i < |items| && items[i].bound && items[i].event == e {
        if e in earlier {
          var i :| 0 <= i < n && items[..n][i].bound && items[..n][i].event == e;
          assert items[i].event == e;
        } else {
          assert items[n].event == e;
        }
      }
      if items[n].bound {
        forall k | 0 <= k < |earlier| ensures Ids(earlier)[k] != items[n].event.id {
          assert earlier[k] in earlier;
          var i :| 0 <= i < n && items[..n][i].bound && items[..n][i].event == earlier[k];
          assert items[i].event == earlier[k];
        }
      }
    }
  }

  /**
   Linear history over whole runs: in every reachable state the changes of every projected result
   form one path of distinct events from its initial to its current event.
   */
  lemma RunHistoryIsLinear(data: LocalData, owner: string -> string, steps: seq<Step>)
    requires Permitted(data, owner, steps)
    ensures forall round :: round in Run(data, steps).view.results ==>
              exists path :: IsHistory(Run(data, steps).view, round, path)
  {
    ViewIsFold(data, owner, steps);
    var decisions := IrreversibleDecisions(Run(data, steps).rows);
    ItemsBoundOnce(decisions);
    OrderedBoundOnce(Items(decisions));
    BoundEventsDistinct(Ordered(Items(decisions)));
    var events := BoundEvents(Ordered(Items(decisions)));
    HistoryIsLinear(data, events);
    var view := Run(data, steps).view;
    forall round | round in view.results ensures exists path :: IsHistory(view, round, path) {
      assert HasHistory(view, round, set id | id in Ids(events));
    }
  }

  // ---- Event binding and the chain over runs --------------------------------------------------------

  /** The event is bound to its earliest live publication, and its state is the one of that operation. */
  predicate BoundToEarliest(t: Tables, event: string) {
    && event in t.bindings
    && var row := t.bindings[event].row;
       && row < |t.rows| && LiveCarrier(t.rows[row], event)
       && (forall k :: 0 <= k < row ==> !LiveCarrier(t.rows[k], event))
       && t.bindings[event].state == t.rows[row].state
  }

  /** In every reachable state an event some live operation publishes is bound to the earliest of them. */
  lemma RunBindsEarliest(data: LocalData, owner: string -> string, steps: seq<Step>, event: string, r: nat)
    requires Permitted(data, owner, steps)
    requires r < |Run(data, steps).rows| && LiveCarrier(Run(data, steps).rows[r], event)
    ensures BoundToEarliest(Run(data, steps), event) && Run(data, steps).bindings[event].row <= r
  {
    var t := Run(data, steps);
    var entries := RunIsSound(data, owner, steps);
    assert FirstLive(t.rows, event).Some?;
    assert BindingAgrees(t.rows, event, t.bindings[event], owner);
  }

  predicate IsLiveAt(t: Tables, i: nat, number: nat) {
    i < |t.checkpoints| && t.checkpoints[i].state != Reverted && t.checkpoints[i].block.number == number
  }

  ghost predicate HasLive(t: Tables, number: nat) {
    exists i: nat :: IsLiveAt(t, i, number)
  }

  /** The live checkpoints are one per height, linked, and irreversible exactly up to the irreversible height. */
  ghost predicate OneChain(t: Tables) {
    && t.lastIrreversible <= t.lastProcessed
    && (forall n :: 1 <= n <= t.lastProcessed ==> HasLive(t, n))
    && (forall i: nat, n: nat :: IsLiveAt(t, i, n) ==>
          1 <= n <= t.lastProcessed && (t.checkpoints[i].state == Irreversible <==> n <= t.lastIrreversible))
    && (forall i: nat, j: nat, n: nat :: IsLiveAt(t, i, n) && IsLiveAt(t, j, n) ==> i == j)
    && (forall i: nat, j: nat, n: nat, m: nat :: IsLiveAt(t, i, n) && IsLiveAt(t, j, m) && m == n + 1 ==>
            t.checkpoints[j].block.previousId == t.checkpoints[i].block.id)
  }

  lemma {:induction false} LiveIndex(checkpoints: seq<Checkpoint>, block: Block) returns (i: nat)
    requires block in LiveBlocks(checkpoints)
    ensures i < |checkpoints| && checkpoints[i].state != Reverted && checkpoints[i].block == block
  {
    var n := |checkpoints| - 1;
    if block in LiveBlocks(checkpoints[..n]) {
      i := LiveIndex(checkpoints[..n], block);
    } else {
      i := n;
    }
  }

  lemma {:induction false} LiveIsListed(checkpoints: seq<Checkpoint>, i: nat)
    requires i < |checkpoints| && checkpoints[i].state != Reverted
    ensures checkpoints[i].block in LiveBlocks(checkpoints)
  {
    var n := |checkpoints| - 1;
    if i < n {
      LiveIsListed(checkpoints[..n], i);
    }
  }

  /** A live checkpoint is the block of its height. */
  lemma LiveIsEntry(t: Tables, entries: seq<Entry>, owner: string -> string, i: nat)
    requires Represents(t, entries, owner)
    requires i < |t.checkpoints| && t.checkpoints[i].state != Reverted
    ensures 1 <= t.checkpoints[i].block.number <= |entries|
    ensures t.checkpoints[i].block == entries[t.checkpoints[i].block.number - 1].block
  {
    LiveIsListed(t.checkpoints, i);
    var k :| 0 <= k < |entries| && Blocks(entries)[k] == t.checkpoints[i].block;
  }

  lemma LiveAreOnePerHeight(t: Tables, entries: seq<Entry>, owner: string -> string)
    requires Represents(t, entries, owner)
    ensures forall n :: 1 <= n <= t.lastProcessed ==> HasLive(t, n)
    ensures forall i: nat, j: nat, n: nat :: IsLiveAt(t, i, n) && IsLiveAt(t, j, n) ==> i == j
  {
    forall n | 1 <= n <= t.lastProcessed ensures HasLive(t, n) {
      assert Blocks(entries)[n - 1] in LiveBlocks(t.checkpoints);
      var i := LiveIndex(t.checkpoints, entries[n - 1].block);
      assert IsLiveAt(t, i, n);
    }
    forall i: nat, j: nat, n: nat | IsLiveAt(t, i, n) && IsLiveAt(t, j, n) ensures i == j {
      LiveIsEntry(t, entries, owner, i);
      LiveIsEntry(t, entries, owner, j);
      assert i < j ==> IdsDiffer(t.checkpoints, i, j);
      assert j < i ==> IdsDiffer(t.checkpoints, j, i);
    }
  }

  lemma LiveAreLinked(t: Tables, entries: seq<Entry>, owner: string -> string, i: nat, j: nat)
    requires Represents(t, entries, owner)
    requires i < |t.checkpoints| && t.checkpoints[i].state != Reverted
    requires j < |t.checkpoints| && t.checkpoints[j].state != Reverted
    requires t.checkpoints[j].block.number == t.checkpoints[i].block.number + 1
    ensures t.checkpoints[j].block.previousId == t.checkpoints[i].block.id
  {
    LiveIsEntry(t, entries, owner, i);
    LiveIsEntry(t, entries, owner, j);
    assert LinksAt(entries, t.checkpoints[i].block.number);
  }

  /** Chain invariant: every reachable state holds one linked chain, irreversible up to its mark. */
  lemma RunIsOneChain(data: LocalData, owner: string -> string, steps: seq<Step>)
    requires Permitted(data, owner, steps)
    ensures OneChain(Run(data, steps))
  {
    var t := Run(data, steps);
    var entries := RunIsSound(data, owner, steps);
    LiveAreOnePerHeight(t, entries, owner);
    forall i: nat, j: nat, n: nat, m: nat | IsLiveAt(t, i, n) && IsLiveAt(t, j, m) && m == n + 1
      ensures t.checkpoints[j].block.previousId == t.checkpoints[i].block.id
    {
      LiveAreLinked(t, entries, owner, i, j);
    }
  }

  /** The chain the tables represent is determined by the tables. */
  lemma {:induction false} ChainIsUnique(t: Tables, a: seq<Entry>, b: seq<Entry>, owner: string -> string)
    requires Represents(t, a, owner) && Represents(t, b, owner)
    ensures a == b
  {
    forall i | 0 <= i < |a| ensures a[i] == b[i] {
      assert Blocks(a)[i] == Blocks(b)[i];
      EntryIsDetermined(a, b, i);
    }
  }

  lemma EntryIsDetermined(a: seq<Entry>, b: seq<Entry>, i: nat)
    requires Numbered(a) && Numbered(b) && |a| == |b| && i < |a|
    requires Decisions(a) == Decisions(b)
    ensures a[i].decisions == b[i].decisions
  {
    UpToHeightFilters(i);
    CutIsFiltered(a, i, UpToHeight(i));
    CutIsFiltered(b, i, UpToHeight(i));
    UpToHeightFilters(i + 1);
    CutIsFiltered(a, i + 1, UpToHeight(i + 1));
    CutIsFiltered(b, i + 1, UpToHeight(i + 1));
    assert a[..i + 1][..i] == a[..i] && b[..i + 1][..i] == b[..i];
    assert Decisions(a[..i]) + a[i].decisions == Decisions(b[..i]) + b[i].decisions;
    assert a[i].decisions == (Decisions(a[..i]) + a[i].decisions)[|Decisions(a[..i])|..];
    assert b[i].decisions == (Decisions(b[..i]) + b[i].decisions)[|Decisions(b[..i])|..];
  }

  // ---- Where finality stops -------------------------------------------------------------------------

  /** A chain with an event that is refused stays refused however long it grows. */
  lemma AcceptedBelow(data: LocalData, entries: seq<Entry>, low: nat, high: nat)
    requires Numbered(entries) && low <= high <= |entries|
    requires AreAccepted(data, EMPTY_VIEW, ChainEvents(entries[..high]))
    ensures AreAccepted(data, EMPTY_VIEW, ChainEvents(entries[..low]))
  {
    ChainEventsSplit(entries, low, high);
    AcceptedConcat(data, EMPTY_VIEW, ChainEvents(entries[..low]),
                   BoundEvents(Ordered(Between(Items(Decisions(entries)), low, high))));
  }

  /**
   The exact condition for finality: in every reachable state a height of the chain can be finalised
   without replaying anything if and only if no event up to it is refused in its turn. What was reverted
   before, and how finalisation was split into calls, makes no difference.
   */
  lemma RunFinalizesIffAccepted(data: LocalData, owner: string -> string, steps: seq<Step>, entries: seq<Entry>,
                                number: nat, now: nat)
    requires Permitted(data, owner, steps) && ReplaysNothing(Run(data, steps), number, now)
    requires Represents(Run(data, steps), entries, owner) && number <= |entries|
    ensures FinalizeThrough(data, Run(data, steps), number, now).Success?
       <==> AreAccepted(data, EMPTY_VIEW, ChainEvents(entries[..Max(Run(data, steps).lastIrreversible, number)]))
  {
    var own := RunIsSound(data, owner, steps);
    ChainIsUnique(Run(data, steps), own, entries, owner);
    FinalizesIffAccepted(data, Run(data, steps), entries, owner, number, now);
  }

  /** So one refused event ends finality below its block: that height is never reached, nor any above it. */
  lemma FinalityStops(data: LocalData, owner: string -> string, steps: seq<Step>, entries: seq<Entry>, height: nat,
                      number: nat, now: nat)
    requires Permitted(data, owner, steps) && ReplaysNothing(Run(data, steps), number, now)
    requires Represents(Run(data, steps), entries, owner) && height <= number <= |entries|
    requires !AreAccepted(data, EMPTY_VIEW, ChainEvents(entries[..height]))
    ensures Run(data, steps).lastIrreversible < height
    ensures FinalizeThrough(data, Run(data, steps), number, now) == Failure(EvidenceConflict)
  {
    var t := Run(data, steps);
    var own := RunIsSound(data, owner, steps);
    ChainIsUnique(t, own, entries, owner);
    if t.lastIrreversible >= height {
      AcceptedBelow(data, entries, height, t.lastIrreversible);
    }
    if AreAccepted(data, EMPTY_VIEW, ChainEvents(entries[..number])) {
      AcceptedBelow(data, entries, height, number);
    }
    RunFinalizesIffAccepted(data, owner, steps, entries, number, now);
  }
}
