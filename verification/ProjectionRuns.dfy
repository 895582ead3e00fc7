/**
 Whole runs of the store. The view is shown to be a fold over the irreversible chain alone,
 whatever branches were reverted and however finalisation was split; recorded evidence is shown
 never to be lost and irreversible evidence never to change.
 */
module ProjectionRuns {
  import opened Wrappers
  import opened MatchView
  import opened ProjectionTables
  import opened ProjectionChain
  import Sorting

  // ---- The view as a fold over the chain ----------------------------------------------------------

  predicate Published(decisions: seq<Decision>, event: string) {
    exists k :: 0 <= k < |decisions| && decisions[k].Carries(event)
  }

  /** The accepted decisions of a chain; an event counts only where it is published first. */
  function Items(decisions: seq<Decision>): seq<Item> {
    if decisions == [] then []
    else
      var n := |decisions| - 1;
      Items(decisions[..n]) + ItemsOf(decisions[..n], decisions[n])
  }

  function ItemsOf(earlier: seq<Decision>, decision: Decision): seq<Item> {
    if !decision.verdict.Accepted? then []
    else
      [Item(decision.operation.blockNumber, decision.operation.index, decision.verdict.event,
            decision.Publishes() && !Published(earlier, decision.verdict.event.id))]
  }

  /** The match events of a chain in the order of block, then index, each where it is published first. */
  function ChainEvents(entries: seq<Entry>): seq<Event> {
    BoundEvents(Ordered(Items(Decisions(entries))))
  }

  predicate ViewAgrees(data: LocalData, t: Tables, entries: seq<Entry>)
    requires t.lastIrreversible <= |entries|
  {
    && t.view == MaterializeAll(data, EMPTY_VIEW, ChainEvents(entries[..t.lastIrreversible]))
    && AreAccepted(data, EMPTY_VIEW, ChainEvents(entries[..t.lastIrreversible]))
  }

  // ---- Ordered is a stable sort --------------------------------------------------------------------

  /** The query order is a sort: nothing is lost or added, and the result is in order. */
  lemma OrderedSorts(items: seq<Item>)
    ensures Sorting.SortedBy(Before, Ordered(items))
    ensures multiset(Ordered(items)) == multiset(items)
    ensures forall x :: x in Ordered(items) <==> x in items
  {
    Sorting.SortSorts(Before, items);
    Sorting.SortPermutes(Before, items);
  }

  predicate AllBelow(a: seq<Item>, b: seq<Item>) {
    forall x, y :: x in a && y in b ==> x.block < y.block
  }

  lemma OrderedConcat(a: seq<Item>, b: seq<Item>)
    requires AllBelow(a, b)
    ensures Ordered(a + b) == Ordered(a) + Ordered(b)
  {
    forall i, j | 0 <= i < |a| && 0 <= j < |b| ensures Before(a[i], b[j]) {
      assert a[i] in a && b[j] in b;
    }
    Sorting.SortConcat(Before, a, b);
  }

  lemma {:induction false} BoundEventsConcat(a: seq<Item>, b: seq<Item>)
    ensures BoundEvents(a + b) == BoundEvents(a) + BoundEvents(b)
  {
    if b == [] {
      assert a + b == a;
    } else {
      assert (a + b)[..|a + b| - 1] == a + b[..|b| - 1];
      BoundEventsConcat(a, b[..|b| - 1]);
    }
  }

  // ---- Items of a longer chain ----------------------------------------------------------------------

  /** The items of `a + b` begin with those of `a`; the rest come from the blocks of `b`. */
  lemma {:induction false} ItemsExtend(a: seq<Decision>, b: seq<Decision>, low: nat, high: nat)
    returns (rest: seq<Item>)
    requires forall d :: d in b ==> low < d.operation.blockNumber <= high
    ensures Items(a + b) == Items(a) + rest
    ensures forall x :: x in rest ==> low < x.block <= high
  {
    if b == [] {
      assert a + b == a;
      rest := [];
    } else {
      var n := |b| - 1;
      assert b == b[..n] + [b[n]] && b[n] in b;
      assert (a + b)[..|a + b| - 1] == a + b[..n];
      rest := ItemsExtend(a, b[..n], low, high);
      rest := rest + ItemsOf(a + b[..n], b[n]);
    }
  }

  function Between(items: seq<Item>, low: nat, high: nat): seq<Item> {
    if items == [] then []
    else
      var n := |items| - 1;
      Between(items[..n], low, high) + if low < items[n].block <= high then [items[n]] else []
  }

  lemma {:induction false} BetweenConcat(a: seq<Item>, b: seq<Item>, low: nat, high: nat)
    ensures Between(a + b, low, high) == Between(a, low, high) + Between(b, low, high)
  {
    if b == [] {
      assert a + b == a;
    } else {
      assert (a + b)[..|a + b| - 1] == a + b[..|b| - 1];
      BetweenConcat(a, b[..|b| - 1], low, high);
    }
  }

  lemma {:induction false} BetweenAll(items: seq<Item>, low: nat, high: nat)
    requires forall x :: x in items ==> low < x.block <= high
    ensures Between(items, low, high) == items
  {
    if items != [] {
      var n := |items| - 1;
      assert items == items[..n] + [items[n]];
      assert items[n] in items;
      BetweenAll(items[..n], low, high);
    }
  }

  lemma {:induction false} BetweenNone(items: seq<Item>, low: nat, high: nat)
    requires forall x :: x in items ==> x.block <= low || high < x.block
    ensures Between(items, low, high) == []
  {
    if items != [] {
      BetweenNone(items[..|items| - 1], low, high);
    }
  }

  lemma {:induction false} DecisionsConcat(a: seq<Entry>, b: seq<Entry>)
    ensures Decisions(a + b) == Decisions(a) + Decisions(b)
  {
    if b == [] {
      assert a + b == a;
    } else {
      assert (a + b)[..|a + b| - 1] == a + b[..|b| - 1];
      DecisionsConcat(a, b[..|b| - 1]);
    }
  }

  /** The decisions of the entries from height `low + 1` to `high` name those heights. */
  lemma {:induction false} DecisionHeights(entries: seq<Entry>, low: nat, high: nat)
    requires Numbered(entries) && low <= high <= |entries|
    ensures forall d :: d in Decisions(entries[low..high]) ==> low < d.operation.blockNumber <= high
  {
    if low < high {
      DecisionHeights(entries, low, high - 1);
      assert entries[low..high][..high - low - 1] == entries[low..high - 1];
      assert entries[low..high][high - low - 1] == entries[high - 1];
    }
  }

  lemma BetweenMiddle(first: seq<Item>, middle: seq<Item>, last: seq<Item>, low: nat, high: nat)
    requires forall x :: x in first ==> x.block <= low
    requires forall x :: x in middle ==> low < x.block <= high
    requires forall x :: x in last ==> high < x.block
    ensures Between(first + middle + last, low, high) == middle
  {
    BetweenConcat(first + middle, last, low, high);
    BetweenConcat(first, middle, low, high);
    BetweenNone(first, low, high);
    BetweenAll(middle, low, high);
    BetweenNone(last, low, high);
  }

  /** The items of a chain in three pieces, cut at two heights. */
  lemma ItemsInPieces(a: seq<Decision>, b: seq<Decision>, c: seq<Decision>, low: nat, high: nat, top: nat)
    requires low <= high <= top
    requires forall d :: d in a ==> 0 < d.operation.blockNumber <= low
    requires forall d :: d in b ==> low < d.operation.blockNumber <= high
    requires forall d :: d in c ==> high < d.operation.blockNumber <= top
    ensures Items(a + b) == Items(a) + Between(Items(a + b + c), low, high)
    ensures AllBelow(Items(a), Between(Items(a + b + c), low, high))
  {
    var first := ItemsExtend([], a, 0, low);
    assert [] + a == a;
    var middle := ItemsExtend(a, b, low, high);
    var last := ItemsExtend(a + b, c, high, top);
    assert Items(a) == first;
    assert Items(a + b + c) == first + middle + last;
    BetweenMiddle(first, middle, last, low, high);
  }

  /** The decisions of a chain in three pieces, cut at two heights. */
  lemma DecisionsInPieces(entries: seq<Entry>, low: nat, high: nat)
    returns (a: seq<Decision>, b: seq<Decision>, c: seq<Decision>)
    requires Numbered(entries) && low <= high <= |entries|
    ensures Decisions(entries[..low]) == a && Decisions(entries[..high]) == a + b && Decisions(entries) == a + b + c
    ensures forall d :: d in a ==> 0 < d.operation.blockNumber <= low
    ensures forall d :: d in b ==> low < d.operation.blockNumber <= high
    ensures forall d :: d in c ==> high < d.operation.blockNumber <= |entries|
  {
    a, b, c := Decisions(entries[0..low]), Decisions(entries[low..high]), Decisions(entries[high..|entries|]);
    assert entries[..low] == entries[0..low];
    assert entries[..high] == entries[0..low] + entries[low..high];
    assert entries == entries[..high] + entries[high..|entries|];
    DecisionsConcat(entries[0..low], entries[low..high]);
    DecisionsConcat(entries[..high], entries[high..|entries|]);
    DecisionHeights(entries, 0, low);
    DecisionHeights(entries, low, high);
    DecisionHeights(entries, high, |entries|);
  }

  /** The items of blocks `low + 1` to `high`, taken out of the whole chain, extend those up to `low`. */
  lemma ItemsSplit(entries: seq<Entry>, low: nat, high: nat)
    requires Numbered(entries) && low <= high <= |entries|
    ensures var added := Between(Items(Decisions(entries)), low, high);
            && Items(Decisions(entries[..high])) == Items(Decisions(entries[..low])) + added
            && AllBelow(Items(Decisions(entries[..low])), added)
  {
    var a, b, c := DecisionsInPieces(entries, low, high);
    ItemsInPieces(a, b, c, low, high, |entries|);
  }

  // ---- Finalisation extends the fold ----------------------------------------------------------------

  lemma {:induction false} PublishedIsLive(rows: seq<Row>, id: string)
    ensures Published(LiveDecisions(rows), id) <==> FirstLive(rows, id).Some?
  {
    if rows != [] {
      var n := |rows| - 1;
      PublishedIsLive(rows[..n], id);
      var earlier, all := LiveDecisions(rows[..n]), LiveDecisions(rows);
      if rows[n].state != Reverted {
        assert all == earlier + [rows[n].decision];
        if Published(earlier, id) {
          var k :| 0 <= k < |earlier| && earlier[k].Carries(id);
          assert all[k].Carries(id);
        }
        if rows[n].decision.Carries(id) {
          assert all[|earlier|].Carries(id);
        }
      } else {
        assert all == earlier;
      }
    }
  }

  /** A live operation has its event bound to it exactly when no earlier live one publishes the event. */
  lemma BoundIsFirst(rows: seq<Row>, bindings: map<string, Binding>, owner: string -> string, n: nat)
    requires BindingsAgree(rows, bindings, owner)
    requires n < |rows| && rows[n].state != Reverted && rows[n].decision.verdict.Accepted?
    ensures ItemsOf(LiveDecisions(rows[..n]), rows[n].decision) == [ItemOf(rows[n], bindings, n)]
  {
    var id := rows[n].decision.verdict.event.id;
    PublishedIsLive(rows[..n], id);
    if rows[n].decision.Publishes() {
      assert LiveCarrier(rows[n], id);
      var first := FirstLive(rows, id);
      if FirstLive(rows[..n], id).Some? {
        assert LiveCarrier(rows[FirstLive(rows[..n], id).value], id);
      }
      assert first == Some(n) <==> FirstLive(rows[..n], id).None?;
    }
  }

  /** No operation carries the instant yet. */
  predicate UnusedInstant(rows: seq<Row>, now: nat) {
    forall r :: 0 <= r < |rows| ==> rows[r].irreversibleAt != Some(now)
  }

  /** The row becomes irreversible with the heights from `low + 1` to `high`. */
  predicate IsNewAt(row: Row, low: nat, high: nat) {
    row.state != Reverted && row.decision.verdict.Accepted? && low < row.decision.operation.blockNumber <= high
  }

  /**
   What the query selects after the update of a row: what it selected before it, at or below the
   irreversible height, or what has become irreversible with it, but not both.
   */
  predicate SelectsInTwo(checkpoints: seq<Checkpoint>, before: Row, after: Row, low: nat, high: nat, now: nat) {
    && after.decision == before.decision
    && (after.state == Reverted <==> before.state == Reverted)
    && (IsSelected(checkpoints, after, high, now) <==>
          IsSelected(checkpoints, before, high, now) || IsNewAt(after, low, high))
    && (IsSelected(checkpoints, before, high, now) ==> before.decision.operation.blockNumber <= low)
  }

  lemma FinalizeSelects(t: Tables, entries: seq<Entry>, owner: string -> string, number: nat, now: nat, r: nat)
    requires Represents(t, entries, owner) && r < |t.rows|
    ensures SelectsInTwo(t.checkpoints, t.rows[r], FinalizeRows(t.checkpoints, t.rows, number, now)[r],
                         t.lastIrreversible, number, now)
  {
    LiveRowsWithin(t.checkpoints, t.rows, entries, t.lastIrreversible);
    assert RowAgrees(t.checkpoints, t.rows[r]);
  }

  /** Live rows come in the order of their blocks. */
  predicate BlocksAscend(rows: seq<Row>) {
    forall r, s :: 0 <= r < s < |rows| && rows[r].state != Reverted && rows[s].state != Reverted ==>
      rows[r].decision.operation.blockNumber <= rows[s].decision.operation.blockNumber
  }

  predicate UpTo(decisions: seq<Decision>, height: nat) {
    forall k :: 0 <= k < |decisions| ==> decisions[k].operation.blockNumber <= height
  }

  lemma {:induction false} LiveUpTo(rows: seq<Row>, height: nat)
    requires forall r :: 0 <= r < |rows| && rows[r].state != Reverted ==>
               rows[r].decision.operation.blockNumber <= height
    ensures UpTo(LiveDecisions(rows), height)
  {
    if rows != [] {
      LiveUpTo(rows[..|rows| - 1], height);
    }
  }

  lemma {:induction false} NoneBetween(decisions: seq<Decision>, low: nat, high: nat)
    requires UpTo(decisions, low)
    ensures Between(Items(decisions), low, high) == []
  {
    if decisions != [] {
      var n := |decisions| - 1;
      NoneBetween(decisions[..n], low, high);
      BetweenConcat(Items(decisions[..n]), ItemsOf(decisions[..n], decisions[n]), low, high);
      BetweenNone(ItemsOf(decisions[..n], decisions[n]), low, high);
    }
  }

  lemma LiveGrows(rows: seq<Row>, n: nat)
    requires n < |rows|
    ensures LiveDecisions(rows[..n + 1])
         == LiveDecisions(rows[..n]) + if rows[n].state != Reverted then [rows[n].decision] else []
  {
    assert rows[..n + 1][..n] == rows[..n];
  }

  lemma BetweenNext(earlier: seq<Decision>, decision: Decision, low: nat, high: nat)
    ensures Between(Items(earlier + [decision]), low, high)
         == Between(Items(earlier), low, high) + Between(ItemsOf(earlier, decision), low, high)
  {
    assert (earlier + [decision])[..|earlier|] == earlier;
    BetweenConcat(Items(earlier), ItemsOf(earlier, decision), low, high);
  }

  lemma BetweenOne(x: Item, low: nat, high: nat)
    ensures Between([x], low, high) == if low < x.block <= high then [x] else []
  {
    assert [x][..0] == [];
  }

  /** The next live row adds its item to the chain's, if it is among the heights in between. */
  lemma BetweenGrows(rows: seq<Row>, bindings: map<string, Binding>, owner: string -> string, low: nat, high: nat,
                     n: nat)
    requires BindingsAgree(rows, bindings, owner) && n < |rows|
    ensures Between(Items(LiveDecisions(rows[..n + 1])), low, high)
         == Between(Items(LiveDecisions(rows[..n])), low, high)
            + if IsNewAt(rows[n], low, high) then [ItemOf(rows[n], bindings, n)] else []
  {
    var earlier := LiveDecisions(rows[..n]);
    LiveGrows(rows, n);
    if rows[n].state != Reverted {
      BetweenNext(earlier, rows[n].decision, low, high);
      if rows[n].decision.verdict.Accepted? {
        BoundIsFirst(rows, bindings, owner, n);
        BetweenOne(ItemOf(rows[n], bindings, n), low, high);
      }
    } else {
      assert earlier + [] == earlier;
    }
  }

  /** `rows` and `bindings` are those of `t` after the update of a finalisation. */
  ghost predicate IsUpdated(t: Tables, rows: seq<Row>, bindings: map<string, Binding>, owner: string -> string,
                            number: nat, now: nat)
  {
    && |rows| == |t.rows| && BlocksAscend(rows) && BindingsAgree(rows, bindings, owner)
    && bindings.Keys == t.bindings.Keys && (forall id :: id in bindings ==> bindings[id].row == t.bindings[id].row)
    && forall r :: 0 <= r < |rows| ==>
         SelectsInTwo(t.checkpoints, t.rows[r], rows[r], t.lastIrreversible, number, now)
  }

  lemma UpdateIsUpdated(t: Tables, entries: seq<Entry>, owner: string -> string, number: nat, now: nat)
    requires Represents(t, entries, owner)
    ensures IsUpdated(t, FinalizeRows(t.checkpoints, t.rows, number, now), FinalizeBindings(t, number), owner,
                      number, now)
  {
    var rows := FinalizeRows(t.checkpoints, t.rows, number, now);
    BindingsFinalized(t, owner, number, now);
    forall r | 0 <= r < |rows|
      ensures SelectsInTwo(t.checkpoints, t.rows[r], rows[r], t.lastIrreversible, number, now)
    {
      FinalizeSelects(t, entries, owner, number, now, r);
    }
    forall r, s | 0 <= r < s < |rows| && rows[r].state != Reverted && rows[s].state != Reverted
      ensures rows[r].decision.operation.blockNumber <= rows[s].decision.operation.blockNumber
    {
      assert LiveInOrder(t.rows, r, s);
    }
  }

  lemma PutInTwo(a: seq<Item>, b: seq<Item>, one: seq<Item>, early: bool, late: bool)
    requires early ==> b == []
    requires !(early && late)
    ensures a + b + (if early || late then one else [])
         == a + (if early then one else []) + (b + if late then one else [])
  {
    if early {
      assert a + [] == a && one + [] == one;
    }
  }

  /** What the query selects: first what it selected before the update, then the heights in between. */
  lemma {:induction false} SelectedInTwo(t: Tables, rows: seq<Row>, bindings: map<string, Binding>,
                                         owner: string -> string, number: nat, now: nat, k: nat)
    requires IsUpdated(t, rows, bindings, owner, number, now) && k <= |rows|
    ensures Selected(t.checkpoints, rows[..k], bindings, number, now)
         == Selected(t.checkpoints, t.rows[..k], t.bindings, number, now)
            + Between(Items(LiveDecisions(rows[..k])), t.lastIrreversible, number)
  {
    if k > 0 {
      var n := k - 1;
      SelectedInTwo(t, rows, bindings, owner, number, now, n);
      assert BindingsAgree(rows, bindings, owner);
      BetweenGrows(rows, bindings, owner, t.lastIrreversible, number, n);
      SelectedGrows(t, rows, bindings, owner, number, now, n);
      PutInTwo(Selected(t.checkpoints, t.rows[..n], t.bindings, number, now),
               Between(Items(LiveDecisions(rows[..n])), t.lastIrreversible, number),
               if rows[n].decision.verdict.Accepted? then [ItemOf(rows[n], bindings, n)] else [],
               IsSelected(t.checkpoints, t.rows[n], number, now), IsNewAt(rows[n], t.lastIrreversible, number));
    } else {
      assert rows[..0] == [] && t.rows[..0] == [];
    }
  }

  lemma SelectedGrows(t: Tables, rows: seq<Row>, bindings: map<string, Binding>, owner: string -> string,
                      number: nat, now: nat, n: nat)
    requires IsUpdated(t, rows, bindings, owner, number, now) && n < |rows|
    ensures Selected(t.checkpoints, rows[..n + 1], bindings, number, now)
         == Selected(t.checkpoints, rows[..n], bindings, number, now)
            + if IsSelected(t.checkpoints, rows[n], number, now) then [ItemOf(rows[n], bindings, n)] else []
    ensures Selected(t.checkpoints, t.rows[..n + 1], t.bindings, number, now)
         == Selected(t.checkpoints, t.rows[..n], t.bindings, number, now)
            + if IsSelected(t.checkpoints, t.rows[n], number, now) then [ItemOf(rows[n], bindings, n)] else []
    ensures SelectsInTwo(t.checkpoints, t.rows[n], rows[n], t.lastIrreversible, number, now)
    ensures IsSelected(t.checkpoints, t.rows[n], number, now) ==>
              Between(Items(LiveDecisions(rows[..n])), t.lastIrreversible, number) == []
  {
    assert rows[..n + 1][..n] == rows[..n] && t.rows[..n + 1][..n] == t.rows[..n];
    if IsSelected(t.checkpoints, t.rows[n], number, now) {
      LiveUpTo(rows[..n], t.lastIrreversible);
      NoneBetween(LiveDecisions(rows[..n]), t.lastIrreversible, number);
    }
  }

  lemma ChainEventsSplit(entries: seq<Entry>, low: nat, high: nat)
    requires Numbered(entries) && low <= high <= |entries|
    ensures ChainEvents(entries[..high])
         == ChainEvents(entries[..low]) + BoundEvents(Ordered(Between(Items(Decisions(entries)), low, high)))
  {
    ItemsSplit(entries, low, high);
    var first, added := Items(Decisions(entries[..low])), Between(Items(Decisions(entries)), low, high);
    OrderedConcat(first, added);
    BoundEventsConcat(Ordered(first), Ordered(added));
  }

  /** What a finalisation materialises. */
  function FinalizedNow(t: Tables, number: nat, now: nat): seq<Event> {
    BoundEvents(Ordered(Selected(t.checkpoints, FinalizeRows(t.checkpoints, t.rows, number, now),
                                 FinalizeBindings(t, number), number, now)))
  }

  /** What the query of a finalisation would yield before its update: the events of earlier finalisations. */
  function ReplayedAt(t: Tables, number: nat, now: nat): seq<Event> {
    BoundEvents(Ordered(Selected(t.checkpoints, t.rows, t.bindings, number, now)))
  }

  /** The events of the blocks from `low + 1` to `high`. */
  function NewEvents(entries: seq<Entry>, low: nat, high: nat): seq<Event> {
    BoundEvents(Ordered(Between(Items(Decisions(entries)), low, high)))
  }

  /** A finalisation materialises what was finalised at its instant before, then the new blocks. */
  lemma FinalizesInTwo(t: Tables, entries: seq<Entry>, owner: string -> string, number: nat, now: nat)
    requires Represents(t, entries, owner) && number <= |entries|
    ensures FinalizedNow(t, number, now)
         == ReplayedAt(t, number, now) + NewEvents(entries, t.lastIrreversible, number)
  {
    var rows, bindings := FinalizeRows(t.checkpoints, t.rows, number, now), FinalizeBindings(t, number);
    UpdateIsUpdated(t, entries, owner, number, now);
    SelectedInTwo(t, rows, bindings, owner, number, now, |rows|);
    assert rows[..|rows|] == rows && t.rows[..|rows|] == t.rows;
    FinalizedDecisions(t.checkpoints, t.rows, number, now);
    var replayed, added := Selected(t.checkpoints, t.rows, t.bindings, number, now),
                     Between(Items(Decisions(entries)), t.lastIrreversible, number);
    SelectedUpTo(t, entries, owner, number, now);
    BetweenAbove(Items(Decisions(entries)), t.lastIrreversible, number);
    OrderedConcat(replayed, added);
    BoundEventsConcat(Ordered(replayed), Ordered(added));
  }

  /** The row that the item comes from is selected. */
  predicate ComesFrom(checkpoints: seq<Checkpoint>, rows: seq<Row>, bindings: map<string, Binding>, number: nat,
                      now: nat, r: nat, x: Item)
  {
    r < |rows| && IsSelected(checkpoints, rows[r], number, now) && x == ItemOf(rows[r], bindings, r)
  }

  lemma {:induction false} SelectedMembers(checkpoints: seq<Checkpoint>, rows: seq<Row>,
                                           bindings: map<string, Binding>, number: nat, now: nat, x: Item)
    ensures x in Selected(checkpoints, rows, bindings, number, now)
       <==> exists r: nat :: ComesFrom(checkpoints, rows, bindings, number, now, r, x)
  {
    if rows != [] {
      var n := |rows| - 1;
      SelectedMembers(checkpoints, rows[..n], bindings, number, now, x);
      if x in Selected(checkpoints, rows[..n], bindings, number, now) {
        var r: nat :| ComesFrom(checkpoints, rows[..n], bindings, number, now, r, x);
        assert ComesFrom(checkpoints, rows, bindings, number, now, r, x);
      } else if IsSelected(checkpoints, rows[n], number, now) && x == ItemOf(rows[n], bindings, n) {
        assert ComesFrom(checkpoints, rows, bindings, number, now, n, x);
      }
      forall r: nat | ComesFrom(checkpoints, rows, bindings, number, now, r, x) && r < n
        ensures ComesFrom(checkpoints, rows[..n], bindings, number, now, r, x)
      {
      }
    }
  }

  lemma SelectedUpTo(t: Tables, entries: seq<Entry>, owner: string -> string, number: nat, now: nat)
    requires Represents(t, entries, owner)
    ensures forall x :: x in Selected(t.checkpoints, t.rows, t.bindings, number, now) ==> x.block <= t.lastIrreversible
  {
    forall x | x in Selected(t.checkpoints, t.rows, t.bindings, number, now) ensures x.block <= t.lastIrreversible {
      SelectedMembers(t.checkpoints, t.rows, t.bindings, number, now, x);
      var r: nat :| ComesFrom(t.checkpoints, t.rows, t.bindings, number, now, r, x);
      FinalizeSelects(t, entries, owner, number, now, r);
    }
  }

  lemma {:induction false} BetweenAbove(items: seq<Item>, low: nat, high: nat)
    ensures forall x :: x in Between(items, low, high) ==> low < x.block <= high
  {
    if items != [] {
      BetweenAbove(items[..|items| - 1], low, high);
    }
  }

  /** No operation at or below `number` that was finalised at the instant `now` has its event bound to it. */
  predicate ReplaysNothing(t: Tables, number: nat, now: nat) {
    forall r :: 0 <= r < |t.rows| && IsSelected(t.checkpoints, t.rows[r], number, now) ==>
      !ItemOf(t.rows[r], t.bindings, r).bound
  }

  lemma {:induction false} NoEventsIff(items: seq<Item>)
    ensures BoundEvents(items) == [] <==> forall x :: x in items ==> !x.bound
  {
    if items != [] {
      var n := |items| - 1;
      NoEventsIff(items[..n]);
      assert items == items[..n] + [items[n]];
    }
  }

  lemma ReplayedIff(t: Tables, number: nat, now: nat)
    ensures ReplayedAt(t, number, now) == [] <==> ReplaysNothing(t, number, now)
  {
    var items := Selected(t.checkpoints, t.rows, t.bindings, number, now);
    OrderedSorts(items);
    NoEventsIff(Ordered(items));
    if ReplaysNothing(t, number, now) {
      forall x | x in items ensures !x.bound {
        SelectedMembers(t.checkpoints, t.rows, t.bindings, number, now, x);
        var r: nat :| ComesFrom(t.checkpoints, t.rows, t.bindings, number, now, r, x);
      }
    } else {
      var r: nat :| r < |t.rows| && IsSelected(t.checkpoints, t.rows[r], number, now)
                    && ItemOf(t.rows[r], t.bindings, r).bound;
      var x := ItemOf(t.rows[r], t.bindings, r);
      assert ComesFrom(t.checkpoints, t.rows, t.bindings, number, now, r, x);
      SelectedMembers(t.checkpoints, t.rows, t.bindings, number, now, x);
    }
  }

  /**
   The exact condition: a finalisation materialises the events of the blocks that become irreversible with
   it, each once and in order, if and only if none that is irreversible carries its instant and is bound.
   */
  lemma FinalizesNewIff(t: Tables, entries: seq<Entry>, owner: string -> string, number: nat, now: nat)
    requires Represents(t, entries, owner) && number <= |entries|
    ensures FinalizedNow(t, number, now) == NewEvents(entries, t.lastIrreversible, number)
       <==> ReplaysNothing(t, number, now)
  {
    FinalizesInTwo(t, entries, owner, number, now);
    ReplayedIff(t, number, now);
    var replayed, added := ReplayedAt(t, number, now), NewEvents(entries, t.lastIrreversible, number);
    assert replayed + added == added <==> |replayed| == 0;
  }

  /** Then the chain's events are continued by exactly those of the finalisation. */
  lemma FinalizesTheNext(t: Tables, entries: seq<Entry>, owner: string -> string, number: nat, now: nat)
    requires Represents(t, entries, owner) && number <= |entries| && ReplaysNothing(t, number, now)
    ensures ChainEvents(entries[..Max(t.lastIrreversible, number)])
         == ChainEvents(entries[..t.lastIrreversible]) + FinalizedNow(t, number, now)
  {
    FinalizesNewIff(t, entries, owner, number, now);
    if number <= t.lastIrreversible {
      BetweenAbove(Items(Decisions(entries)), t.lastIrreversible, number);
      assert Between(Items(Decisions(entries)), t.lastIrreversible, number) == [];
    } else {
      ChainEventsSplit(entries, t.lastIrreversible, number);
    }
  }

  /**
   Whether a height can be finalised depends on the chain alone: it can exactly when none of the events
   up to there is refused in its turn, however finalisation was split before.
   */
  lemma FinalizesIffAccepted(data: LocalData, t: Tables, entries: seq<Entry>, owner: string -> string,
                             number: nat, now: nat)
    requires Represents(t, entries, owner) && ViewAgrees(data, t, entries)
    requires number <= |entries| && ReplaysNothing(t, number, now)
    ensures FinalizeThrough(data, t, number, now).Success?
       <==> AreAccepted(data, EMPTY_VIEW, ChainEvents(entries[..Max(t.lastIrreversible, number)]))
  {
    FinalizesTheNext(t, entries, owner, number, now);
    AcceptedConcat(data, EMPTY_VIEW, ChainEvents(entries[..t.lastIrreversible]), FinalizedNow(t, number, now));
  }

  /** A finalisation that replays nothing extends the fold by exactly the newly irreversible blocks. */
  lemma FinalizeKeepsView(data: LocalData, t: Tables, entries: seq<Entry>, owner: string -> string,
                          number: nat, now: nat)
    requires Represents(t, entries, owner) && ViewAgrees(data, t, entries)
    requires number <= |entries| && ReplaysNothing(t, number, now)
    requires FinalizeThrough(data, t, number, now).Success?
    ensures FinalizeThrough(data, t, number, now).value.lastIrreversible <= |entries|
    ensures ViewAgrees(data, FinalizeThrough(data, t, number, now).value, entries)
  {
    FinalizesTheNext(t, entries, owner, number, now);
    FinalizesIffAccepted(data, t, entries, owner, number, now);
    MaterializeAllConcat(data, EMPTY_VIEW, ChainEvents(entries[..t.lastIrreversible]), FinalizedNow(t, number, now));
  }

  // ---- Evidence only evolves ------------------------------------------------------------------------

  predicate StateMoves(before: State, after: State) {
    after == before || before == Included
  }

  /**
   Nothing recorded is lost: checkpoints and operations keep their content, their state only leaves
   `Included`, and whatever is irreversible stays exactly as it is, bindings included.
   */
  predicate Evolves(before: Tables, after: Tables) {
    && |before.checkpoints| <= |after.checkpoints| && |before.rows| <= |after.rows|
    && before.lastIrreversible <= after.lastIrreversible
    && (forall i :: 0 <= i < |before.checkpoints| ==>
          && after.checkpoints[i].block == before.checkpoints[i].block
          && StateMoves(before.checkpoints[i].state, after.checkpoints[i].state))
    && (forall r :: 0 <= r < |before.rows| ==> RowMoves(before.rows[r], after.rows[r]))
    && before.bindings.Keys <= after.bindings.Keys
    && (forall id :: id in before.bindings ==> BindingMoves(before.bindings[id], after.bindings[id]))
  }

  predicate RowMoves(before: Row, after: Row) {
    && after.checkpoint == before.checkpoint && after.decision == before.decision
    && StateMoves(before.state, after.state)
    && (before.state == Irreversible ==> after == before)
  }

  predicate BindingMoves(before: Binding, after: Binding) {
    after.event == before.event && (before.state == Irreversible ==> after == before)
  }

  /** In one step a binding moves to another operation only out of the reverted state. */
  predicate RebindsOnlyReverted(before: Tables, after: Tables) {
    forall id :: id in before.bindings && id in after.bindings && before.bindings[id].state != Reverted ==>
      after.bindings[id].row == before.bindings[id].row
  }

  lemma EvolvesTransitive(a: Tables, b: Tables, c: Tables)
    requires Evolves(a, b) && Evolves(b, c)
    ensures Evolves(a, c)
  {
    forall r | 0 <= r < |a.rows| ensures RowMoves(a.rows[r], c.rows[r]) {
      assert RowMoves(a.rows[r], b.rows[r]) && RowMoves(b.rows[r], c.rows[r]);
    }
    forall id | id in a.bindings ensures id in c.bindings && BindingMoves(a.bindings[id], c.bindings[id]) {
      assert BindingMoves(a.bindings[id], b.bindings[id]) && BindingMoves(b.bindings[id], c.bindings[id]);
    }
  }

  lemma {:induction false} InsertAllEvolves(t: Tables, checkpoint: nat, decisions: seq<Decision>)
    requires InsertOperations(t, checkpoint, decisions).Success?
    ensures var after := InsertOperations(t, checkpoint, decisions).value;
            && Evolves(t, after) && RebindsOnlyReverted(t, after)
            && |after.rows| == |t.rows| + |decisions|
            && (forall r :: |t.rows| <= r < |after.rows| ==>
                  after.rows[r] == Row(checkpoint, decisions[r - |t.rows|], Included, None))
            && after.checkpoints == t.checkpoints
            && after.lastIrreversible == t.lastIrreversible
  {
    if decisions != [] {
      var n := |decisions| - 1;
      InsertAllEvolves(t, checkpoint, decisions[..n]);
      var earlier := InsertOperations(t, checkpoint, decisions[..n]).value;
      var after := InsertOperations(t, checkpoint, decisions).value;
      assert InsertOperation(earlier, checkpoint, decisions[n]).Success?;
      assert Evolves(earlier, after);
      EvolvesTransitive(t, earlier, after);
      forall id | id in t.bindings && t.bindings[id].state != Reverted
        ensures after.bindings[id].row == t.bindings[id].row
      {
        InsertedBindingStays(t, checkpoint, decisions, id);
      }
    }
  }

  /** While a block is inserted, a live binding does not change at all. */
  lemma {:induction false} InsertedBindingStays(t: Tables, checkpoint: nat, decisions: seq<Decision>, id: string)
    requires InsertOperations(t, checkpoint, decisions).Success?
    requires id in t.bindings && t.bindings[id].state != Reverted
    ensures var after := InsertOperations(t, checkpoint, decisions).value;
            id in after.bindings && after.bindings[id] == t.bindings[id]
  {
    if decisions != [] {
      InsertedBindingStays(t, checkpoint, decisions[..|decisions| - 1], id);
    }
  }

  lemma ApplyEvolves(t: Tables, block: Block, decisions: seq<Decision>)
    requires ApplyBlock(t, block, decisions).Success?
    ensures Evolves(t, ApplyBlock(t, block, decisions).value)
    ensures RebindsOnlyReverted(t, ApplyBlock(t, block, decisions).value)
    ensures forall r :: 0 <= r < |ApplyBlock(t, block, decisions).value.rows| ==>
              var row := ApplyBlock(t, block, decisions).value.rows[r];
              row.irreversibleAt.None? || (r < |t.rows| && row.irreversibleAt == t.rows[r].irreversibleAt)
  {
    var extended := t.(checkpoints := t.checkpoints + [Checkpoint(block, Included)]);
    InsertAllEvolves(extended, |t.checkpoints|, decisions);
    var filled := InsertOperations(extended, |t.checkpoints|, decisions).value;
    forall r | 0 <= r < |filled.rows|
      ensures filled.rows[r].irreversibleAt.None? ||
              (r < |t.rows| && filled.rows[r].irreversibleAt == t.rows[r].irreversibleAt)
    {
      if r < |t.rows| {
        InsertedRowStays(extended, |t.checkpoints|, decisions, r);
      }
    }
  }

  lemma {:induction false} InsertedRowStays(t: Tables, checkpoint: nat, decisions: seq<Decision>, r: nat)
    requires InsertOperations(t, checkpoint, decisions).Success?
    requires r < |t.rows|
    ensures var after := InsertOperations(t, checkpoint, decisions).value;
            r < |after.rows| && after.rows[r] == t.rows[r]
  {
    if decisions != [] {
      InsertedRowStays(t, checkpoint, decisions[..|decisions| - 1], r);
    }
  }

  lemma RevertEvolves(t: Tables, entries: seq<Entry>, owner: string -> string, ancestor: nat)
    requires Represents(t, entries, owner)
    requires RevertAfter(t, ancestor).Success?
    ensures Evolves(t, RevertAfter(t, ancestor).value)
    ensures RebindsOnlyReverted(t, RevertAfter(t, ancestor).value)
  {
    LiveRowsWithin(t.checkpoints, t.rows, entries, t.lastIrreversible);
    assert forall i :: 0 <= i < |t.checkpoints| && t.checkpoints[i].state == State.Irreversible ==>
        t.checkpoints[i].block.number <= t.lastIrreversible;
    RevertEvolvesRows(t, ancestor);
  }

  lemma RevertEvolvesRows(t: Tables, ancestor: nat)
    requires RowsStand(t.checkpoints, t.rows) && RevertAfter(t, ancestor).Success?
    requires forall i :: 0 <= i < |t.checkpoints| && t.checkpoints[i].state == State.Irreversible ==>
               t.checkpoints[i].block.number <= t.lastIrreversible
    ensures Evolves(t, RevertAfter(t, ancestor).value)
    ensures RebindsOnlyReverted(t, RevertAfter(t, ancestor).value)
  {
    var after := RevertAfter(t, ancestor).value;
    forall r | 0 <= r < |t.rows| ensures RowMoves(t.rows[r], after.rows[r]) {
      assert RowAgrees(t.checkpoints, t.rows[r]);
    }
  }

  lemma FinalizeEvolves(data: LocalData, t: Tables, number: nat, now: nat)
    requires FinalizeThrough(data, t, number, now).Success?
    ensures Evolves(t, FinalizeThrough(data, t, number, now).value)
    ensures RebindsOnlyReverted(t, FinalizeThrough(data, t, number, now).value)
  {
    var after := FinalizeThrough(data, t, number, now).value;
    forall r | 0 <= r < |t.rows| ensures RowMoves(t.rows[r], after.rows[r]) {
    }
    forall id | id in t.bindings ensures id in after.bindings && BindingMoves(t.bindings[id], after.bindings[id]) {
    }
  }

  // ---- Runs -----------------------------------------------------------------------------------------

  datatype Step =
    | Apply(block: Block, decisions: seq<Decision>)
    | Revert(ancestor: nat)
    | Finalize(number: nat, now: nat)

  function Attempt(data: LocalData, t: Tables, step: Step): Result<Tables, Error> {
    match step
    case Apply(block, decisions) => ApplyBlock(t, block, decisions)
    case Revert(ancestor) => RevertAfter(t, ancestor)
    case Finalize(number, now) => FinalizeThrough(data, t, number, now)
  }

  /** One transaction: a refused one leaves the tables as they were. */
  function Do(data: LocalData, t: Tables, step: Step): Tables {
    var attempt := Attempt(data, t, step);
    if attempt.Success? then attempt.value else t
  }

  function Run(data: LocalData, steps: seq<Step>): Tables {
    if steps == [] then EMPTY_TABLES
    else Do(data, Run(data, steps[..|steps| - 1]), steps[|steps| - 1])
  }

  function Instants(steps: seq<Step>): set<nat> {
    set k | 0 <= k < |steps| && steps[k].Finalize? :: steps[k].now
  }

  /**
   What the callers guarantee: batch ids identify events, a revert never aims above the cursor, and
   no finalisation replays events of an earlier one, as when all their instants differ.
   */
  predicate Permitted(data: LocalData, owner: string -> string, steps: seq<Step>) {
    forall k :: 0 <= k < |steps| ==> PermittedAt(data, owner, steps, k)
  }

  predicate PermittedAt(data: LocalData, owner: string -> string, steps: seq<Step>, k: nat)
    requires k < |steps|
  {
    match steps[k]
    case Apply(_, decisions) => AllOwned(owner, decisions)
    case Revert(ancestor) => ancestor <= Run(data, steps[..k]).lastProcessed
    case Finalize(number, now) => ReplaysNothing(Run(data, steps[..k]), number, now)
  }

  ghost predicate Sound(data: LocalData, t: Tables, entries: seq<Entry>, owner: string -> string) {
    Represents(t, entries, owner) && ViewAgrees(data, t, entries)
  }

  predicate StepAllowed(t: Tables, owner: string -> string, step: Step) {
    match step
    case Apply(_, decisions) => AllOwned(owner, decisions)
    case Revert(ancestor) => ancestor <= t.lastProcessed
    case Finalize(number, now) => ReplaysNothing(t, number, now)
  }

  lemma ApplyIsSound(data: LocalData, t: Tables, entries: seq<Entry>, owner: string -> string,
                     block: Block, decisions: seq<Decision>)
    requires Sound(data, t, entries, owner) && AllOwned(owner, decisions)
    requires ApplyBlock(t, block, decisions).Success?
    ensures Sound(data, ApplyBlock(t, block, decisions).value, entries + [Entry(block, decisions)], owner)
    ensures (entries + [Entry(block, decisions)])[..t.lastIrreversible] == entries[..t.lastIrreversible]
  {
    ApplyAppends(t, entries, block, decisions, owner);
    assert (entries + [Entry(block, decisions)])[..t.lastIrreversible] == entries[..t.lastIrreversible];
  }

  lemma RevertIsSound(data: LocalData, t: Tables, entries: seq<Entry>, owner: string -> string, ancestor: nat)
    requires Sound(data, t, entries, owner) && t.lastIrreversible <= ancestor <= |entries|
    ensures RevertAfter(t, ancestor).Success?
    ensures Sound(data, RevertAfter(t, ancestor).value, entries[..ancestor], owner)
    ensures entries[..ancestor][..t.lastIrreversible] == entries[..t.lastIrreversible]
  {
    RevertCuts(t, entries, ancestor, owner);
    assert entries[..ancestor][..t.lastIrreversible] == entries[..t.lastIrreversible];
  }

  lemma FinalizeIsSound(data: LocalData, t: Tables, entries: seq<Entry>, owner: string -> string,
                        number: nat, now: nat)
    requires Sound(data, t, entries, owner) && number <= |entries| && ReplaysNothing(t, number, now)
    requires FinalizeThrough(data, t, number, now).Success?
    ensures Sound(data, FinalizeThrough(data, t, number, now).value, entries, owner)
  {
    FinalizeKeepsView(data, t, entries, owner, number, now);
    FinalizeRaises(data, t, entries, number, now, owner);
  }

  /** One step of the store is one step of the chain, and the irreversible part of the chain stays. */
  lemma StepIsSound(data: LocalData, t: Tables, entries: seq<Entry>, owner: string -> string, step: Step)
    returns (next: seq<Entry>)
    requires Sound(data, t, entries, owner)
    requires StepAllowed(t, owner, step)
    ensures Sound(data, Do(data, t, step), next, owner)
    ensures t.lastIrreversible <= |next| && next[..t.lastIrreversible] == entries[..t.lastIrreversible]
  {
    next := entries;
    if Attempt(data, t, step).Success? {
      match step
      case Apply(block, decisions) =>
        ApplyIsSound(data, t, entries, owner, block, decisions);
        next := entries + [Entry(block, decisions)];
      case Revert(ancestor) =>
        RevertIsSound(data, t, entries, owner, ancestor);
        next := entries[..ancestor];
      case Finalize(number, now) =>
        FinalizeIsSound(data, t, entries, owner, number, now);
    }
  }

  /** One step loses no evidence and moves only reverted bindings. */
  lemma StepEvolves(data: LocalData, t: Tables, entries: seq<Entry>, owner: string -> string, step: Step)
    requires Represents(t, entries, owner)
    ensures Evolves(t, Do(data, t, step)) && RebindsOnlyReverted(t, Do(data, t, step))
  {
    if Attempt(data, t, step).Success? {
      match step
      case Apply(block, decisions) => ApplyEvolves(t, block, decisions);
      case Revert(ancestor) => RevertEvolves(t, entries, owner, ancestor);
      case Finalize(number, now) => FinalizeEvolves(data, t, number, now);
    }
  }

  lemma StepInstants(data: LocalData, t: Tables, step: Step, used: set<nat>)
    requires forall r :: 0 <= r < |t.rows| && t.rows[r].irreversibleAt.Some? ==> t.rows[r].irreversibleAt.value in used
    ensures forall r :: 0 <= r < |Do(data, t, step).rows| && Do(data, t, step).rows[r].irreversibleAt.Some? ==>
              Do(data, t, step).rows[r].irreversibleAt.value in used + (if step.Finalize? then {step.now} else {})
  {
    if Attempt(data, t, step).Success? && step.Apply? {
      ApplyEvolves(t, step.block, step.decisions);
    }
  }

  lemma EmptyIsSound(data: LocalData, owner: string -> string)
    ensures Sound(data, EMPTY_TABLES, [], owner)
  {
  }

  lemma {:induction false} RunInstants(data: LocalData, steps: seq<Step>)
    ensures forall r :: 0 <= r < |Run(data, steps).rows| && Run(data, steps).rows[r].irreversibleAt.Some? ==>
              Run(data, steps).rows[r].irreversibleAt.value in Instants(steps)
  {
    if steps != [] {
      var n := |steps| - 1;
      RunInstants(data, steps[..n]);
      StepInstants(data, Run(data, steps[..n]), steps[n], Instants(steps[..n]));
      assert Instants(steps[..n]) + (if steps[n].Finalize? then {steps[n].now} else {}) <= Instants(steps);
    }
  }

  /** An instant that no finalisation has used replays nothing. */
  lemma FreshReplaysNothing(data: LocalData, steps: seq<Step>, number: nat, now: nat)
    requires now !in Instants(steps)
    ensures ReplaysNothing(Run(data, steps), number, now)
  {
    RunInstants(data, steps);
    assert UnusedInstant(Run(data, steps).rows, now);
  }

  lemma NextStepAllowed(data: LocalData, owner: string -> string, steps: seq<Step>, k: nat)
    requires Permitted(data, owner, steps) && k < |steps|
    ensures StepAllowed(Run(data, steps[..k]), owner, steps[k])
  {
    assert PermittedAt(data, owner, steps, k);
  }

  /**
   Every reachable state of the store is sound: its live rows are one linked chain, its bindings are
   the earliest live publications, and its view is the fold over the irreversible part of the chain.
   */
  lemma {:induction false} RunIsSound(data: LocalData, owner: string -> string, steps: seq<Step>)
    returns (entries: seq<Entry>)
    requires Permitted(data, owner, steps)
    ensures Sound(data, Run(data, steps), entries, owner)
  {
    if steps == [] {
      entries := [];
      EmptyIsSound(data, owner);
    } else {
      var n := |steps| - 1;
      PermittedPrefix(data, owner, steps, n);
      var earlier := RunIsSound(data, owner, steps[..n]);
      NextStepAllowed(data, owner, steps, n);
      entries := StepIsSound(data, Run(data, steps[..n]), earlier, owner, steps[n]);
    }
  }

  lemma PermittedPrefix(data: LocalData, owner: string -> string, steps: seq<Step>, n: nat)
    requires Permitted(data, owner, steps) && n <= |steps|
    ensures Permitted(data, owner, steps[..n])
  {
    forall k | 0 <= k < n ensures PermittedAt(data, owner, steps[..n], k) {
      assert steps[..n][..k] == steps[..k] && steps[..n][k] == steps[k];
      assert PermittedAt(data, owner, steps, k);
    }
  }

  lemma ShorterPrefix(a: seq<Entry>, b: seq<Entry>, long: nat, short: nat)
    requires short <= long <= |a| && long <= |b| && a[..long] == b[..long]
    ensures a[..short] == b[..short]
  {
    assert a[..short] == a[..long][..short] && b[..short] == b[..long][..short];
  }

  /** `next` is the state one step after `t`. */
  predicate Leads(data: LocalData, t: Tables, step: Step, next: Tables) {
    next == Do(data, t, step)
  }

  /** Whatever every allowed step keeps, a run keeps. */
  lemma {:induction false} RunInduction(data: LocalData, owner: string -> string, steps: seq<Step>, i: nat,
                                        holds: Tables -> bool)
    requires Permitted(data, owner, steps) && i <= |steps| && holds(Run(data, steps[..i]))
    requires forall t, step, next {:trigger holds(t), Leads(data, t, step, next)} ::
               holds(t) && StepAllowed(t, owner, step) && Leads(data, t, step, next) ==> holds(next)
    ensures holds(Run(data, steps))
  {
    if i == |steps| {
      assert steps[..i] == steps;
    } else {
      var n := |steps| - 1;
      PermittedPrefix(data, owner, steps, n);
      assert steps[..n][..i] == steps[..i];
      RunInduction(data, owner, steps[..n], i, holds);
      NextStepAllowed(data, owner, steps, n);
      assert Leads(data, Run(data, steps[..n]), steps[n], Run(data, steps));
    }
  }

  /** `t`, with the chain `after`, is later than `first`, with the chain `before`. */
  ghost predicate IsLater(data: LocalData, owner: string -> string, first: Tables, before: seq<Entry>, t: Tables,
                          after: seq<Entry>)
  {
    && Sound(data, t, after, owner) && Evolves(first, t)
    && first.lastIrreversible <= |before| && first.lastIrreversible <= |after|
    && after[..first.lastIrreversible] == before[..first.lastIrreversible]
  }

  lemma StepIsLater(data: LocalData, owner: string -> string, first: Tables, before: seq<Entry>, t: Tables,
                    middle: seq<Entry>, step: Step)
    returns (after: seq<Entry>)
    requires IsLater(data, owner, first, before, t, middle) && StepAllowed(t, owner, step)
    ensures IsLater(data, owner, first, before, Do(data, t, step), after)
  {
    after := StepIsSound(data, t, middle, owner, step);
    StepEvolves(data, t, middle, owner, step);
    EvolvesTransitive(first, t, Do(data, t, step));
    ShorterPrefix(after, middle, t.lastIrreversible, first.lastIrreversible);
  }

  /**
   Irreversibility over whole runs: between any two moments of a run nothing recorded is lost, what
   was irreversible is unchanged, and the chain keeps its irreversible part.
   */
  lemma RunEvolves(data: LocalData, owner: string -> string, steps: seq<Step>, i: nat)
    returns (before: seq<Entry>, after: seq<Entry>)
    requires Permitted(data, owner, steps) && i <= |steps|
    ensures Sound(data, Run(data, steps[..i]), before, owner)
    ensures IsLater(data, owner, Run(data, steps[..i]), before, Run(data, steps), after)
  {
    PermittedPrefix(data, owner, steps, i);
    before := RunIsSound(data, owner, steps[..i]);
    after := SoundIsLater(data, owner, steps, i, before);
  }

  lemma SoundIsLater(data: LocalData, owner: string -> string, steps: seq<Step>, i: nat, before: seq<Entry>)
    returns (after: seq<Entry>)
    requires Permitted(data, owner, steps) && i <= |steps|
    requires Sound(data, Run(data, steps[..i]), before, owner)
    ensures IsLater(data, owner, Run(data, steps[..i]), before, Run(data, steps), after)
  {
    var first := Run(data, steps[..i]);
    var holds := (t: Tables) => exists entries :: IsLater(data, owner, first, before, t, entries);
    assert IsLater(data, owner, first, before, first, before);
    forall t, step, next {:trigger holds(t), Leads(data, t, step, next)}
      | holds(t) && StepAllowed(t, owner, step) && Leads(data, t, step, next)
      ensures holds(next)
    {
      var middle :| IsLater(data, owner, first, before, t, middle);
      var entries := StepIsLater(data, owner, first, before, t, middle, step);
    }
    RunInduction(data, owner, steps, i, holds);
    after :| IsLater(data, owner, first, before, Run(data, steps), after);
  }
}
