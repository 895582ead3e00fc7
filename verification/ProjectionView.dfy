/**
 What the view of a run shows, in terms of the operations that are irreversible: which events count, in
 which order, and which results they leave.
 */
module ProjectionView {
  import opened Wrappers
  import opened MatchView
  import opened MatchEffects
  import opened ProjectionTables
  import opened ProjectionChain
  import opened ProjectionRuns
  import opened ProjectionTheorems
  import Sorting

  // ---- The events that count ------------------------------------------------------------------------

  /** Decision `k` publishes the event, and no decision before it publishes one with its id. */
  predicate FirstPublishes(decisions: seq<Decision>, k: nat, e: Event) {
    && k < |decisions| && decisions[k].Publishes() && decisions[k].verdict.event == e
    && forall j :: 0 <= j < k ==> !decisions[j].Carries(e.id)
  }

  /** The item of decision `k`, if its event counts. */
  predicate IsItemAt(decisions: seq<Decision>, k: nat, x: Item) {
    FirstPublishes(decisions, k, x.event) && x.bound
    && x.block == decisions[k].operation.blockNumber && x.index == decisions[k].operation.index
  }

  lemma {:induction false} ItemsIff(decisions: seq<Decision>, x: Item)
    requires x.bound
    ensures x in Items(decisions) <==> exists k: nat :: IsItemAt(decisions, k, x)
  {
    if decisions != [] {
      var n := |decisions| - 1;
      ItemsIff(decisions[..n], x);
      ItemAtGrows(decisions, x);
    }
  }

  lemma ItemAtGrows(decisions: seq<Decision>, x: Item)
    requires decisions != [] && x.bound
    ensures var n := |decisions| - 1;
            (exists k: nat :: IsItemAt(decisions, k, x)) <==>
              (exists k: nat :: IsItemAt(decisions[..n], k, x)) || x in ItemsOf(decisions[..n], decisions[n])
  {
    var n := |decisions| - 1;
    var shorter := decisions[..n];
    if k: nat :| IsItemAt(decisions, k, x) {
      if k < n {
        assert IsItemAt(shorter, k, x);
      } else {
        NotPublished(shorter, x.event.id);
      }
    }
    if k: nat :| IsItemAt(shorter, k, x) {
      assert IsItemAt(decisions, k, x);
    }
    if x in ItemsOf(shorter, decisions[n]) {
      NotPublished(shorter, x.event.id);
      forall j | 0 <= j < n ensures !decisions[j].Carries(x.event.id) {
        assert shorter[j] == decisions[j];
      }
      assert IsItemAt(decisions, n, x);
    }
  }

  lemma NotPublished(decisions: seq<Decision>, id: string)
    ensures !Published(decisions, id) <==> forall j :: 0 <= j < |decisions| ==> !decisions[j].Carries(id)
  {
  }

  lemma {:induction false} BoundEventsIff(items: seq<Item>, e: Event)
    ensures e in BoundEvents(items) <==> exists x :: x in items && x.bound && x.event == e
  {
    if items != [] {
      var n := |items| - 1;
      BoundEventsIff(items[..n], e);
      assert items == items[..n] + [items[n]];
      if e in BoundEvents(items[..n]) {
        var x :| x in items[..n] && x.bound && x.event == e;
        assert x in items;
      }
      if x :| x in items && x.bound && x.event == e {
        assert x in items[..n] || x == items[n];
      }
    }
  }

  /** The fold is over these events. */
  function EventsOf(decisions: seq<Decision>): seq<Event> {
    BoundEvents(Ordered(Items(decisions)))
  }

  /** An event counts exactly when a decision publishes it and none before publishes one with its id. */
  lemma EventCountsIff(decisions: seq<Decision>, e: Event)
    ensures e in EventsOf(decisions) <==> exists k: nat :: FirstPublishes(decisions, k, e)
  {
    OrderedSorts(Items(decisions));
    BoundEventsIff(Ordered(Items(decisions)), e);
    if e in EventsOf(decisions) {
      var x :| x in Ordered(Items(decisions)) && x.bound && x.event == e;
      ItemsIff(decisions, x);
      var k: nat :| IsItemAt(decisions, k, x);
    }
    if k: nat :| FirstPublishes(decisions, k, e) {
      var x := Item(decisions[k].operation.blockNumber, decisions[k].operation.index, e, true);
      assert IsItemAt(decisions, k, x);
      ItemsIff(decisions, x);
    }
  }

  /** Each event counts once. */
  lemma EventsCountOnce(decisions: seq<Decision>)
    ensures Distinct(Ids(EventsOf(decisions)))
  {
    ItemsBoundOnce(decisions);
    OrderedBoundOnce(Items(decisions));
    BoundEventsDistinct(Ordered(Items(decisions)));
  }

  /** The place of the event in the order of block and index comes no later than that of the other. */
  predicate ComesNoLater(decisions: seq<Decision>, k: nat, l: nat)
    requires k < |decisions| && l < |decisions|
  {
    var a, b := decisions[k].operation, decisions[l].operation;
    a.blockNumber < b.blockNumber || (a.blockNumber == b.blockNumber && a.index <= b.index)
  }

  /** The bound items, in their order: `at` says where they stand. */
  predicate ArePlaces(items: seq<Item>, at: seq<nat>) {
    && |at| == |BoundEvents(items)|
    && (forall i :: 0 <= i < |at| ==> IsPlace(items, at, i))
    && forall i, j :: 0 <= i < j < |at| ==> at[i] < at[j]
  }

  predicate IsPlace(items: seq<Item>, at: seq<nat>, i: nat)
    requires i < |at| == |BoundEvents(items)|
  {
    at[i] < |items| && items[at[i]].bound && items[at[i]].event == BoundEvents(items)[i]
  }

  lemma {:induction false} BoundEventsPlaces(items: seq<Item>) returns (at: seq<nat>)
    ensures ArePlaces(items, at)
  {
    at := [];
    if items != [] {
      var n := |items| - 1;
      var earlier := BoundEventsPlaces(items[..n]);
      at := if items[n].bound then earlier + [n] else earlier;
      PlacesGrow(items, earlier, at);
    }
  }

  lemma PlacesGrow(items: seq<Item>, earlier: seq<nat>, at: seq<nat>)
    requires items != [] && ArePlaces(items[..|items| - 1], earlier)
    requires at == if items[|items| - 1].bound then earlier + [|items| - 1] else earlier
    ensures ArePlaces(items, at)
  {
    var n := |items| - 1;
    forall i | 0 <= i < |earlier| ensures earlier[i] < n && IsPlace(items, at, i) {
      assert IsPlace(items[..n], earlier, i);
    }
  }

  /** The events that count come in the order of block and index. */
  lemma EventsAreInOrder(decisions: seq<Decision>, i: nat, j: nat) returns (k: nat, l: nat)
    requires i < j < |EventsOf(decisions)|
    ensures FirstPublishes(decisions, k, EventsOf(decisions)[i]) && FirstPublishes(decisions, l, EventsOf(decisions)[j])
    ensures ComesNoLater(decisions, k, l)
  {
    var items := Ordered(Items(decisions));
    OrderedSorts(Items(decisions));
    var at := BoundEventsPlaces(items);
    assert IsPlace(items, at, i) && IsPlace(items, at, j);
    assert Before(items[at[i]], items[at[j]]);
    assert items[at[i]] in items && items[at[j]] in items;
    ItemsIff(decisions, items[at[i]]);
    ItemsIff(decisions, items[at[j]]);
    k :| IsItemAt(decisions, k, items[at[i]]);
    l :| IsItemAt(decisions, l, items[at[j]]);
  }

  // ---- The results they leave -----------------------------------------------------------------------

  /** What a view shows after the events. */
  ghost predicate Shows(data: LocalData, events: seq<Event>, view: View) {
    && RoundsComeFrom(data, events, view) && ChangesComeFrom(data, events, view)
    && forall round :: round in view.results ==> StandsAt(data, events, round, view.results[round])
  }

  /**
   The view of every run: a round is projected exactly when an irreversible batch published a known result of
   it; the result comes from the first position of the first such batch, stands where the last change that
   took effect put it, and every recorded change is one of the irreversible events.
   */
  lemma RunShows(data: LocalData, owner: string -> string, steps: seq<Step>)
    requires Permitted(data, owner, steps)
    ensures var t := Run(data, steps);
            Shows(data, EventsOf(IrreversibleDecisions(t.rows)), t.view)
  {
    ViewIsFold(data, owner, steps);
    var events := EventsOf(IrreversibleDecisions(Run(data, steps).rows));
    ProjectedIffPublished(data, events);
    ChangesAreRecorded(data, events);
    forall round | round in Run(data, steps).view.results
      ensures StandsAt(data, events, round, Run(data, steps).view.results[round])
    {
      ResultsStand(data, events, round);
    }
  }

  /** Decision `k` counts and publishes a known result of the round. */
  predicate PublishesRound(data: LocalData, decisions: seq<Decision>, k: nat, round: string) {
    && k < |decisions| && decisions[k].verdict.Accepted?
    && FirstPublishes(decisions, k, decisions[k].verdict.event)
    && MatchEffects.Publishes(data, decisions[k].verdict.event, round)
  }

  ghost predicate SomePublishesRound(data: LocalData, decisions: seq<Decision>, round: string) {
    exists k: nat :: PublishesRound(data, decisions, k, round)
  }

  lemma SomeEventPublishesIff(data: LocalData, decisions: seq<Decision>, round: string)
    ensures (exists i: nat :: IsFirstToPublish(data, EventsOf(decisions), round, i))
       <==> SomePublishesRound(data, decisions, round)
  {
    var events := EventsOf(decisions);
    if i: nat :| IsFirstToPublish(data, events, round, i) {
      EventCountsIff(decisions, events[i]);
      var k: nat :| FirstPublishes(decisions, k, events[i]);
      assert PublishesRound(data, decisions, k, round);
    }
    if k: nat :| PublishesRound(data, decisions, k, round) {
      EventCountsIff(decisions, decisions[k].verdict.event);
      var j :| 0 <= j < |events| && events[j] == decisions[k].verdict.event;
      var i := SomeFirst(data, events, round, j);
    }
  }

  /** So a round is projected if and only if an irreversible operation that counts published a known result of it. */
  lemma RunProjectsIff(data: LocalData, owner: string -> string, steps: seq<Step>, round: string)
    requires Permitted(data, owner, steps)
    ensures round in Run(data, steps).view.results
       <==> SomePublishesRound(data, IrreversibleDecisions(Run(data, steps).rows), round)
  {
    RunShows(data, owner, steps);
    ShowsProjectsIff(data, IrreversibleDecisions(Run(data, steps).rows), Run(data, steps).view, round);
  }

  lemma ShowsProjectsIff(data: LocalData, decisions: seq<Decision>, view: View, round: string)
    requires Shows(data, EventsOf(decisions), view)
    ensures round in view.results <==> SomePublishesRound(data, decisions, round)
  {
    assert RoundComesFrom(data, EventsOf(decisions), view, round);
    SomeEventPublishesIff(data, decisions, round);
  }
}
