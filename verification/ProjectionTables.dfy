/**
 The tables of the projection store and what one store transaction does to them. A row is named by
 its position in its table: rows are only ever appended and updated, never removed, and row
 identifiers are issued in increasing order.
 */
module ProjectionTables {
  import opened Wrappers
  import opened MatchView
  import Sorting

  datatype Block = Block(number: nat, id: string, previousId: string, timestamp: string)

  datatype Operation = Operation(sourceId: string, transactionId: Option<string>, index: nat,
                                 isVirtual: bool, blockNumber: nat, timestamp: string,
                                 opType: string, payload: string)

  datatype Verdict = Accepted(event: Event) | Rejected(reason: string)

  /** An operation of the application together with what the validator said about it. */
  datatype Decision = Decision(operation: Operation, verdict: Verdict) {
    /** True when the decision publishes a match event. */
    predicate Publishes() {
      verdict.Accepted? && verdict.event.IsMatchEvent()
    }

    predicate Carries(event: string) {
      Publishes() && verdict.event.id == event
    }
  }

  datatype State = Included | Irreversible | Reverted

  datatype Checkpoint = Checkpoint(block: Block, state: State)

  /** One row of `operation`; `checkpoint` is the row of `block_checkpoint` it belongs to. */
  datatype Row = Row(checkpoint: nat, decision: Decision, state: State, irreversibleAt: Option<nat>)

  /** One row of `match_event`: the operation row that carries the event, and its state. */
  datatype Binding = Binding(row: nat, batch: Option<string>, event: Event, state: State)

  datatype Tables = Tables(
    checkpoints: seq<Checkpoint>,
    rows: seq<Row>,
    bindings: map<string, Binding>,
    lastProcessed: nat,
    lastIrreversible: nat,
    view: View)

  const EMPTY_TABLES := Tables([], [], map[], 0, 0, EMPTY_VIEW)

  datatype Error =
    | SourceUnavailable
    | InvalidSourceResponse
    | SourceDivergence
    | IrreversibleFork
    | ReorgTooDeep
    | CursorConflict
    /** A unique key or the replay rule of the database refuses the row; the transaction is undone. */
    | EvidenceConflict

  // ---- Reading ----------------------------------------------------------------------------------

  /** The live checkpoint at a height, if there is one. */
  function CurrentCheckpoint(checkpoints: seq<Checkpoint>, number: nat): Option<Checkpoint> {
    if checkpoints == [] then None
    else if checkpoints[0].block.number == number && checkpoints[0].state != Reverted then Some(checkpoints[0])
    else CurrentCheckpoint(checkpoints[1..], number)
  }

  datatype Cursor = Cursor(lastProcessed: nat, lastId: Option<string>, lastIrreversible: nat)

  function GetCursor(t: Tables): Cursor {
    var checkpoint := CurrentCheckpoint(t.checkpoints, t.lastProcessed);
    Cursor(t.lastProcessed, if checkpoint.Some? then Some(checkpoint.value.block.id) else None, t.lastIrreversible)
  }

  // ---- applyBlock -------------------------------------------------------------------------------

  predicate RecordsBlockId(checkpoints: seq<Checkpoint>, id: string) {
    exists i :: 0 <= i < |checkpoints| && checkpoints[i].block.id == id
  }

  /** Two operations the partial unique keys do not let live side by side. */
  predicate Clash(a: Operation, b: Operation) {
    || a.sourceId == b.sourceId
    || (a.transactionId.Some? && a.transactionId == b.transactionId && a.index == b.index)
  }

  predicate ClashesLive(rows: seq<Row>, operation: Operation) {
    exists i :: 0 <= i < |rows| && rows[i].state != Reverted && Clash(rows[i].decision.operation, operation)
  }

  function BatchOf(event: Event): Option<string> {
    if event.ResultsBatch? then Some(event.batch) else None
  }

  predicate BatchTaken(bindings: map<string, Binding>, event: Event) {
    event.ResultsBatch? && exists id :: id in bindings && bindings[id].batch == Some(event.batch)
  }

  /**
   Binds the event of the new row: a reverted binding is moved to it, a missing one is inserted
   unless another event already holds the batch id, and any other binding stays as it is. Moving a
   binding to a different payload is refused.
   */
  function BindEvent(bindings: map<string, Binding>, event: Event, row: nat): Result<map<string, Binding>, Error> {
    if event.id in bindings then
      if bindings[event.id].state != Reverted then Success(bindings)
      else if bindings[event.id].event != event then Failure(EvidenceConflict)
      else Success(bindings[event.id := bindings[event.id].(row := row, state := Included)])
    else if BatchTaken(bindings, event) then Success(bindings)
    else Success(bindings[event.id := Binding(row, BatchOf(event), event, Included)])
  }

  /** The row must agree with its checkpoint and may not clash with a live row. */
  function InsertOperation(t: Tables, checkpoint: nat, decision: Decision): Result<Tables, Error> {
    if checkpoint >= |t.checkpoints| || t.checkpoints[checkpoint].block.number != decision.operation.blockNumber
       || ClashesLive(t.rows, decision.operation) then
      Failure(EvidenceConflict)
    else
      var bindings :- if decision.Publishes() then BindEvent(t.bindings, decision.verdict.event, |t.rows|)
                      else Success(t.bindings);
      Success(t.(rows := t.rows + [Row(checkpoint, decision, Included, None)], bindings := bindings))
  }

  function InsertOperations(t: Tables, checkpoint: nat, decisions: seq<Decision>): Result<Tables, Error> {
    if decisions == [] then Success(t)
    else
      var earlier :- InsertOperations(t, checkpoint, decisions[..|decisions| - 1]);
      InsertOperation(earlier, checkpoint, decisions[|decisions| - 1])
  }

  function ApplyBlock(t: Tables, block: Block, decisions: seq<Decision>): Result<Tables, Error> {
    var cursor := GetCursor(t);
    if block.number != cursor.lastProcessed + 1 then Failure(CursorConflict)
    else if cursor.lastId.Some? && cursor.lastId.value != block.previousId then Failure(CursorConflict)
    else if RecordsBlockId(t.checkpoints, block.id) || CurrentCheckpoint(t.checkpoints, block.number).Some? then
      Failure(EvidenceConflict)
    else
      var filled :- InsertOperations(t.(checkpoints := t.checkpoints + [Checkpoint(block, Included)]),
                                     |t.checkpoints|, decisions);
      Success(filled.(lastProcessed := block.number))
  }

  // ---- revertAfter ------------------------------------------------------------------------------

  /** The block number the join of a row with its checkpoint yields; no row joins past the end. */
  function NumberOf(checkpoints: seq<Checkpoint>, row: Row): nat {
    if row.checkpoint < |checkpoints| then checkpoints[row.checkpoint].block.number else 0
  }

  function RevertCheckpoint(checkpoint: Checkpoint, ancestor: nat): Checkpoint {
    if checkpoint.block.number > ancestor && checkpoint.state != Reverted then checkpoint.(state := Reverted)
    else checkpoint
  }

  function RevertCheckpoints(checkpoints: seq<Checkpoint>, ancestor: nat): seq<Checkpoint> {
    seq(|checkpoints|, i requires 0 <= i < |checkpoints| => RevertCheckpoint(checkpoints[i], ancestor))
  }

  function RevertRow(checkpoints: seq<Checkpoint>, row: Row, ancestor: nat): Row {
    if NumberOf(checkpoints, row) > ancestor && row.state != Reverted then
      row.(state := Reverted)
    else row
  }

  function RevertRows(checkpoints: seq<Checkpoint>, rows: seq<Row>, ancestor: nat): seq<Row> {
    seq(|rows|, i requires 0 <= i < |rows| => RevertRow(checkpoints, rows[i], ancestor))
  }

  predicate BoundAbove(t: Tables, binding: Binding, height: nat) {
    binding.row < |t.rows| && NumberOf(t.checkpoints, t.rows[binding.row]) > height
  }

  function RevertBindings(t: Tables, ancestor: nat): map<string, Binding> {
    map id | id in t.bindings ::
      if BoundAbove(t, t.bindings[id], ancestor) && t.bindings[id].state == Included then
        t.bindings[id].(state := Reverted)
      else t.bindings[id]
  }

  function RevertAfter(t: Tables, ancestor: nat): Result<Tables, Error> {
    if ancestor < t.lastIrreversible then Failure(IrreversibleFork)
    else
      Success(t.(
        checkpoints := RevertCheckpoints(t.checkpoints, ancestor),
        rows := RevertRows(t.checkpoints, t.rows, ancestor),
        bindings := RevertBindings(t, ancestor),
        lastProcessed := ancestor))
  }

  // ---- finalizeThrough --------------------------------------------------------------------------

  function FinalizeCheckpoint(checkpoint: Checkpoint, number: nat): Checkpoint {
    if checkpoint.block.number <= number && checkpoint.state == Included then checkpoint.(state := Irreversible)
    else checkpoint
  }

  function FinalizeCheckpoints(checkpoints: seq<Checkpoint>, number: nat): seq<Checkpoint> {
    seq(|checkpoints|, i requires 0 <= i < |checkpoints| => FinalizeCheckpoint(checkpoints[i], number))
  }

  function FinalizeRow(checkpoints: seq<Checkpoint>, row: Row, number: nat, now: nat): Row {
    if NumberOf(checkpoints, row) <= number && row.state == Included then
      row.(state := Irreversible, irreversibleAt := Some(now))
    else row
  }

  function FinalizeRows(checkpoints: seq<Checkpoint>, rows: seq<Row>, number: nat, now: nat): seq<Row> {
    seq(|rows|, i requires 0 <= i < |rows| => FinalizeRow(checkpoints, rows[i], number, now))
  }

  predicate BoundUpTo(t: Tables, binding: Binding, height: nat) {
    binding.row < |t.rows| && NumberOf(t.checkpoints, t.rows[binding.row]) <= height
  }

  function FinalizeBindings(t: Tables, number: nat): map<string, Binding> {
    map id | id in t.bindings ::
      if BoundUpTo(t, t.bindings[id], number) && t.bindings[id].state == Included then
        t.bindings[id].(state := Irreversible)
      else t.bindings[id]
  }

  /** What materialisation reads of one operation; `bound` says that its event is bound to it. */
  datatype Item = Item(block: nat, index: nat, event: Event, bound: bool)

  predicate IsSelected(checkpoints: seq<Checkpoint>, row: Row, number: nat, now: nat) {
    && NumberOf(checkpoints, row) <= number
    && row.state == Irreversible
    && row.irreversibleAt == Some(now)
    && row.decision.verdict.Accepted?
  }

  function ItemOf(row: Row, bindings: map<string, Binding>, position: nat): Item
    requires row.decision.verdict.Accepted?
  {
    var event := row.decision.verdict.event;
    Item(row.decision.operation.blockNumber, row.decision.operation.index, event,
         event.IsMatchEvent() && event.id in bindings && bindings[event.id].row == position)
  }

  /** The operations that became irreversible at the instant `now`, in the order they were inserted. */
  function Selected(checkpoints: seq<Checkpoint>, rows: seq<Row>, bindings: map<string, Binding>,
                    number: nat, now: nat): seq<Item>
  {
    if rows == [] then []
    else
      var n := |rows| - 1;
      Selected(checkpoints, rows[..n], bindings, number, now) +
      if IsSelected(checkpoints, rows[n], number, now) then [ItemOf(rows[n], bindings, n)] else []
  }

  /** The order of the query: by block, then by index, ties in insertion order. */
  predicate Before(a: Item, b: Item) {
    a.block < b.block || (a.block == b.block && a.index <= b.index)
  }

  function Ordered(items: seq<Item>): seq<Item> {
    Sorting.Sort(Before, items)
  }

  /** The events of the items whose event is bound to them. */
  function BoundEvents(items: seq<Item>): seq<Event> {
    if items == [] then []
    else
      var n := |items| - 1;
      BoundEvents(items[..n]) + if items[n].bound then [items[n].event] else []
  }

  function FinalizeThrough(data: LocalData, t: Tables, number: nat, now: nat): Result<Tables, Error> {
    if number > t.lastProcessed then Failure(CursorConflict)
    else
      var rows := FinalizeRows(t.checkpoints, t.rows, number, now);
      var bindings := FinalizeBindings(t, number);
      var events := BoundEvents(Ordered(Selected(t.checkpoints, rows, bindings, number, now)));
      if !AreAccepted(data, t.view, events) then Failure(EvidenceConflict)
      else
        Success(Tables(
          FinalizeCheckpoints(t.checkpoints, number), rows, bindings, t.lastProcessed,
          if number > t.lastIrreversible then number else t.lastIrreversible,
          MaterializeAll(data, t.view, events)))
  }
}
