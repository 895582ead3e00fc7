/**
 What the tables mean: the one chain of live blocks with their decisions. `Represents` ties the
 tables to that chain, and every store transaction is shown to be the obvious step on chains:
 append a block, cut the chain, or raise the irreversible height.
 */
module ProjectionChain {
  import opened Wrappers
  import opened MatchView
  import opened ProjectionTables

  datatype Entry = Entry(block: Block, decisions: seq<Decision>)

  function Blocks(entries: seq<Entry>): (blocks: seq<Block>)
    ensures |blocks| == |entries|
    ensures forall i :: 0 <= i < |entries| ==> blocks[i] == entries[i].block
  {
    seq(|entries|, i requires 0 <= i < |entries| => entries[i].block)
  }

  function Decisions(entries: seq<Entry>): seq<Decision> {
    if entries == [] then []
    else Decisions(entries[..|entries| - 1]) + entries[|entries| - 1].decisions
  }

  function LiveBlocks(checkpoints: seq<Checkpoint>): seq<Block> {
    if checkpoints == [] then []
    else
      var n := |checkpoints| - 1;
      LiveBlocks(checkpoints[..n]) + if checkpoints[n].state != Reverted then [checkpoints[n].block] else []
  }

  function LiveDecisions(rows: seq<Row>): seq<Decision> {
    if rows == [] then []
    else
      var n := |rows| - 1;
      LiveDecisions(rows[..n]) + if rows[n].state != Reverted then [rows[n].decision] else []
  }

  predicate LiveCarrier(row: Row, event: string) {
    row.state != Reverted && row.decision.Carries(event)
  }

  /** The earliest live operation that publishes the event. */
  function FirstLive(rows: seq<Row>, event: string): (first: Option<nat>)
    ensures first.Some? ==> first.value < |rows| && LiveCarrier(rows[first.value], event)
    ensures forall i :: 0 <= i < (if first.Some? then first.value else |rows|) ==> !LiveCarrier(rows[i], event)
  {
    if rows == [] then None
    else
      var n := |rows| - 1;
      var earlier := FirstLive(rows[..n], event);
      if earlier.Some? then earlier
      else if LiveCarrier(rows[n], event) then Some(n)
      else None
  }

  // ---- The invariant ----------------------------------------------------------------------------

  predicate Numbered(entries: seq<Entry>) {
    forall i :: 0 <= i < |entries| ==>
      && entries[i].block.number == i + 1
      && forall k :: 0 <= k < |entries[i].decisions| ==> entries[i].decisions[k].operation.blockNumber == i + 1
  }

  predicate Linked(entries: seq<Entry>) {
    forall i :: 0 < i < |entries| ==> LinksAt(entries, i)
  }

  predicate LinksAt(entries: seq<Entry>, i: nat)
    requires 0 < i < |entries|
  {
    entries[i].block.previousId == entries[i - 1].block.id
  }

  predicate CheckpointsAgree(checkpoints: seq<Checkpoint>, entries: seq<Entry>, irreversible: nat) {
    && LiveBlocks(checkpoints) == Blocks(entries)
    && (forall i :: 0 <= i < |checkpoints| && checkpoints[i].state != Reverted ==>
          && 1 <= checkpoints[i].block.number <= |entries|
          && (checkpoints[i].state == Irreversible <==> checkpoints[i].block.number <= irreversible))
    && (forall i, j :: 0 <= i < j < |checkpoints| ==> IdsDiffer(checkpoints, i, j))
  }

  predicate IdsDiffer(checkpoints: seq<Checkpoint>, i: nat, j: nat)
    requires i < j < |checkpoints|
  {
    checkpoints[i].block.id != checkpoints[j].block.id
  }

  predicate RowsAgree(checkpoints: seq<Checkpoint>, rows: seq<Row>, entries: seq<Entry>) {
    && LiveDecisions(rows) == Decisions(entries)
    && RowsStand(checkpoints, rows)
    && (forall r, s :: 0 <= r < s < |rows| ==> LiveInOrder(rows, r, s))
  }

  predicate RowsStand(checkpoints: seq<Checkpoint>, rows: seq<Row>) {
    forall r :: 0 <= r < |rows| ==> RowAgrees(checkpoints, rows[r])
  }

  /** Live rows stand in the order of their blocks and do not clash. */
  predicate LiveInOrder(rows: seq<Row>, r: nat, s: nat)
    requires r < s < |rows|
  {
    rows[r].state != Reverted && rows[s].state != Reverted ==>
      && rows[r].decision.operation.blockNumber <= rows[s].decision.operation.blockNumber
      && !Clash(rows[r].decision.operation, rows[s].decision.operation)
  }

  /** A row stands and falls with its checkpoint. */
  predicate RowAgrees(checkpoints: seq<Checkpoint>, row: Row) {
    && row.checkpoint < |checkpoints|
    && row.state == checkpoints[row.checkpoint].state
    && row.decision.operation.blockNumber == checkpoints[row.checkpoint].block.number
  }

  /**
   Every event some live operation publishes is bound to the earliest of them, a binding always
   records the state of its operation, and `owner` names the one event that uses a batch id.
   */
  ghost predicate BindingsAgree(rows: seq<Row>, bindings: map<string, Binding>, owner: string -> string) {
    && (forall id :: id in bindings ==> BindingAgrees(rows, id, bindings[id], owner))
    && (forall id :: FirstLive(rows, id).Some? ==> id in bindings && bindings[id].row == FirstLive(rows, id).value)
  }

  predicate BindingAgrees(rows: seq<Row>, id: string, binding: Binding, owner: string -> string) {
    && binding.row < |rows|
    && rows[binding.row].decision.Carries(id)
    && rows[binding.row].decision.verdict.event == binding.event
    && binding.state == rows[binding.row].state
    && binding.batch == BatchOf(binding.event)
    && (binding.batch.Some? ==> owner(binding.batch.value) == id)
  }

  /** Batch ids identify events: the decision uses a batch id only if its event owns it. */
  predicate Owned(owner: string -> string, decision: Decision) {
    decision.Publishes() && decision.verdict.event.ResultsBatch? ==>
      owner(decision.verdict.event.batch) == decision.verdict.event.id
  }

  predicate AllOwned(owner: string -> string, decisions: seq<Decision>) {
    forall k :: 0 <= k < |decisions| ==> Owned(owner, decisions[k])
  }

  /** The part of the invariant that also holds while a block is being inserted. */
  ghost predicate TablesAgree(t: Tables, entries: seq<Entry>, owner: string -> string) {
    && t.lastIrreversible <= |entries|
    && Numbered(entries)
    && Linked(entries)
    && CheckpointsAgree(t.checkpoints, entries, t.lastIrreversible)
    && RowsAgree(t.checkpoints, t.rows, entries)
    && BindingsAgree(t.rows, t.bindings, owner)
  }

  ghost predicate Represents(t: Tables, entries: seq<Entry>, owner: string -> string) {
    t.lastProcessed == |entries| && TablesAgree(t, entries, owner)
  }

  // ---- applyBlock appends -----------------------------------------------------------------------

  lemma RowsKeep(checkpoints: seq<Checkpoint>, rows: seq<Row>, row: Row, shorter: seq<Entry>, longer: seq<Entry>)
    requires RowsAgree(checkpoints, rows, shorter)
    requires RowAgrees(checkpoints, row) && row.state != Reverted
    requires Decisions(longer) == Decisions(shorter) + [row.decision]
    requires !ClashesLive(rows, row.decision.operation)
    requires forall r :: 0 <= r < |rows| && rows[r].state != Reverted ==>
               rows[r].decision.operation.blockNumber <= row.decision.operation.blockNumber
    ensures RowsAgree(checkpoints, rows + [row], longer)
  {
    assert (rows + [row])[..|rows|] == rows;
    forall r, s | 0 <= r < s < |rows + [row]| ensures LiveInOrder(rows + [row], r, s) {
      assert s < |rows| ==> LiveInOrder(rows, r, s);
    }
  }

  /** No block of the chain is higher than its length, and a live row is at the height of its block. */
  lemma LiveRowsWithin(checkpoints: seq<Checkpoint>, rows: seq<Row>, entries: seq<Entry>, irreversible: nat)
    requires CheckpointsAgree(checkpoints, entries, irreversible)
    requires RowsAgree(checkpoints, rows, entries)
    ensures forall r :: 0 <= r < |rows| && rows[r].state != Reverted ==>
              1 <= rows[r].decision.operation.blockNumber <= |entries|
    ensures forall r :: 0 <= r < |rows| && rows[r].state != Reverted ==>
              (rows[r].state == Irreversible <==> rows[r].decision.operation.blockNumber <= irreversible)
  {
    forall r | 0 <= r < |rows| && rows[r].state != Reverted
      ensures 1 <= rows[r].decision.operation.blockNumber <= |entries|
      ensures rows[r].state == Irreversible <==> rows[r].decision.operation.blockNumber <= irreversible
    {
      assert RowAgrees(checkpoints, rows[r]);
    }
  }

  /** Extending the decisions of the last entry changes neither its block nor the rest of the chain. */
  lemma LastEntryGrows(before: seq<Entry>, block: Block, decisions: seq<Decision>, decision: Decision)
    ensures var shorter, longer := before + [Entry(block, decisions)], before + [Entry(block, decisions + [decision])];
            && Blocks(longer) == Blocks(shorter)
            && Decisions(longer) == Decisions(shorter) + [decision]
  {
    var shorter, longer := before + [Entry(block, decisions)], before + [Entry(block, decisions + [decision])];
    assert shorter[..|before|] == before == longer[..|before|];
  }

  lemma LastEntryFits(before: seq<Entry>, block: Block, decisions: seq<Decision>, decision: Decision)
    requires Linked(before + [Entry(block, decisions)]) && Numbered(before + [Entry(block, decisions)])
    requires decision.operation.blockNumber == |before| + 1
    ensures Linked(before + [Entry(block, decisions + [decision])])
    ensures Numbered(before + [Entry(block, decisions + [decision])])
  {
    var shorter, longer := before + [Entry(block, decisions)], before + [Entry(block, decisions + [decision])];
    forall i | 0 < i < |longer| ensures LinksAt(longer, i) {
      assert LinksAt(shorter, i);
    }
    assert forall i :: 0 <= i < |before| ==> longer[i] == shorter[i];
    assert shorter[|before|] == Entry(block, decisions);
  }

  lemma InsertKeeps(t: Tables, before: seq<Entry>, block: Block, decisions: seq<Decision>, decision: Decision,
                    owner: string -> string)
    requires t.checkpoints != [] && t.checkpoints[|t.checkpoints| - 1] == Checkpoint(block, Included)
    requires block.number == |before| + 1
    requires TablesAgree(t, before + [Entry(block, decisions)], owner)
    requires Owned(owner, decision)
    requires InsertOperation(t, |t.checkpoints| - 1, decision).Success?
    ensures TablesAgree(InsertOperation(t, |t.checkpoints| - 1, decision).value,
                        before + [Entry(block, decisions + [decision])], owner)
  {
    var c := |t.checkpoints| - 1;
    LastEntryGrows(before, block, decisions, decision);
    LastEntryFits(before, block, decisions, decision);
    LiveRowsWithin(t.checkpoints, t.rows, before + [Entry(block, decisions)], t.lastIrreversible);
    RowsKeep(t.checkpoints, t.rows, Row(c, decision, Included, None),
             before + [Entry(block, decisions)], before + [Entry(block, decisions + [decision])]);
    BindKeeps(t.rows, t.bindings, Row(c, decision, Included, None), owner,
              InsertOperation(t, c, decision).value.bindings);
  }

  /** An event that owns its batch id and has no binding yet never finds the batch id taken. */
  lemma BatchIsFree(rows: seq<Row>, bindings: map<string, Binding>, event: Event, owner: string -> string)
    requires BindingsAgree(rows, bindings, owner)
    requires event.id !in bindings
    requires event.ResultsBatch? ==> owner(event.batch) == event.id
    ensures !BatchTaken(bindings, event)
  {
    if event.ResultsBatch? {
      forall id | id in bindings ensures bindings[id].batch != Some(event.batch) {
        assert BindingAgrees(rows, id, bindings[id], owner);
      }
    }
  }

  /** A new row after the others is the earliest carrier only where there was none. */
  lemma FirstLiveGrows(rows: seq<Row>, row: Row, id: string)
    ensures FirstLive(rows + [row], id)
         == if FirstLive(rows, id).Some? then FirstLive(rows, id)
            else if LiveCarrier(row, id) then Some(|rows|) else None
  {
    assert (rows + [row])[..|rows|] == rows;
  }

  lemma BindKeeps(rows: seq<Row>, bindings: map<string, Binding>, row: Row, owner: string -> string,
                  after: map<string, Binding>)
    requires BindingsAgree(rows, bindings, owner)
    requires row.state == Included && Owned(owner, row.decision)
    requires if row.decision.Publishes() then
               BindEvent(bindings, row.decision.verdict.event, |rows|) == Success(after)
             else after == bindings
    ensures BindingsAgree(rows + [row], after, owner)
  {
    if row.decision.Publishes() && row.decision.verdict.event.id !in bindings {
      BatchIsFree(rows, bindings, row.decision.verdict.event, owner);
    }
    forall id | id in after ensures BindingAgrees(rows + [row], id, after[id], owner) {
      assert id in bindings ==> BindingAgrees(rows, id, bindings[id], owner);
    }
    forall id | FirstLive(rows + [row], id).Some?
      ensures id in after && after[id].row == FirstLive(rows + [row], id).value
    {
      FirstLiveGrows(rows, row, id);
      assert id in bindings ==> BindingAgrees(rows, id, bindings[id], owner);
    }
  }

  /** Inserting the decision into `t` yields `u`. */
  predicate InsertsTo(t: Tables, checkpoint: nat, decision: Decision, u: Tables) {
    InsertOperation(t, checkpoint, decision) == Success(u)
  }

  /** Whatever every insert of an owned decision keeps, all of them together keep. */
  lemma {:induction false} InsertInduction(t: Tables, checkpoint: nat, decisions: seq<Decision>,
                                           owner: string -> string, holds: (Tables, seq<Decision>) -> bool)
    requires AllOwned(owner, decisions) && holds(t, [])
    requires forall u, v, done, next {:trigger holds(u, done), InsertsTo(u, checkpoint, next, v)} ::
               holds(u, done) && Owned(owner, next) && InsertsTo(u, checkpoint, next, v) ==> holds(v, done + [next])
    requires InsertOperations(t, checkpoint, decisions).Success?
    ensures holds(InsertOperations(t, checkpoint, decisions).value, decisions)
  {
    if decisions != [] {
      var n := |decisions| - 1;
      InsertInduction(t, checkpoint, decisions[..n], owner, holds);
      var earlier := InsertOperations(t, checkpoint, decisions[..n]).value;
      assert InsertsTo(earlier, checkpoint, decisions[n], InsertOperations(t, checkpoint, decisions).value);
      assert decisions[..n] + [decisions[n]] == decisions;
    }
  }

  /** `u` is `t` with `decisions` in the block that `t` has just opened. */
  ghost predicate FilledSoFar(t: Tables, before: seq<Entry>, block: Block, owner: string -> string, u: Tables,
                              decisions: seq<Decision>)
  {
    && TablesAgree(u, before + [Entry(block, decisions)], owner)
    && u.checkpoints == t.checkpoints && u.view == t.view
    && u.lastProcessed == t.lastProcessed && u.lastIrreversible == t.lastIrreversible
  }

  lemma InsertAllKeeps(t: Tables, before: seq<Entry>, block: Block, decisions: seq<Decision>, owner: string -> string)
    requires t.checkpoints != [] && t.checkpoints[|t.checkpoints| - 1] == Checkpoint(block, Included)
    requires block.number == |before| + 1
    requires TablesAgree(t, before + [Entry(block, [])], owner)
    requires AllOwned(owner, decisions)
    requires InsertOperations(t, |t.checkpoints| - 1, decisions).Success?
    ensures FilledSoFar(t, before, block, owner, InsertOperations(t, |t.checkpoints| - 1, decisions).value, decisions)
  {
    var c := |t.checkpoints| - 1;
    var holds := (u, done) => FilledSoFar(t, before, block, owner, u, done);
    forall u, v, done, next {:trigger holds(u, done), InsertsTo(u, c, next, v)}
      | holds(u, done) && Owned(owner, next) && InsertsTo(u, c, next, v)
      ensures holds(v, done + [next])
    {
      InsertKeeps(u, before, block, done, next, owner);
    }
    InsertInduction(t, c, decisions, owner, holds);
  }

  lemma CursorIsTip(t: Tables, entries: seq<Entry>, owner: string -> string)
    requires Represents(t, entries, owner)
    ensures GetCursor(t).lastProcessed == |entries|
    ensures GetCursor(t).lastId == if entries == [] then None else Some(entries[|entries| - 1].block.id)
    ensures GetCursor(t).lastIrreversible == t.lastIrreversible
    ensures forall n: nat :: CurrentCheckpoint(t.checkpoints, n).Some? <==> 1 <= n <= |entries|
    ensures forall n :: 1 <= n <= |entries| ==>
              CurrentCheckpoint(t.checkpoints, n).value.block == entries[n - 1].block
  {
    forall n: nat
      ensures CurrentCheckpoint(t.checkpoints, n).Some? <==> 1 <= n <= |entries|
      ensures 1 <= n <= |entries| ==> CurrentCheckpoint(t.checkpoints, n).value.block == entries[n - 1].block
    {
      CurrentIsLive(t.checkpoints, n);
      assert 1 <= n <= |entries| ==> Blocks(entries)[n - 1] in LiveBlocks(t.checkpoints);
      if CurrentCheckpoint(t.checkpoints, n).Some? {
        var block := CurrentCheckpoint(t.checkpoints, n).value.block;
        assert block in LiveBlocks(t.checkpoints);
        var i :| 0 <= i < |entries| && Blocks(entries)[i] == block;
      }
    }
  }

  /** The checkpoint at a height is a live one, and is missing only when no live block has the height. */
  lemma {:induction false} CurrentIsLive(checkpoints: seq<Checkpoint>, number: nat)
    ensures var current := CurrentCheckpoint(checkpoints, number);
            && (current.Some? ==>
                  && current.value in checkpoints && current.value.state != Reverted
                  && current.value.block.number == number && current.value.block in LiveBlocks(checkpoints))
            && (current.None? ==> forall b :: b in LiveBlocks(checkpoints) ==> b.number != number)
  {
    if checkpoints != [] {
      CurrentIsLive(checkpoints[1..], number);
      LiveBlocksFromFront(checkpoints);
    }
  }

  lemma {:induction false} LiveBlocksFromFront(checkpoints: seq<Checkpoint>)
    requires checkpoints != []
    ensures LiveBlocks(checkpoints) ==
            (if checkpoints[0].state != Reverted then [checkpoints[0].block] else []) + LiveBlocks(checkpoints[1..])
  {
    var n := |checkpoints| - 1;
    if n > 0 {
      LiveBlocksFromFront(checkpoints[..n]);
      assert checkpoints[..n][1..] == checkpoints[1..][..n - 1];
    }
  }

  lemma CheckpointsGrow(checkpoints: seq<Checkpoint>, entries: seq<Entry>, block: Block, irreversible: nat)
    requires CheckpointsAgree(checkpoints, entries, irreversible) && irreversible <= |entries|
    requires block.number == |entries| + 1 && !RecordsBlockId(checkpoints, block.id)
    ensures CheckpointsAgree(checkpoints + [Checkpoint(block, Included)], entries + [Entry(block, [])], irreversible)
  {
    var longer := checkpoints + [Checkpoint(block, Included)];
    assert longer[..|checkpoints|] == checkpoints;
    assert Blocks(entries + [Entry(block, [])]) == Blocks(entries) + [block];
    forall i, j | 0 <= i < j < |longer| ensures IdsDiffer(longer, i, j) {
      assert j < |checkpoints| ==> IdsDiffer(checkpoints, i, j);
    }
  }

  lemma RowsStay(checkpoints: seq<Checkpoint>, rows: seq<Row>, entries: seq<Entry>, next: Checkpoint)
    requires RowsAgree(checkpoints, rows, entries)
    ensures RowsAgree(checkpoints + [next], rows, entries + [Entry(next.block, [])])
  {
    assert (entries + [Entry(next.block, [])])[..|entries|] == entries;
    forall r | 0 <= r < |rows| ensures RowAgrees(checkpoints + [next], rows[r]) {
      assert RowAgrees(checkpoints, rows[r]);
    }
  }

  lemma EntriesGrow(entries: seq<Entry>, block: Block)
    requires Numbered(entries) && Linked(entries) && block.number == |entries| + 1
    requires entries != [] ==> block.previousId == entries[|entries| - 1].block.id
    ensures Numbered(entries + [Entry(block, [])]) && Linked(entries + [Entry(block, [])])
  {
    var longer := entries + [Entry(block, [])];
    forall i | 0 < i < |longer| ensures LinksAt(longer, i) {
      assert i < |entries| ==> LinksAt(entries, i);
    }
  }

  lemma OpenBlockKeeps(t: Tables, entries: seq<Entry>, block: Block, owner: string -> string)
    requires TablesAgree(t, entries, owner)
    requires block.number == |entries| + 1
    requires entries != [] ==> block.previousId == entries[|entries| - 1].block.id
    requires !RecordsBlockId(t.checkpoints, block.id)
    ensures TablesAgree(t.(checkpoints := t.checkpoints + [Checkpoint(block, Included)]),
                        entries + [Entry(block, [])], owner)
  {
    CheckpointsGrow(t.checkpoints, entries, block, t.lastIrreversible);
    RowsStay(t.checkpoints, t.rows, entries, Checkpoint(block, Included));
    EntriesGrow(entries, block);
  }

  /** Applying a block to tables that represent a chain appends the block to that chain. */
  lemma ApplyAppends(t: Tables, entries: seq<Entry>, block: Block, decisions: seq<Decision>, owner: string -> string)
    requires Represents(t, entries, owner)
    requires AllOwned(owner, decisions)
    requires ApplyBlock(t, block, decisions).Success?
    ensures var after := ApplyBlock(t, block, decisions).value;
            && Represents(after, entries + [Entry(block, decisions)], owner)
            && after.view == t.view && after.lastIrreversible == t.lastIrreversible
            && after.checkpoints == t.checkpoints + [Checkpoint(block, Included)]
  {
    CursorIsTip(t, entries, owner);
    var extended := t.(checkpoints := t.checkpoints + [Checkpoint(block, Included)]);
    OpenBlockKeeps(t, entries, block, owner);
    InsertAllKeeps(extended, entries, block, decisions, owner);
  }

  // ---- revertAfter cuts -------------------------------------------------------------------------

  /** Those of the first `n` blocks that are at most at `height`. */
  function BlocksUpTo(blocks: seq<Block>, n: nat, height: nat): seq<Block>
    requires n <= |blocks|
  {
    if n == 0 then []
    else BlocksUpTo(blocks, n - 1, height) + if blocks[n - 1].number <= height then [blocks[n - 1]] else []
  }

  /** Those of the first `n` decisions that are at most at `height`. */
  function DecisionsUpTo(decisions: seq<Decision>, n: nat, height: nat): seq<Decision>
    requires n <= |decisions|
  {
    if n == 0 then []
    else
      DecisionsUpTo(decisions, n - 1, height) +
      if decisions[n - 1].operation.blockNumber <= height then [decisions[n - 1]] else []
  }

  lemma {:induction false} BlocksUpToLocal(a: seq<Block>, b: seq<Block>, n: nat, height: nat)
    requires n <= |a| <= |b| && forall i :: 0 <= i < n ==> a[i] == b[i]
    ensures BlocksUpTo(a, n, height) == BlocksUpTo(b, n, height)
  {
    if n > 0 {
      BlocksUpToLocal(a, b, n - 1, height);
    }
  }

  lemma {:induction false} RevertedBlocks(checkpoints: seq<Checkpoint>, ancestor: nat)
    ensures LiveBlocks(RevertCheckpoints(checkpoints, ancestor))
         == BlocksUpTo(LiveBlocks(checkpoints), |LiveBlocks(checkpoints)|, ancestor)
  {
    if checkpoints != [] {
      var n := |checkpoints| - 1;
      var earlier := LiveBlocks(checkpoints[..n]);
      RevertedBlocks(checkpoints[..n], ancestor);
      BlocksUpToLocal(earlier, LiveBlocks(checkpoints), |earlier|, ancestor);
      assert RevertCheckpoints(checkpoints, ancestor)[..n] == RevertCheckpoints(checkpoints[..n], ancestor);
    }
  }

  lemma {:induction false} BlocksUpToIsPrefix(blocks: seq<Block>, n: nat, height: nat)
    requires n <= |blocks| && forall i :: 0 <= i < |blocks| ==> blocks[i].number == i + 1
    ensures BlocksUpTo(blocks, n, height) == blocks[..if height <= n then height else n]
  {
    if n > 0 {
      BlocksUpToIsPrefix(blocks, n - 1, height);
    }
  }

  lemma {:induction false} DecisionsUpToLocal(a: seq<Decision>, b: seq<Decision>, n: nat, height: nat)
    requires n <= |a|
    ensures DecisionsUpTo(a + b, n, height) == DecisionsUpTo(a, n, height)
  {
    if n > 0 {
      DecisionsUpToLocal(a, b, n - 1, height);
    }
  }

  predicate AtHeight(decisions: seq<Decision>, number: nat) {
    forall k :: 0 <= k < |decisions| ==> decisions[k].operation.blockNumber == number
  }

  /** A run of equal height is kept or dropped as a whole. */
  lemma {:induction false} DecisionsUpToRun(a: seq<Decision>, b: seq<Decision>, number: nat, n: nat, height: nat)
    requires n <= |b| && AtHeight(b, number)
    ensures DecisionsUpTo(a + b, |a| + n, height)
         == DecisionsUpTo(a, |a|, height) + if number <= height then b[..n] else []
  {
    if n == 0 {
      DecisionsUpToLocal(a, b, |a|, height);
    } else {
      DecisionsUpToRun(a, b, number, n - 1, height);
      assert b[..n] == b[..n - 1] + [b[n - 1]];
      assert (a + b)[|a| + n - 1] == b[n - 1];
    }
  }

  type Filter = seq<Decision> -> seq<Decision>

  /** The filter keeps or drops a run of equal height as a whole. */
  ghost predicate FiltersByHeight(upTo: Filter, height: nat) {
    && upTo([]) == []
    && forall a, b, number: nat {:trigger upTo(a + b), AtHeight(b, number)} :: AtHeight(b, number) ==>
         upTo(a + b) == upTo(a) + if number <= height then b else []
  }

  function UpToHeight(height: nat): Filter {
    decisions => DecisionsUpTo(decisions, |decisions|, height)
  }

  lemma UpToHeightFilters(height: nat)
    ensures FiltersByHeight(UpToHeight(height), height)
  {
    var upTo := UpToHeight(height);
    forall a, b, number: nat {:trigger upTo(a + b), AtHeight(b, number)} | AtHeight(b, number)
      ensures upTo(a + b) == upTo(a) + if number <= height then b else []
    {
      DecisionsUpToRun(a, b, number, |b|, height);
    }
  }

  /** Reverting rows is the same as any filter by height. */
  lemma {:induction false} RevertedIsFiltered(checkpoints: seq<Checkpoint>, rows: seq<Row>, ancestor: nat,
                                              upTo: Filter)
    requires RowsStand(checkpoints, rows)
    requires FiltersByHeight(upTo, ancestor)
    ensures LiveDecisions(RevertRows(checkpoints, rows, ancestor)) == upTo(LiveDecisions(rows))
  {
    if rows != [] {
      var n := |rows| - 1;
      var live := if rows[n].state != Reverted then [rows[n].decision] else [];
      RevertedIsFiltered(checkpoints, rows[..n], ancestor, upTo);
      assert AtHeight(live, rows[n].decision.operation.blockNumber);
      assert LiveDecisions(rows) == LiveDecisions(rows[..n]) + live;
      assert RevertRows(checkpoints, rows, ancestor)[..n] == RevertRows(checkpoints, rows[..n], ancestor);
      assert RowAgrees(checkpoints, rows[n]);
    }
  }

  /** So is cutting the chain. */
  lemma {:induction false} CutIsFiltered(entries: seq<Entry>, ancestor: nat, upTo: Filter)
    requires Numbered(entries)
    requires FiltersByHeight(upTo, ancestor)
    ensures upTo(Decisions(entries)) == Decisions(entries[..if ancestor <= |entries| then ancestor else |entries|])
  {
    if entries != [] {
      var n := |entries| - 1;
      CutIsFiltered(entries[..n], ancestor, upTo);
      assert AtHeight(entries[n].decisions, n + 1);
      if ancestor <= n {
        assert entries[..n][..ancestor] == entries[..ancestor];
      } else {
        assert entries[..n][..n] == entries[..n] && entries[..|entries|] == entries;
      }
    }
  }

  lemma CheckpointsCut(checkpoints: seq<Checkpoint>, entries: seq<Entry>, irreversible: nat, ancestor: nat)
    requires CheckpointsAgree(checkpoints, entries, irreversible) && Numbered(entries)
    requires irreversible <= ancestor <= |entries|
    ensures CheckpointsAgree(RevertCheckpoints(checkpoints, ancestor), entries[..ancestor], irreversible)
  {
    var cut := RevertCheckpoints(checkpoints, ancestor);
    assert LiveBlocks(cut) == Blocks(entries[..ancestor]) by {
      RevertedBlocks(checkpoints, ancestor);
      BlocksUpToIsPrefix(Blocks(entries), |entries|, ancestor);
    }
    forall i | 0 <= i < |cut| && cut[i].state != Reverted
      ensures 1 <= cut[i].block.number <= ancestor
      ensures cut[i].state == Irreversible <==> cut[i].block.number <= irreversible
    {
      assert checkpoints[i].state != Reverted;
    }
    forall i, j | 0 <= i < j < |cut| ensures IdsDiffer(cut, i, j) {
      assert IdsDiffer(checkpoints, i, j);
    }
  }

  lemma DecisionsCut(checkpoints: seq<Checkpoint>, rows: seq<Row>, entries: seq<Entry>, ancestor: nat)
    requires LiveDecisions(rows) == Decisions(entries) && RowsStand(checkpoints, rows)
    requires Numbered(entries) && ancestor <= |entries|
    ensures LiveDecisions(RevertRows(checkpoints, rows, ancestor)) == Decisions(entries[..ancestor])
  {
    UpToHeightFilters(ancestor);
    RevertedIsFiltered(checkpoints, rows, ancestor, UpToHeight(ancestor));
    CutIsFiltered(entries, ancestor, UpToHeight(ancestor));
  }

  lemma RowsCut(checkpoints: seq<Checkpoint>, rows: seq<Row>, entries: seq<Entry>, ancestor: nat)
    requires RowsAgree(checkpoints, rows, entries) && Numbered(entries) && ancestor <= |entries|
    ensures RowsAgree(RevertCheckpoints(checkpoints, ancestor), RevertRows(checkpoints, rows, ancestor),
                      entries[..ancestor])
  {
    DecisionsCut(checkpoints, rows, entries, ancestor);
    var reverted := RevertRows(checkpoints, rows, ancestor);
    forall r | 0 <= r < |reverted| ensures RowAgrees(RevertCheckpoints(checkpoints, ancestor), reverted[r]) {
      assert RowAgrees(checkpoints, rows[r]);
    }
    forall r, s | 0 <= r < s < |reverted| ensures LiveInOrder(reverted, r, s) {
      assert LiveInOrder(rows, r, s);
      assert RowAgrees(checkpoints, rows[r]) && RowAgrees(checkpoints, rows[s]);
    }
  }

  lemma CarrierCut(checkpoints: seq<Checkpoint>, row: Row, ancestor: nat, id: string)
    requires RowAgrees(checkpoints, row)
    ensures LiveCarrier(RevertRow(checkpoints, row, ancestor), id)
       <==> LiveCarrier(row, id) && row.decision.operation.blockNumber <= ancestor
  {
  }

  /** Cutting the chain keeps the earliest carrier of an event or removes all of its carriers. */
  lemma FirstLiveCut(checkpoints: seq<Checkpoint>, rows: seq<Row>, ancestor: nat, id: string)
    requires RowsStand(checkpoints, rows)
    requires forall r, s :: 0 <= r < s < |rows| ==> LiveInOrder(rows, r, s)
    ensures var before, after := FirstLive(rows, id), FirstLive(RevertRows(checkpoints, rows, ancestor), id);
            after == if before.Some? && rows[before.value].decision.operation.blockNumber <= ancestor then before
                     else None
  {
    var reverted := RevertRows(checkpoints, rows, ancestor);
    var before, after := FirstLive(rows, id), FirstLive(reverted, id);
    if before.Some? {
      assert reverted[before.value] == RevertRow(checkpoints, rows[before.value], ancestor);
      CarrierCut(checkpoints, rows[before.value], ancestor, id);
    }
    if after.Some? {
      assert reverted[after.value] == RevertRow(checkpoints, rows[after.value], ancestor);
      CarrierCut(checkpoints, rows[after.value], ancestor, id);
      assert before.Some? && before.value <= after.value;
      assert before.value < after.value ==> LiveInOrder(rows, before.value, after.value);
    }
  }

  lemma BindingsCut(t: Tables, entries: seq<Entry>, owner: string -> string, ancestor: nat)
    requires TablesAgree(t, entries, owner)
    requires t.lastIrreversible <= ancestor
    ensures BindingsAgree(RevertRows(t.checkpoints, t.rows, ancestor), RevertBindings(t, ancestor), owner)
  {
    LiveRowsWithin(t.checkpoints, t.rows, entries, t.lastIrreversible);
    BindingsCutRows(t, owner, ancestor);
  }

  lemma BindingsCutRows(t: Tables, owner: string -> string, ancestor: nat)
    requires BindingsAgree(t.rows, t.bindings, owner) && RowsStand(t.checkpoints, t.rows)
    requires forall r, s :: 0 <= r < s < |t.rows| ==> LiveInOrder(t.rows, r, s)
    requires forall r :: 0 <= r < |t.rows| && t.rows[r].state == Irreversible ==>
               t.rows[r].decision.operation.blockNumber <= ancestor
    ensures BindingsAgree(RevertRows(t.checkpoints, t.rows, ancestor), RevertBindings(t, ancestor), owner)
  {
    var rows, bindings := RevertRows(t.checkpoints, t.rows, ancestor), RevertBindings(t, ancestor);
    forall id | id in bindings ensures BindingAgrees(rows, id, bindings[id], owner) {
      assert BindingAgrees(t.rows, id, t.bindings[id], owner);
      assert RowAgrees(t.checkpoints, t.rows[t.bindings[id].row]);
    }
    forall id | FirstLive(rows, id).Some?
      ensures id in bindings && bindings[id].row == FirstLive(rows, id).value
    {
      FirstLiveCut(t.checkpoints, t.rows, ancestor, id);
    }
  }

  /** Reverting to a height of the chain cuts the chain at that height. */
  lemma RevertCuts(t: Tables, entries: seq<Entry>, ancestor: nat, owner: string -> string)
    requires Represents(t, entries, owner)
    requires t.lastIrreversible <= ancestor <= |entries|
    ensures RevertAfter(t, ancestor).Success?
    ensures Represents(RevertAfter(t, ancestor).value, entries[..ancestor], owner)
    ensures RevertAfter(t, ancestor).value.view == t.view
  {
    CheckpointsCut(t.checkpoints, entries, t.lastIrreversible, ancestor);
    RowsCut(t.checkpoints, t.rows, entries, ancestor);
    BindingsCut(t, entries, owner, ancestor);
    assert Numbered(entries[..ancestor]);
    forall i | 0 < i < ancestor ensures LinksAt(entries[..ancestor], i) {
      assert LinksAt(entries, i);
    }
  }

  // ---- finalizeThrough raises the irreversible height ---------------------------------------------

  lemma {:induction false} FinalizedBlocks(checkpoints: seq<Checkpoint>, number: nat)
    ensures LiveBlocks(FinalizeCheckpoints(checkpoints, number)) == LiveBlocks(checkpoints)
  {
    if checkpoints != [] {
      var n := |checkpoints| - 1;
      FinalizedBlocks(checkpoints[..n], number);
      assert FinalizeCheckpoints(checkpoints, number)[..n] == FinalizeCheckpoints(checkpoints[..n], number);
    }
  }

  lemma {:induction false} FinalizedDecisions(checkpoints: seq<Checkpoint>, rows: seq<Row>, number: nat, now: nat)
    ensures LiveDecisions(FinalizeRows(checkpoints, rows, number, now)) == LiveDecisions(rows)
  {
    if rows != [] {
      var n := |rows| - 1;
      FinalizedDecisions(checkpoints, rows[..n], number, now);
      assert FinalizeRows(checkpoints, rows, number, now)[..n] == FinalizeRows(checkpoints, rows[..n], number, now);
    }
  }

  lemma {:induction false} FinalizedFirstLive(checkpoints: seq<Checkpoint>, rows: seq<Row>, number: nat, now: nat,
                                              id: string)
    ensures FirstLive(FinalizeRows(checkpoints, rows, number, now), id) == FirstLive(rows, id)
  {
    if rows != [] {
      var n := |rows| - 1;
      FinalizedFirstLive(checkpoints, rows[..n], number, now, id);
      assert FinalizeRows(checkpoints, rows, number, now)[..n] == FinalizeRows(checkpoints, rows[..n], number, now);
    }
  }

  lemma BindingsFinalized(t: Tables, owner: string -> string, number: nat, now: nat)
    requires BindingsAgree(t.rows, t.bindings, owner) && RowsStand(t.checkpoints, t.rows)
    ensures BindingsAgree(FinalizeRows(t.checkpoints, t.rows, number, now), FinalizeBindings(t, number), owner)
  {
    var rows, bindings := FinalizeRows(t.checkpoints, t.rows, number, now), FinalizeBindings(t, number);
    forall id | id in bindings ensures BindingAgrees(rows, id, bindings[id], owner) {
      assert BindingAgrees(t.rows, id, t.bindings[id], owner);
      assert RowAgrees(t.checkpoints, t.rows[t.bindings[id].row]);
    }
    forall id | FirstLive(rows, id).Some?
      ensures id in bindings && bindings[id].row == FirstLive(rows, id).value
    {
      FinalizedFirstLive(t.checkpoints, t.rows, number, now, id);
    }
  }

  lemma CheckpointsFinalized(checkpoints: seq<Checkpoint>, entries: seq<Entry>, irreversible: nat, number: nat)
    requires CheckpointsAgree(checkpoints, entries, irreversible)
    ensures CheckpointsAgree(FinalizeCheckpoints(checkpoints, number), entries, Max(irreversible, number))
  {
    FinalizedBlocks(checkpoints, number);
    var after := FinalizeCheckpoints(checkpoints, number);
    forall i, j | 0 <= i < j < |after| ensures IdsDiffer(after, i, j) {
      assert IdsDiffer(checkpoints, i, j);
    }
  }

  lemma RowsFinalized(checkpoints: seq<Checkpoint>, rows: seq<Row>, entries: seq<Entry>, number: nat, now: nat)
    requires RowsAgree(checkpoints, rows, entries)
    ensures RowsAgree(FinalizeCheckpoints(checkpoints, number), FinalizeRows(checkpoints, rows, number, now), entries)
  {
    FinalizedDecisions(checkpoints, rows, number, now);
    var after := FinalizeRows(checkpoints, rows, number, now);
    forall r | 0 <= r < |rows| ensures RowAgrees(FinalizeCheckpoints(checkpoints, number), after[r]) {
      assert RowAgrees(checkpoints, rows[r]);
    }
    forall r, s | 0 <= r < s < |rows| ensures LiveInOrder(after, r, s) {
      assert LiveInOrder(rows, r, s);
    }
  }

  function Max(a: nat, b: nat): nat {
    if a >= b then a else b
  }

  /** Finalising leaves the chain as it is and raises the irreversible height. */
  lemma FinalizeRaises(data: LocalData, t: Tables, entries: seq<Entry>, number: nat, now: nat,
                       owner: string -> string)
    requires Represents(t, entries, owner)
    requires number <= |entries| && FinalizeThrough(data, t, number, now).Success?
    ensures Represents(FinalizeThrough(data, t, number, now).value, entries, owner)
    ensures FinalizeThrough(data, t, number, now).value.lastIrreversible == Max(t.lastIrreversible, number)
  {
    CheckpointsFinalized(t.checkpoints, entries, t.lastIrreversible, number);
    RowsFinalized(t.checkpoints, t.rows, entries, number, now);
    BindingsFinalized(t, owner, number, now);
  }
}
