/**
 One cycle of the fork-aware projector: read the source, roll back a fork or apply the next blocks,
 finalise. The source may answer every read differently, so each answer depends on how many reads
 went before it; a cycle that fails keeps what it has already committed.
 */
module ProjectorCycle {
  import opened Wrappers
  import opened MatchView
  import opened ProjectionTables
  import opened ProjectionChain
  import opened ProjectionRuns

  /** The irreversible block the node reports; height zero carries no identity. */
  datatype Lib = Lib(number: nat, id: Option<string>)

  /** What the source answers; the first argument of each answer counts the reads before it. */
  datatype Source = Source(
    head: nat -> Result<nat, Error>,
    lib: nat -> Result<Lib, Error>,
    block: (nat, nat) -> Result<Block, Error>,
    operations: (nat, nat, nat) -> Result<seq<Operation>, Error>)

  type Validator = (Operation, Block) -> Option<Verdict>

  datatype Projector = Projector(source: Source, validate: Validator, maxBlocksPerRun: nat, maxReorgDepth: nat)

  datatype RunResult = RunResult(appliedBlocks: nat, finalizedThrough: nat, revertedTo: Option<nat>, sourceHead: nat)

  datatype Outcome = Outcome(tables: Tables, count: nat, result: Result<RunResult, Error>)

  /** Where a cycle stands; `Success(None)` means that no rollback has ended it yet. */
  datatype Progress = Progress(tables: Tables, cursor: Cursor, applied: nat, count: nat,
                               outcome: Result<Option<nat>, Error>)

  datatype Read<+T> = Read(count: nat, answer: Result<T, Error>)

  function Min(a: nat, b: nat): nat {
    if a <= b then a else b
  }

  // ---- Reading the source -------------------------------------------------------------------------

  /** The next block of a snapshot has the height asked for and links to the one before it. */
  predicate Continues(blocks: seq<Block>, block: Block, number: nat) {
    block.number == number && (blocks != [] ==> block.previousId == blocks[|blocks| - 1].id)
  }

  function ReadSnapshot(source: Source, at: nat, first: nat, last: nat): Read<seq<Block>>
    requires first >= 1
    decreases last
  {
    if last < first then Read(at, Success([]))
    else
      var earlier := ReadSnapshot(source, at, first, last - 1);
      if earlier.answer.Failure? then earlier
      else
        var blocks, block := earlier.answer.value, source.block(earlier.count, last);
        if block.Failure? then Read(earlier.count + 1, Failure(block.error))
        else if !Continues(blocks, block.value, last) then Read(earlier.count + 1, Failure(SourceDivergence))
        else Read(earlier.count + 1, Success(blocks + [block.value]))
  }

  predicate BlockLinks(blocks: seq<Block>, i: nat)
    requires 0 < i < |blocks|
  {
    blocks[i].previousId == blocks[i - 1].id
  }

  /** A linked stretch of blocks from the height `first` on. */
  predicate Consecutive(blocks: seq<Block>, first: nat) {
    && (forall i :: 0 <= i < |blocks| ==> blocks[i].number == first + i)
    && (forall i :: 0 < i < |blocks| ==> BlockLinks(blocks, i))
  }

  /** A snapshot that was read is a linked stretch of blocks with the heights asked for. */
  lemma {:induction false} SnapshotIsLinked(source: Source, at: nat, first: nat, last: nat)
    requires 1 <= first <= last + 1
    requires ReadSnapshot(source, at, first, last).answer.Success?
    ensures var blocks := ReadSnapshot(source, at, first, last).answer.value;
            |blocks| == last + 1 - first && Consecutive(blocks, first)
  {
    if first <= last {
      SnapshotIsLinked(source, at, first, last - 1);
      var shorter, blocks := ReadSnapshot(source, at, first, last - 1).answer.value,
                             ReadSnapshot(source, at, first, last).answer.value;
      forall i | 0 < i < |blocks| ensures BlockLinks(blocks, i) {
        assert i < |shorter| ==> BlockLinks(shorter, i);
      }
    }
  }

  predicate DistinctSources(operations: seq<Operation>) {
    forall i, j :: 0 <= i < j < |operations| ==> operations[i].sourceId != operations[j].sourceId
  }

  datatype Next = Next(blocks: seq<Block>, operations: seq<Operation>)

  /** The blocks are read twice around their operations and must not have changed meanwhile. */
  function ReadNext(source: Source, at: nat, first: nat, last: nat): Read<Next>
    requires first >= 1
  {
    var before := ReadSnapshot(source, at, first, last);
    if before.answer.Failure? then Read(before.count, Failure(before.answer.error))
    else
      var operations := source.operations(before.count, first, last);
      if operations.Failure? then Read(before.count + 1, Failure(operations.error))
      else
        var after := ReadSnapshot(source, before.count + 1, first, last);
        if after.answer.Failure? then Read(after.count, Failure(after.answer.error))
        else if before.answer.value != after.answer.value then Read(after.count, Failure(SourceDivergence))
        else if !DistinctSources(operations.value) then Read(after.count, Failure(InvalidSourceResponse))
        else Read(after.count, Success(Next(after.answer.value, operations.value)))
  }

  lemma NextIsLinked(source: Source, at: nat, first: nat, last: nat)
    requires 1 <= first <= last + 1
    requires ReadNext(source, at, first, last).answer.Success?
    ensures var blocks := ReadNext(source, at, first, last).answer.value.blocks;
            |blocks| == last + 1 - first && Consecutive(blocks, first)
  {
    SnapshotIsLinked(source, ReadSnapshot(source, at, first, last).count + 1, first, last);
  }

  /** The operations of one block, in the order of the whole answer. */
  function OperationsAt(operations: seq<Operation>, number: nat): seq<Operation> {
    if operations == [] then []
    else
      var n := |operations| - 1;
      OperationsAt(operations[..n], number) + if operations[n].blockNumber == number then [operations[n]] else []
  }

  predicate Belongs(operation: Operation, block: Block) {
    operation.blockNumber == block.number && operation.timestamp == block.timestamp
  }

  predicate Repeats(operations: seq<Operation>, operation: Operation) {
    exists i :: 0 <= i < |operations| && operations[i].sourceId == operation.sourceId
  }

  function ValidateOperations(validate: Validator, block: Block, operations: seq<Operation>)
    : Result<seq<Decision>, Error>
  {
    if operations == [] then Success([])
    else
      var n := |operations| - 1;
      var earlier :- ValidateOperations(validate, block, operations[..n]);
      if !Belongs(operations[n], block) || Repeats(operations[..n], operations[n]) then Failure(InvalidSourceResponse)
      else
        var verdict := validate(operations[n], block);
        Success(earlier + if verdict.Some? then [Decision(operations[n], verdict.value)] else [])
  }

  // ---- Rolling back -------------------------------------------------------------------------------

  function LowerBound(start: nat, depth: nat): nat {
    if start >= depth then start - depth else 0
  }

  function RollBack(t: Tables, cursor: Cursor, applied: nat, ancestor: nat, count: nat): Progress {
    var reverted := RevertAfter(t, ancestor);
    if reverted.Failure? then Progress(t, cursor, applied, count, Failure(reverted.error))
    else Progress(reverted.value, cursor, applied, count, Success(Some(ancestor)))
  }

  /** Looks down from `height` for a block the store and the source agree on. */
  function ReconcileFork(source: Source, t: Tables, cursor: Cursor, applied: nat, height: nat, lower: nat, at: nat)
    : Progress
    requires lower <= height
    decreases height
  {
    if height == 0 then
      if cursor.lastIrreversible > 0 then Progress(t, cursor, applied, at, Failure(IrreversibleFork))
      else RollBack(t, cursor, applied, 0, at)
    else
      var stored, current := CurrentCheckpoint(t.checkpoints, height), source.block(at, height);
      if current.Failure? then Progress(t, cursor, applied, at + 1, Failure(current.error))
      else if stored.Some? && stored.value.block.id == current.value.id then
        if height < cursor.lastIrreversible then Progress(t, cursor, applied, at + 1, Failure(IrreversibleFork))
        else RollBack(t, cursor, applied, height, at + 1)
      else if height <= cursor.lastIrreversible then Progress(t, cursor, applied, at + 1, Failure(IrreversibleFork))
      else if height == lower then Progress(t, cursor, applied, at + 1, Failure(ReorgTooDeep))
      else ReconcileFork(source, t, cursor, applied, height - 1, lower, at + 1)
  }

  function VerifyTip(p: Projector, t: Tables, cursor: Cursor, at: nat): Progress {
    if cursor.lastProcessed == 0 || cursor.lastId.None? then Progress(t, cursor, 0, at, Success(None))
    else
      var current := p.source.block(at, cursor.lastProcessed);
      if current.Failure? then Progress(t, cursor, 0, at + 1, Failure(current.error))
      else if current.value.id == cursor.lastId.value then Progress(t, cursor, 0, at + 1, Success(None))
      else ReconcileFork(p.source, t, cursor, 0, cursor.lastProcessed,
                         LowerBound(cursor.lastProcessed, p.maxReorgDepth), at + 1)
  }

  // ---- Applying -----------------------------------------------------------------------------------

  predicate Forks(cursor: Cursor, block: Block) {
    cursor.lastId.Some? && block.previousId != cursor.lastId.value
  }

  function ApplyNext(p: Projector, progress: Progress, operations: seq<Operation>, block: Block): Progress {
    var t, cursor := progress.tables, progress.cursor;
    if Forks(cursor, block) then
      if block.number == 0 then progress.(outcome := Failure(ReorgTooDeep))
      else ReconcileFork(p.source, t, cursor, progress.applied, block.number - 1,
                         LowerBound(block.number - 1, p.maxReorgDepth), progress.count)
    else
      var decisions := ValidateOperations(p.validate, block, OperationsAt(operations, block.number));
      if decisions.Failure? then progress.(outcome := Failure(decisions.error))
      else
        var applied := ApplyBlock(t, block, decisions.value);
        if applied.Failure? then progress.(outcome := Failure(applied.error))
        else Progress(applied.value, Cursor(block.number, Some(block.id), cursor.lastIrreversible),
                      progress.applied + 1, progress.count, Success(None))
  }

  /** Applies the first `n` blocks, or as many as there are until one rolls back or fails. */
  function ApplyBlocks(p: Projector, start: Progress, operations: seq<Operation>, blocks: seq<Block>, n: nat): Progress
    requires n <= |blocks|
  {
    if n == 0 then start
    else
      var earlier := ApplyBlocks(p, start, operations, blocks, n - 1);
      if earlier.outcome != Success(None) then earlier else ApplyNext(p, earlier, operations, blocks[n - 1])
  }

  function Advance(p: Projector, t: Tables, cursor: Cursor, target: nat, at: nat): Progress {
    if target <= cursor.lastProcessed then Progress(t, cursor, 0, at, Success(None))
    else
      var next := ReadNext(p.source, at, cursor.lastProcessed + 1, target);
      if next.answer.Failure? then Progress(t, cursor, 0, next.count, Failure(next.answer.error))
      else
        ApplyBlocks(p, Progress(t, cursor, 0, next.count, Success(None)), next.answer.value.operations,
                    next.answer.value.blocks, |next.answer.value.blocks|)
  }

  // ---- Finalising ---------------------------------------------------------------------------------

  predicate IsAnchored(lib: Lib, head: nat) {
    0 < lib.number <= head && lib.id.Some?
  }

  function AssertFinality(source: Source, t: Tables, lib: Lib, finalizable: nat, head: nat, at: nat): Read<()> {
    if !IsAnchored(lib, head) then Read(at, Failure(SourceDivergence))
    else
      var anchor := source.block(at, lib.number);
      if anchor.Failure? then Read(at + 1, Failure(anchor.error))
      else if anchor.value.id != lib.id.value then Read(at + 1, Failure(SourceDivergence))
      else
        var stored := CurrentCheckpoint(t.checkpoints, finalizable);
        var current := if finalizable == lib.number then anchor else source.block(at + 1, finalizable);
        var count := if finalizable == lib.number then at + 1 else at + 2;
        if current.Failure? then Read(count, Failure(current.error))
        else if stored.None? || stored.value.block != current.value then Read(count, Failure(SourceDivergence))
        else Read(count, Success(()))
  }

  function Conclude(data: LocalData, p: Projector, progress: Progress, lib: Lib, head: nat, now: nat): Outcome {
    var cursor := progress.cursor;
    var finalizable := Min(lib.number, cursor.lastProcessed);
    var result := RunResult(progress.applied, Max(cursor.lastIrreversible, finalizable), None, head);
    if finalizable <= cursor.lastIrreversible then Outcome(progress.tables, progress.count, Success(result))
    else
      var agreed := AssertFinality(p.source, progress.tables, lib, finalizable, head, progress.count);
      if agreed.answer.Failure? then Outcome(progress.tables, agreed.count, Failure(agreed.answer.error))
      else
        var finalized := FinalizeThrough(data, progress.tables, finalizable, now);
        if finalized.Failure? then Outcome(progress.tables, agreed.count, Failure(finalized.error))
        else Outcome(finalized.value, agreed.count, Success(result))
  }

  /** A cycle that ended in a rollback or an error concludes without finalising. */
  function Settle(progress: Progress, head: nat): Outcome
    requires progress.outcome != Success(None)
  {
    Outcome(progress.tables, progress.count,
            match progress.outcome
            case Failure(error) => Failure(error)
            case Success(revertedTo) =>
              Success(RunResult(progress.applied, progress.cursor.lastIrreversible, revertedTo, head)))
  }

  function Finish(data: LocalData, p: Projector, advanced: Progress, lib: Lib, head: nat, now: nat): Outcome {
    if advanced.outcome != Success(None) then Settle(advanced, head)
    else Conclude(data, p, advanced, lib, head, now)
  }

  /** The rest of a cycle once the tip is known to be on the source's chain. */
  function Extend(data: LocalData, p: Projector, t: Tables, cursor: Cursor, lib: Lib, head: nat, now: nat, at: nat)
    : Outcome
  {
    Finish(data, p, Advance(p, t, cursor, Min(head, cursor.lastProcessed + p.maxBlocksPerRun), at), lib, head, now)
  }

  /** One whole cycle from the tables `t`, with `at` reads done before and finalisation at instant `now`. */
  function Cycle(data: LocalData, p: Projector, t: Tables, now: nat, at: nat): Outcome {
    var cursor := GetCursor(t);
    var head, lib := p.source.head(at), p.source.lib(at + 1);
    if head.Failure? then Outcome(t, at + 2, Failure(head.error))
    else if lib.Failure? then Outcome(t, at + 2, Failure(lib.error))
    else if head.value < cursor.lastProcessed then
      Outcome(t, at + 2, Success(RunResult(0, cursor.lastIrreversible, None, head.value)))
    else
      var tip := VerifyTip(p, t, cursor, at + 2);
      if tip.outcome != Success(None) then Settle(tip, head.value)
      else Extend(data, p, t, cursor, lib.value, head.value, now, tip.count)
  }
}
