/**
 The projector as it runs: loops that read the source one request at a time and change the store one
 transaction at a time. Each method is proved equal to its function on values in ProjectorCycle.
 */
module ForkAwareProjector {
  import opened Wrappers
  import opened MatchView
  import opened ProjectionTables
  import opened ProjectionChain
  import opened ProjectorCycle
  import ProjectorSafety
  import ProjectionStore

  /** The remote source; `count` is the number of requests it has answered. */
  class HafSource {
    const answers: Source
    var count: nat

    constructor (answers: Source)
      ensures this.answers == answers && count == 0
    {
      this.answers := answers;
      count := 0;
    }

    method GetHeadBlockNumber() returns (r: Result<nat, Error>)
      modifies this
      ensures r == answers.head(old(count)) && count == old(count) + 1
    {
      r := answers.head(count);
      count := count + 1;
    }

    method GetLastIrreversibleBlock() returns (r: Result<Lib, Error>)
      modifies this
      ensures r == answers.lib(old(count)) && count == old(count) + 1
    {
      r := answers.lib(count);
      count := count + 1;
    }

    method GetBlock(number: nat) returns (r: Result<Block, Error>)
      modifies this
      ensures r == answers.block(old(count), number) && count == old(count) + 1
    {
      r := answers.block(count, number);
      count := count + 1;
    }

    method GetOperations(first: nat, last: nat) returns (r: Result<seq<Operation>, Error>)
      modifies this
      ensures r == answers.operations(old(count), first, last) && count == old(count) + 1
    {
      r := answers.operations(count, first, last);
      count := count + 1;
    }
  }

  function SourceIds(operations: seq<Operation>): set<string> {
    set k | 0 <= k < |operations| :: operations[k].sourceId
  }

  /** What the set of identities seen so far says about the next operation. */
  lemma SourcesGrow(operations: seq<Operation>, i: nat)
    requires i < |operations|
    ensures SourceIds(operations[..i + 1]) == SourceIds(operations[..i]) + {operations[i].sourceId}
    ensures operations[i].sourceId in SourceIds(operations[..i]) <==> Repeats(operations[..i], operations[i])
    ensures operations[i].sourceId in SourceIds(operations[..i]) ==> !DistinctSources(operations)
    ensures DistinctSources(operations[..i]) && operations[i].sourceId !in SourceIds(operations[..i]) ==>
              DistinctSources(operations[..i + 1])
  {
    var shorter, longer := operations[..i], operations[..i + 1];
    forall id | id in SourceIds(shorter) ensures id in SourceIds(longer) {
      var k :| 0 <= k < i && shorter[k].sourceId == id;
      assert longer[k].sourceId == id;
    }
    assert longer[i].sourceId in SourceIds(longer);
    if operations[i].sourceId in SourceIds(shorter) {
      var k :| 0 <= k < i && shorter[k].sourceId == operations[i].sourceId;
      assert operations[k].sourceId == operations[i].sourceId;
    }
  }

  /** The groups hold the operations of every block, in order. */
  ghost predicate Groups(grouped: map<nat, seq<Operation>>, operations: seq<Operation>) {
    forall n: nat :: GroupAt(grouped, n) == OperationsAt(operations, n)
  }

  function GroupAt(grouped: map<nat, seq<Operation>>, n: nat): seq<Operation> {
    if n in grouped then grouped[n] else []
  }

  lemma GroupsGrow(grouped: map<nat, seq<Operation>>, operations: seq<Operation>, i: nat)
    requires i < |operations| && Groups(grouped, operations[..i])
    ensures var number := operations[i].blockNumber;
            Groups(grouped[number := GroupAt(grouped, number) + [operations[i]]], operations[..i + 1])
  {
    var number := operations[i].blockNumber;
    var after := grouped[number := GroupAt(grouped, number) + [operations[i]]];
    assert operations[..i + 1][..i] == operations[..i];
    forall n: nat ensures GroupAt(after, n) == OperationsAt(operations[..i + 1], n) {
      assert GroupAt(grouped, n) == OperationsAt(operations[..i], n);
    }
  }

  class Service {
    const source: HafSource
    const store: ProjectionStore.Store
    const validate: Validator
    const maxBlocksPerRun: nat
    const maxReorgDepth: nat

    constructor (source: HafSource, store: ProjectionStore.Store, validate: Validator, maxBlocksPerRun: nat,
                 maxReorgDepth: nat)
      ensures this.source == source && this.store == store
      ensures Model() == Projector(source.answers, validate, maxBlocksPerRun, maxReorgDepth)
    {
      this.source, this.store, this.validate := source, store, validate;
      this.maxBlocksPerRun, this.maxReorgDepth := maxBlocksPerRun, maxReorgDepth;
    }

    function Model(): Projector {
      Projector(source.answers, validate, maxBlocksPerRun, maxReorgDepth)
    }

    /** Where a cycle stands, as seen from its local variables. */
    function Standing(cursor: Cursor, applied: nat, outcome: Result<Option<nat>, Error>): Progress
      reads source, store
    {
      Progress(store.Contents(), cursor, applied, source.count, outcome)
    }

    method ReadBlockSnapshot(first: nat, last: nat) returns (r: Result<seq<Block>, Error>)
      requires 1 <= first <= last + 1
      modifies source
      ensures Read(source.count, r) == ReadSnapshot(source.answers, old(source.count), first, last)
    {
      var blocks: seq<Block> := [];
      var number := first;
      while number <= last
        invariant first <= number <= last + 1
        invariant ReadSnapshot(source.answers, old(source.count), first, number - 1)
               == Read(source.count, Success(blocks))
      {
        var block := source.GetBlock(number);
        if block.Failure? {
          SnapshotStops(source.answers, old(source.count), first, number, last);
          return Failure(block.error);
        }
        if block.value.number != number || (blocks != [] && block.value.previousId != blocks[|blocks| - 1].id) {
          SnapshotStops(source.answers, old(source.count), first, number, last);
          return Failure(SourceDivergence);
        }
        blocks := blocks + [block.value];
        number := number + 1;
      }
      return Success(blocks);
    }

    /** Groups the operations by block; an identity that occurs twice is refused. */
    method GroupOperationsByBlock(operations: seq<Operation>) returns (r: Result<map<nat, seq<Operation>>, Error>)
      ensures r.Success? <==> DistinctSources(operations)
      ensures r.Success? ==> Groups(r.value, operations)
      ensures r.Failure? ==> r.error == InvalidSourceResponse
    {
      var grouped: map<nat, seq<Operation>> := map[];
      var sourceIds: set<string> := {};
      var i := 0;
      while i < |operations|
        invariant i <= |operations| && DistinctSources(operations[..i])
        invariant sourceIds == SourceIds(operations[..i])
        invariant Groups(grouped, operations[..i])
      {
        var operation := operations[i];
        SourcesGrow(operations, i);
        if operation.sourceId in sourceIds {
          return Failure(InvalidSourceResponse);
        }
        GroupsGrow(grouped, operations, i);
        sourceIds := sourceIds + {operation.sourceId};
        grouped := grouped[operation.blockNumber := GroupAt(grouped, operation.blockNumber) + [operation]];
        i := i + 1;
      }
      assert operations[..i] == operations;
      return Success(grouped);
    }

    method ValidateBlockOperations(block: Block, operations: seq<Operation>) returns (r: Result<seq<Decision>, Error>)
      ensures r == ValidateOperations(validate, block, operations)
    {
      var decisions: seq<Decision> := [];
      var sourceIds: set<string> := {};
      var i := 0;
      while i < |operations|
        invariant i <= |operations|
        invariant ValidateOperations(validate, block, operations[..i]) == Success(decisions)
        invariant sourceIds == SourceIds(operations[..i])
      {
        var operation := operations[i];
        assert operations[..i + 1][..i] == operations[..i];
        SourcesGrow(operations, i);
        if !Belongs(operation, block) || operation.sourceId in sourceIds {
          ValidationStops(validate, block, operations, i + 1);
          return Failure(InvalidSourceResponse);
        }
        sourceIds := sourceIds + {operation.sourceId};
        var verdict := validate(operation, block);
        if verdict.Some? {
          decisions := decisions + [Decision(operation, verdict.value)];
        } else {
          assert decisions + [] == decisions;
        }
        i := i + 1;
      }
      assert operations[..i] == operations;
      return Success(decisions);
    }

    /** Counts down from the start height; nothing is tried below height zero. */
    method ReconcileFork(cursor: Cursor, startHeight: int, ghost applied: nat) returns (r: Result<nat, Error>)
      requires startHeight >= -1
      modifies source, store
      ensures var outcome := if r.Success? then Success(Some(r.value)) else Failure(r.error);
              if startHeight == -1
              then Standing(cursor, applied, outcome) == old(Standing(cursor, applied, Failure(ReorgTooDeep)))
              else Standing(cursor, applied, outcome)
                   == ProjectorCycle.ReconcileFork(source.answers, old(store.Contents()), cursor, applied, startHeight,
                                                   LowerBound(startHeight, maxReorgDepth), old(source.count))
    {
      var lower := if startHeight >= maxReorgDepth then startHeight - maxReorgDepth else 0;
      var number := startHeight;
      while number >= lower
        invariant lower - 1 <= number <= startHeight
        invariant store.Contents() == old(store.Contents())
        invariant startHeight == -1 ==> source.count == old(source.count)
        invariant number >= lower ==>
                    ProjectorCycle.ReconcileFork(source.answers, store.Contents(), cursor, applied, number, lower,
                                                 source.count)
                    == ProjectorCycle.ReconcileFork(source.answers, store.Contents(), cursor, applied, startHeight,
                                                    lower, old(source.count))
        invariant startHeight >= 0 && number < lower ==>
                    ProjectorCycle.ReconcileFork(source.answers, store.Contents(), cursor, applied, startHeight,
                                                 lower, old(source.count))
                    == Standing(cursor, applied, Failure(ReorgTooDeep))
        decreases number - lower
      {
        if number == 0 {
          if cursor.lastIrreversible > 0 {
            return Failure(IrreversibleFork);
          }
          var reverted := store.RevertAfter(0);
          return if reverted.Success? then Success(0) else Failure(reverted.error);
        }
        var stored := store.GetCurrentCheckpoint(number);
        var current := source.GetBlock(number);
        if current.Failure? {
          return Failure(current.error);
        }
        if stored.Some? && stored.value.block.id == current.value.id {
          if number < cursor.lastIrreversible {
            return Failure(IrreversibleFork);
          }
          var reverted := store.RevertAfter(number);
          return if reverted.Success? then Success(number) else Failure(reverted.error);
        }
        if number <= cursor.lastIrreversible {
          return Failure(IrreversibleFork);
        }
        number := number - 1;
      }
      return Failure(ReorgTooDeep);
    }

    method VerifyCurrentTip(cursor: Cursor) returns (r: Result<Option<nat>, Error>)
      modifies source, store
      ensures Standing(cursor, 0, r) == VerifyTip(Model(), old(store.Contents()), cursor, old(source.count))
    {
      if cursor.lastProcessed == 0 || cursor.lastId.None? {
        return Success(None);
      }
      var current := source.GetBlock(cursor.lastProcessed);
      if current.Failure? {
        return Failure(current.error);
      }
      if current.value.id == cursor.lastId.value {
        return Success(None);
      }
      var ancestor := ReconcileFork(cursor, cursor.lastProcessed, 0);
      return if ancestor.Success? then Success(Some(ancestor.value)) else Failure(ancestor.error);
    }

    method AssertFinalityAgreement(lib: Lib, finalizable: nat, head: nat) returns (r: Result<(), Error>)
      modifies source
      ensures Read(source.count, r)
           == AssertFinality(source.answers, store.Contents(), lib, finalizable, head, old(source.count))
    {
      if lib.number == 0 || lib.id.None? || lib.number > head {
        return Failure(SourceDivergence);
      }
      var anchor := source.GetBlock(lib.number);
      if anchor.Failure? {
        return Failure(anchor.error);
      }
      if anchor.value.id != lib.id.value {
        return Failure(SourceDivergence);
      }
      var stored := store.GetCurrentCheckpoint(finalizable);
      var current := anchor;
      if finalizable != lib.number {
        current := source.GetBlock(finalizable);
        if current.Failure? {
          return Failure(current.error);
        }
      }
      if stored.None? || stored.value.block != current.value {
        return Failure(SourceDivergence);
      }
      return Success(());
    }

    /** Takes one block: rolls back if it forks off the cursor, else validates and applies it. */
    method ApplyOne(start: Cursor, before: nat, block: Block, operations: seq<Operation>,
                    operationsByBlock: map<nat, seq<Operation>>)
      returns (cursor: Cursor, applied: nat, r: Result<Option<nat>, Error>)
      requires Groups(operationsByBlock, operations)
      modifies source, store
      ensures Standing(cursor, applied, r)
           == ApplyNext(Model(), old(Standing(start, before, Success(None))), operations, block)
    {
      cursor, applied := start, before;
      if cursor.lastId.Some? && block.previousId != cursor.lastId.value {
        var ancestor := ReconcileFork(cursor, block.number - 1, applied);
        return cursor, applied, if ancestor.Success? then Success(Some(ancestor.value)) else Failure(ancestor.error);
      }
      var decisions := ValidateBlockOperations(
        block, GroupAt(operationsByBlock, block.number));
      if decisions.Failure? {
        return cursor, applied, Failure(decisions.error);
      }
      var result := store.ApplyBlock(block, decisions.value);
      if result.Failure? {
        return cursor, applied, Failure(result.error);
      }
      cursor := cursor.(lastProcessed := block.number, lastId := Some(block.id));
      applied := applied + 1;
      r := Success(None);
    }

    /** Takes the blocks one by one until one rolls back or fails. */
    method ApplyAll(start: Cursor, blocks: seq<Block>, operations: seq<Operation>,
                    operationsByBlock: map<nat, seq<Operation>>)
      returns (cursor: Cursor, applied: nat, r: Result<Option<nat>, Error>)
      requires Groups(operationsByBlock, operations)
      modifies source, store
      ensures Standing(cursor, applied, r)
           == ApplyBlocks(Model(), old(Standing(start, 0, Success(None))), operations, blocks, |blocks|)
    {
      ghost var begin := Standing(start, 0, Success(None));
      cursor, applied, r := start, 0, Success(None);
      var i := 0;
      while i < |blocks| && r == Success(None)
        invariant i <= |blocks|
        invariant ApplyBlocks(Model(), begin, operations, blocks, i) == Standing(cursor, applied, r)
      {
        cursor, applied, r := ApplyOne(cursor, applied, blocks[i], operations, operationsByBlock);
        i := i + 1;
      }
      if r != Success(None) {
        ApplyingStops(Model(), begin, operations, blocks, i, |blocks|);
      }
    }

    /** Reads the next blocks twice around their operations and applies them if nothing changed meanwhile. */
    method AdvanceTo(start: Cursor, target: nat) returns (cursor: Cursor, applied: nat, r: Result<Option<nat>, Error>)
      modifies source, store
      ensures Standing(cursor, applied, r)
           == Advance(Model(), old(store.Contents()), start, target, old(source.count))
    {
      cursor, applied := start, 0;
      if target <= start.lastProcessed {
        return cursor, applied, Success(None);
      }
      var first := start.lastProcessed + 1;
      var before := ReadBlockSnapshot(first, target);
      if before.Failure? {
        return cursor, applied, Failure(before.error);
      }
      var operations := source.GetOperations(first, target);
      if operations.Failure? {
        return cursor, applied, Failure(operations.error);
      }
      var after := ReadBlockSnapshot(first, target);
      if after.Failure? {
        return cursor, applied, Failure(after.error);
      }
      if before.value != after.value {
        return cursor, applied, Failure(SourceDivergence);
      }
      var grouped := GroupOperationsByBlock(operations.value);
      if grouped.Failure? {
        return cursor, applied, Failure(grouped.error);
      }
      cursor, applied, r := ApplyAll(start, after.value, operations.value, grouped.value);
    }

    method ConcludeRun(data: LocalData, cursor: Cursor, applied: nat, lib: Lib, head: nat, now: nat)
      returns (r: Result<RunResult, Error>)
      modifies source, store
      ensures Outcome(store.Contents(), source.count, r)
           == Conclude(data, Model(), old(Standing(cursor, applied, Success(None))), lib, head, now)
    {
      var finalizable := Min(lib.number, cursor.lastProcessed);
      if finalizable > cursor.lastIrreversible {
        var agreed := AssertFinalityAgreement(lib, finalizable, head);
        if agreed.Failure? {
          return Failure(agreed.error);
        }
        var finalized := store.FinalizeThrough(data, finalizable, now);
        if finalized.Failure? {
          return Failure(finalized.error);
        }
      }
      return Success(RunResult(applied, Max(cursor.lastIrreversible, finalizable), None, head));
    }

    /** The rest of a cycle once the tip is known to be on the source's chain. */
    method ExtendChain(data: LocalData, cursor: Cursor, lib: Lib, head: nat, now: nat)
      returns (r: Result<RunResult, Error>)
      modifies source, store
      ensures Outcome(store.Contents(), source.count, r)
           == Extend(data, Model(), old(store.Contents()), cursor, lib, head, now, old(source.count))
    {
      var current, applied, reverted := AdvanceTo(cursor, Min(head, cursor.lastProcessed + maxBlocksPerRun));
      if reverted.Failure? {
        return Failure(reverted.error);
      }
      if reverted.value.Some? {
        return Success(RunResult(applied, current.lastIrreversible, reverted.value, head));
      }
      r := ConcludeRun(data, current, applied, lib, head, now);
    }

    method RunOnce(data: LocalData, now: nat) returns (r: Result<RunResult, Error>)
      modifies source, store
      ensures Outcome(store.Contents(), source.count, r)
           == Cycle(data, Model(), old(store.Contents()), now, old(source.count))
    {
      var cursor := store.GetCursor();
      var head := source.GetHeadBlockNumber();
      var lib := source.GetLastIrreversibleBlock();
      if head.Failure? {
        return Failure(head.error);
      }
      if lib.Failure? {
        return Failure(lib.error);
      }
      if head.value < cursor.lastProcessed {
        return Success(RunResult(0, cursor.lastIrreversible, None, head.value));
      }
      var tip := VerifyCurrentTip(cursor);
      if tip.Failure? {
        return Failure(tip.error);
      }
      if tip.value.Some? {
        return Success(RunResult(0, cursor.lastIrreversible, tip.value, head.value));
      }
      ProjectorSafety.CycleExtends(data, Model(), old(store.Contents()), now, old(source.count), head.value, lib.value);
      r := ExtendChain(data, cursor, lib.value, head.value, now);
    }
  }

  lemma {:induction false} SnapshotStops(source: Source, at: nat, first: nat, n: nat, last: nat)
    requires 1 <= first <= n <= last
    requires ReadSnapshot(source, at, first, n).answer.Failure?
    ensures ReadSnapshot(source, at, first, last) == ReadSnapshot(source, at, first, n)
  {
    if n < last {
      SnapshotStops(source, at, first, n, last - 1);
    }
  }

  lemma {:induction false} ValidationStops(validate: Validator, block: Block, operations: seq<Operation>, n: nat)
    requires n <= |operations| && ValidateOperations(validate, block, operations[..n]).Failure?
    ensures ValidateOperations(validate, block, operations) == ValidateOperations(validate, block, operations[..n])
    decreases |operations|
  {
    if n == |operations| {
      assert operations[..n] == operations;
    } else {
      var shorter := operations[..|operations| - 1];
      assert shorter[..n] == operations[..n];
      ValidationStops(validate, block, shorter, n);
    }
  }

  lemma {:induction false} ApplyingStops(p: Projector, start: Progress, operations: seq<Operation>,
                                         blocks: seq<Block>, n: nat, m: nat)
    requires n <= m <= |blocks| && ApplyBlocks(p, start, operations, blocks, n).outcome != Success(None)
    ensures ApplyBlocks(p, start, operations, blocks, m) == ApplyBlocks(p, start, operations, blocks, n)
  {
    if n < m {
      ApplyingStops(p, start, operations, blocks, n, m - 1);
    }
  }
}
