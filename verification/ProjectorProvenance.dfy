/**
 What one cycle writes down, against any source: only blocks that were read twice around their
 operations, each with exactly the verdicts on its operations.
 */
module ProjectorProvenance {
  import opened Wrappers
  import opened MatchView
  import opened ProjectionTables
  import opened ProjectionChain
  import opened ProjectionRuns
  import opened ProjectorCycle
  import opened ProjectorDecisions

  /** The decisions of all rows, live or not. */
  function DecisionsIn(rows: seq<Row>): (r: seq<Decision>)
    ensures |r| == |rows| && forall i :: 0 <= i < |rows| ==> r[i] == rows[i].decision
  {
    seq(|rows|, i requires 0 <= i < |rows| => rows[i].decision)
  }

  /** The verdicts on the operations of the first `k` blocks, block by block. */
  function VerdictsUpTo(validate: Validator, blocks: seq<Block>, operations: seq<Operation>, k: nat): seq<Decision>
    requires k <= |blocks|
  {
    if k == 0 then []
    else
      VerdictsUpTo(validate, blocks, operations, k - 1)
      + DecisionsOf(validate, blocks[k - 1], OperationsAt(operations, blocks[k - 1].number))
  }

  /** The first `k` blocks and their verdicts were added to the tables, in order, and nothing was removed. */
  predicate Records(validate: Validator, t: Tables, u: Tables, blocks: seq<Block>, operations: seq<Operation>, k: nat) {
    && k <= |blocks| && |u.checkpoints| == |t.checkpoints| + k
    && (forall c :: 0 <= c < |t.checkpoints| ==> u.checkpoints[c].block == t.checkpoints[c].block)
    && (forall i :: 0 <= i < k ==> u.checkpoints[|t.checkpoints| + i].block == blocks[i])
    && DecisionsIn(u.rows) == DecisionsIn(t.rows) + VerdictsUpTo(validate, blocks, operations, k)
  }

  predicate SameRecords(t: Tables, u: Tables) {
    && |u.checkpoints| == |t.checkpoints|
    && (forall c :: 0 <= c < |t.checkpoints| ==> u.checkpoints[c].block == t.checkpoints[c].block)
    && DecisionsIn(u.rows) == DecisionsIn(t.rows)
  }

  lemma RecordsStay(validate: Validator, t: Tables, u: Tables, v: Tables, blocks: seq<Block>,
                    operations: seq<Operation>, k: nat)
    requires Records(validate, t, u, blocks, operations, k) && SameRecords(u, v)
    ensures Records(validate, t, v, blocks, operations, k)
  {
    forall c | 0 <= c < |t.checkpoints| ensures v.checkpoints[c].block == t.checkpoints[c].block {
      assert u.checkpoints[c].block == t.checkpoints[c].block;
    }
    forall i | 0 <= i < k ensures v.checkpoints[|t.checkpoints| + i].block == blocks[i] {
      assert u.checkpoints[|t.checkpoints| + i].block == blocks[i];
    }
  }

  lemma NothingRecorded(validate: Validator, t: Tables, u: Tables, blocks: seq<Block>, operations: seq<Operation>)
    requires SameRecords(t, u)
    ensures Records(validate, t, u, blocks, operations, 0)
  {
    assert DecisionsIn(t.rows) + [] == DecisionsIn(t.rows);
  }

  lemma RevertKeepsRecords(t: Tables, ancestor: nat)
    requires RevertAfter(t, ancestor).Success?
    ensures SameRecords(t, RevertAfter(t, ancestor).value)
  {
  }

  lemma FinalizeKeepsRecords(data: LocalData, t: Tables, number: nat, now: nat)
    requires FinalizeThrough(data, t, number, now).Success?
    ensures SameRecords(t, FinalizeThrough(data, t, number, now).value)
  {
  }

  lemma {:induction false} InsertsAppend(t: Tables, checkpoint: nat, decisions: seq<Decision>)
    requires InsertOperations(t, checkpoint, decisions).Success?
    ensures var u := InsertOperations(t, checkpoint, decisions).value;
            u.checkpoints == t.checkpoints && DecisionsIn(u.rows) == DecisionsIn(t.rows) + decisions
  {
    if decisions != [] {
      var n := |decisions| - 1;
      InsertsAppend(t, checkpoint, decisions[..n]);
      assert decisions == decisions[..n] + [decisions[n]];
    }
  }

  /** An applied block is recorded with exactly its decisions. */
  lemma ApplyRecords(t: Tables, block: Block, decisions: seq<Decision>)
    requires ApplyBlock(t, block, decisions).Success?
    ensures var u := ApplyBlock(t, block, decisions).value;
            && u.checkpoints == t.checkpoints + [Checkpoint(block, Included)]
            && DecisionsIn(u.rows) == DecisionsIn(t.rows) + decisions
  {
    InsertsAppend(t.(checkpoints := t.checkpoints + [Checkpoint(block, Included)]), |t.checkpoints|, decisions);
  }

  lemma {:induction false} ReconcileKeepsRecords(source: Source, t: Tables, cursor: Cursor, applied: nat, height: nat,
                                                 lower: nat, at: nat)
    requires lower <= height
    ensures SameRecords(t, ReconcileFork(source, t, cursor, applied, height, lower, at).tables)
    decreases height
  {
    var stored := CurrentCheckpoint(t.checkpoints, height);
    if height == 0 {
      if RevertAfter(t, 0).Success? {
        RevertKeepsRecords(t, 0);
      }
    } else if source.block(at, height).Success? {
      if stored.Some? && stored.value.block.id == source.block(at, height).value.id {
        if RevertAfter(t, height).Success? {
          RevertKeepsRecords(t, height);
        }
      } else if height > lower {
        ReconcileKeepsRecords(source, t, cursor, applied, height - 1, lower, at + 1);
      }
    }
  }

  /** One more block: recorded with its verdicts, or nothing is. */
  lemma NextRecords(p: Projector, t: Tables, progress: Progress, operations: seq<Operation>, blocks: seq<Block>, k: nat)
    returns (more: nat)
    requires k < |blocks| && Records(p.validate, t, progress.tables, blocks, operations, k)
    ensures k <= more <= k + 1
    ensures var next := ApplyNext(p, progress, operations, blocks[k]);
            && Records(p.validate, t, next.tables, blocks, operations, more)
            && (next.outcome == Success(None) ==> more == k + 1)
  {
    var u, block, at := progress.tables, blocks[k], OperationsAt(operations, blocks[k].number);
    var next := ApplyNext(p, progress, operations, block);
    more := k;
    if Forks(progress.cursor, block) {
      if block.number > 0 {
        ReconcileKeepsRecords(p.source, u, progress.cursor, progress.applied, block.number - 1,
                              LowerBound(block.number - 1, p.maxReorgDepth), progress.count);
        ReconcileEnds(p.source, u, progress.cursor, progress.applied, block.number - 1,
                      LowerBound(block.number - 1, p.maxReorgDepth), progress.count);
        RecordsStay(p.validate, t, u, next.tables, blocks, operations, k);
      }
    } else {
      ValidatesIffForBlock(p.validate, block, at);
      if ForBlock(block, at) && ApplyBlock(u, block, DecisionsOf(p.validate, block, at)).Success? {
        ApplyRecords(u, block, DecisionsOf(p.validate, block, at));
        more := k + 1;
        OneMoreRecorded(p.validate, t, u, next.tables, blocks, operations, k);
      }
    }
  }

  lemma {:induction false} ReconcileEnds(source: Source, t: Tables, cursor: Cursor, applied: nat, height: nat,
                                         lower: nat, at: nat)
    requires lower <= height
    ensures ReconcileFork(source, t, cursor, applied, height, lower, at).outcome != Success(None)
    decreases height
  {
    if height > lower {
      ReconcileEnds(source, t, cursor, applied, height - 1, lower, at + 1);
    }
  }

  lemma OneMoreRecorded(validate: Validator, t: Tables, u: Tables, v: Tables, blocks: seq<Block>,
                        operations: seq<Operation>, k: nat)
    requires k < |blocks| && Records(validate, t, u, blocks, operations, k)
    requires v.checkpoints == u.checkpoints + [Checkpoint(blocks[k], Included)]
    requires DecisionsIn(v.rows)
          == DecisionsIn(u.rows) + DecisionsOf(validate, blocks[k], OperationsAt(operations, blocks[k].number))
    ensures Records(validate, t, v, blocks, operations, k + 1)
  {
    var verdicts := DecisionsOf(validate, blocks[k], OperationsAt(operations, blocks[k].number));
    var earlier := VerdictsUpTo(validate, blocks, operations, k);
    assert VerdictsUpTo(validate, blocks, operations, k + 1) == earlier + verdicts;
    assert DecisionsIn(t.rows) + earlier + verdicts == DecisionsIn(t.rows) + (earlier + verdicts);
  }

  lemma {:induction false} BlocksRecord(p: Projector, start: Progress, operations: seq<Operation>, blocks: seq<Block>,
                                        n: nat)
    returns (k: nat)
    requires n <= |blocks| && start.outcome == Success(None)
    ensures k <= n
    ensures var reached := ApplyBlocks(p, start, operations, blocks, n);
            && Records(p.validate, start.tables, reached.tables, blocks, operations, k)
            && (reached.outcome == Success(None) ==> k == n)
  {
    if n == 0 {
      NothingRecorded(p.validate, start.tables, start.tables, blocks, operations);
      k := 0;
    } else {
      k := BlocksRecord(p, start, operations, blocks, n - 1);
      var earlier := ApplyBlocks(p, start, operations, blocks, n - 1);
      if earlier.outcome == Success(None) {
        k := NextRecords(p, start.tables, earlier, operations, blocks, k);
      }
    }
  }

  /** The source answered with the same linked blocks before and after it answered with the operations. */
  predicate IsReadTwice(source: Source, at: nat, first: nat, blocks: seq<Block>, operations: seq<Operation>) {
    && blocks != [] && IsSnapshot(source, at, first, blocks)
    && source.operations(at + |blocks|, first, first + |blocks| - 1) == Success(operations)
    && DistinctSources(operations) && IsSnapshot(source, at + |blocks| + 1, first, blocks)
  }

  lemma ReadIsReadTwice(source: Source, at: nat, first: nat, last: nat)
    requires 1 <= first <= last && ReadNext(source, at, first, last).answer.Success?
    ensures var next := ReadNext(source, at, first, last).answer.value;
            IsReadTwice(source, at, first, next.blocks, next.operations) && |next.blocks| == last + 1 - first
  {
    var next := ReadNext(source, at, first, last).answer.value;
    NextIsLinked(source, at, first, last);
    NextIff(source, at, first, last, next.blocks, next.operations);
  }

  lemma AdvanceRecords(p: Projector, t: Tables, cursor: Cursor, target: nat, at: nat)
    returns (k: nat, blocks: seq<Block>, operations: seq<Operation>)
    ensures var reached := Advance(p, t, cursor, target, at);
            && Records(p.validate, t, reached.tables, blocks, operations, k)
            && (reached.outcome == Success(None) ==> k == |blocks|)
    ensures k > 0 ==> IsReadTwice(p.source, at, cursor.lastProcessed + 1, blocks, operations)
    ensures cursor.lastProcessed + |blocks| <= Max(cursor.lastProcessed, target)
  {
    var first := cursor.lastProcessed + 1;
    if target >= first && ReadNext(p.source, at, first, target).answer.Success? {
      var next := ReadNext(p.source, at, first, target);
      blocks, operations := next.answer.value.blocks, next.answer.value.operations;
      ReadIsReadTwice(p.source, at, first, target);
      k := BlocksRecord(p, Progress(t, cursor, 0, next.count, Success(None)), operations, blocks, |blocks|);
    } else {
      k, blocks, operations := 0, [], [];
      NothingRecorded(p.validate, t, t, blocks, operations);
    }
  }

  lemma ConcludeKeepsRecords(data: LocalData, p: Projector, progress: Progress, lib: Lib, head: nat, now: nat)
    ensures SameRecords(progress.tables, Conclude(data, p, progress, lib, head, now).tables)
  {
    var finalizable := Min(lib.number, progress.cursor.lastProcessed);
    if FinalizeThrough(data, progress.tables, finalizable, now).Success? {
      FinalizeKeepsRecords(data, progress.tables, finalizable, now);
    }
  }

  lemma TipKeepsRecords(p: Projector, t: Tables, cursor: Cursor, at: nat)
    ensures SameRecords(t, VerifyTip(p, t, cursor, at).tables)
  {
    if cursor.lastProcessed > 0 {
      ReconcileKeepsRecords(p.source, t, cursor, 0, cursor.lastProcessed,
                            LowerBound(cursor.lastProcessed, p.maxReorgDepth), at + 1);
    }
  }

  lemma TipStays(p: Projector, t: Tables, cursor: Cursor, at: nat)
    ensures VerifyTip(p, t, cursor, at).outcome == Success(None) ==> VerifyTip(p, t, cursor, at).tables == t
  {
    if cursor.lastProcessed > 0 {
      ReconcileEnds(p.source, t, cursor, 0, cursor.lastProcessed,
                    LowerBound(cursor.lastProcessed, p.maxReorgDepth), at + 1);
    }
  }

  lemma FinishRecords(data: LocalData, p: Projector, t: Tables, advanced: Progress, lib: Lib, head: nat, now: nat,
                      k: nat, blocks: seq<Block>, operations: seq<Operation>)
    requires Records(p.validate, t, advanced.tables, blocks, operations, k)
    ensures Records(p.validate, t, Finish(data, p, advanced, lib, head, now).tables, blocks, operations, k)
  {
    if advanced.outcome == Success(None) {
      ConcludeKeepsRecords(data, p, advanced, lib, head, now);
      RecordsStay(p.validate, t, advanced.tables, Conclude(data, p, advanced, lib, head, now).tables, blocks,
                  operations, k);
    }
  }

  lemma ExtendRecords(data: LocalData, p: Projector, t: Tables, cursor: Cursor, lib: Lib, head: nat, now: nat, at: nat)
    returns (k: nat, blocks: seq<Block>, operations: seq<Operation>)
    requires head >= cursor.lastProcessed
    ensures Records(p.validate, t, Extend(data, p, t, cursor, lib, head, now, at).tables, blocks, operations, k)
    ensures k > 0 ==> IsReadTwice(p.source, at, cursor.lastProcessed + 1, blocks, operations)
    ensures |blocks| <= p.maxBlocksPerRun && cursor.lastProcessed + |blocks| <= head
  {
    var target := Min(head, cursor.lastProcessed + p.maxBlocksPerRun);
    k, blocks, operations := AdvanceRecords(p, t, cursor, target, at);
    FinishRecords(data, p, t, Advance(p, t, cursor, target, at), lib, head, now, k, blocks, operations);
  }

  /** A cycle extends the chain from where its reads of head and tip end, or records nothing. */
  lemma CycleExtends(data: LocalData, p: Projector, t: Tables, now: nat, at: nat)
    ensures var cursor, head, lib, after := GetCursor(t), p.source.head(at), p.source.lib(at + 1),
                                            Cycle(data, p, t, now, at).tables;
            || SameRecords(t, after)
            || (&& head.Success? && lib.Success? && head.value >= cursor.lastProcessed
                && after == Extend(data, p, t, cursor, lib.value, head.value, now,
                                   VerifyTip(p, t, cursor, at + 2).count).tables)
  {
    TipKeepsRecords(p, t, GetCursor(t), at + 2);
    TipStays(p, t, GetCursor(t), at + 2);
  }

  /**
   One whole cycle against any source and any store, whether it succeeds or fails: what it adds are the next
   blocks the source answered with twice, at most as many as a cycle may apply, each with exactly the verdicts
   on its operations; nothing else is added and nothing is removed.
   */
  lemma CycleRecordsVerdicts(data: LocalData, p: Projector, t: Tables, now: nat, at: nat)
    returns (k: nat, blocks: seq<Block>, operations: seq<Operation>, from: nat)
    ensures Records(p.validate, t, Cycle(data, p, t, now, at).tables, blocks, operations, k)
    ensures k > 0 ==> IsReadTwice(p.source, from, t.lastProcessed + 1, blocks, operations)
    ensures |blocks| <= p.maxBlocksPerRun
  {
    var cursor := GetCursor(t);
    CycleExtends(data, p, t, now, at);
    if SameRecords(t, Cycle(data, p, t, now, at).tables) {
      k, blocks, operations, from := 0, [], [], at;
      NothingRecorded(p.validate, t, Cycle(data, p, t, now, at).tables, blocks, operations);
    } else {
      from := VerifyTip(p, t, cursor, at + 2).count;
      k, blocks, operations := ExtendRecords(data, p, t, cursor, p.source.lib(at + 1).value, p.source.head(at).value,
                                             now, from);
    }
  }

  /** A source that cannot be read, or whose head is behind the cursor, leaves everything as it is. */
  lemma SourceIsWaitedFor(data: LocalData, p: Projector, t: Tables, now: nat, at: nat)
    requires var head := p.source.head(at);
             head.Failure? || p.source.lib(at + 1).Failure? || head.value < t.lastProcessed
    ensures var c, head, lib := Cycle(data, p, t, now, at), p.source.head(at), p.source.lib(at + 1);
            && c.tables == t
            && c.result == (if head.Failure? then Failure(head.error)
                            else if lib.Failure? then Failure(lib.error)
                            else Success(RunResult(0, t.lastIrreversible, None, head.value)))
  {
  }
}
