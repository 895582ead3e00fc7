/**
 What every cycle keeps, whatever the source answers: its effect on the store is a permitted run of
 store transactions, so every theorem about runs of the store holds for runs of cycles, and what a
 cycle reports is what it did.
 */
module ProjectorSafety {
  import opened Wrappers
  import opened MatchView
  import opened ProjectionTables
  import opened ProjectionChain
  import opened ProjectionRuns
  import opened ProjectionTheorems
  import opened ProjectorCycle

  /** Every event the validator accepts uses only a batch id that is its own. */
  ghost predicate OwnsBatches(validate: Validator, owner: string -> string) {
    forall operation: Operation, block: Block ::
      validate(operation, block).Some? ==> Owned(owner, Decision(operation, validate(operation, block).value))
  }

  // ---- A cycle is a run of transactions -----------------------------------------------------------

  predicate NextPermitted(data: LocalData, owner: string -> string, steps: seq<Step>, step: Step) {
    match step
    case Apply(_, decisions) => AllOwned(owner, decisions)
    case Revert(ancestor) => ancestor <= Run(data, steps).lastProcessed
    case Finalize(_, now) => now !in Instants(steps)
  }

  /** `Permitted`, one step at a time. */
  predicate StepByStep(data: LocalData, owner: string -> string, steps: seq<Step>) {
    steps != [] ==>
      var n := |steps| - 1;
      StepByStep(data, owner, steps[..n]) && NextPermitted(data, owner, steps[..n], steps[n])
  }

  lemma {:induction false} StepByStepIsPermitted(data: LocalData, owner: string -> string, steps: seq<Step>)
    requires StepByStep(data, owner, steps)
    ensures Permitted(data, owner, steps)
  {
    if steps != [] {
      var n := |steps| - 1;
      StepByStepIsPermitted(data, owner, steps[..n]);
      forall k | 0 <= k < |steps| ensures PermittedAt(data, owner, steps, k) {
        assert steps[..n][..if k < n then k else n] == steps[..k];
        assert k < n ==> PermittedAt(data, owner, steps[..n], k);
        if k == n && steps[n].Finalize? {
          FreshReplaysNothing(data, steps[..n], steps[n].number, steps[n].now);
        }
      }
    }
  }

  lemma InstantsGrow(steps: seq<Step>, step: Step)
    ensures Instants(steps + [step]) == Instants(steps) + (if step.Finalize? then {step.now} else {})
  {
    var longer := steps + [step];
    forall x | x in Instants(longer) ensures x in Instants(steps) + (if step.Finalize? then {step.now} else {}) {
      var k :| 0 <= k < |longer| && longer[k].Finalize? && longer[k].now == x;
      assert k < |steps| ==> steps[k] == longer[k];
    }
    forall x | x in Instants(steps) ensures x in Instants(longer) {
      var k :| 0 <= k < |steps| && steps[k].Finalize? && steps[k].now == x;
      assert longer[k] == steps[k];
    }
    if step.Finalize? {
      assert longer[|steps|].now in Instants(longer);
    }
  }

  lemma RunGrows(data: LocalData, steps: seq<Step>, step: Step)
    ensures Run(data, steps + [step]) == Do(data, Run(data, steps), step)
  {
    assert (steps + [step])[..|steps|] == steps;
  }

  lemma AppendStep(data: LocalData, owner: string -> string, steps: seq<Step>, step: Step)
    requires StepByStep(data, owner, steps) && NextPermitted(data, owner, steps, step)
    ensures StepByStep(data, owner, steps + [step])
  {
    assert (steps + [step])[..|steps|] == steps;
  }

  /** `steps` is a permitted run that ends in the tables `t` and uses only instants of `used`. */
  predicate Reaches(data: LocalData, owner: string -> string, steps: seq<Step>, t: Tables, used: set<nat>) {
    StepByStep(data, owner, steps) && Run(data, steps) == t && Instants(steps) <= used
  }

  /** One permitted transaction more. */
  lemma ReachNext(data: LocalData, owner: string -> string, steps: seq<Step>, t: Tables, used: set<nat>, step: Step,
                  more: set<nat>)
    requires Reaches(data, owner, steps, t, used) && used <= more
    requires match step
             case Apply(_, decisions) => AllOwned(owner, decisions)
             case Revert(ancestor) => ancestor <= t.lastProcessed
             case Finalize(_, now) => now !in used && now in more
    ensures Reaches(data, owner, steps + [step], Do(data, t, step), more)
  {
    AppendStep(data, owner, steps, step);
    RunGrows(data, steps, step);
    InstantsGrow(steps, step);
  }

  lemma ReconcileIsRun(data: LocalData, owner: string -> string, source: Source, prior: seq<Step>, t: Tables,
                       used: set<nat>, cursor: Cursor, applied: nat, height: nat, lower: nat, at: nat)
    returns (steps: seq<Step>)
    requires Reaches(data, owner, prior, t, used)
    requires lower <= height <= t.lastProcessed
    ensures prior <= steps
    ensures Reaches(data, owner, steps, ReconcileFork(source, t, cursor, applied, height, lower, at).tables, used)
    decreases height
  {
    var after := ReconcileFork(source, t, cursor, applied, height, lower, at);
    if height > 0 && lower < height && after == ReconcileFork(source, t, cursor, applied, height - 1, lower, at + 1) {
      steps := ReconcileIsRun(data, owner, source, prior, t, used, cursor, applied, height - 1, lower, at + 1);
    } else if after.outcome.Success? {
      ReachNext(data, owner, prior, t, used, Revert(height), used);
      steps := prior + [Revert(height)];
    } else {
      steps := prior;
    }
  }

  lemma {:induction false} DecisionsOwned(validate: Validator, owner: string -> string, block: Block,
                                          operations: seq<Operation>)
    requires OwnsBatches(validate, owner)
    requires ValidateOperations(validate, block, operations).Success?
    ensures AllOwned(owner, ValidateOperations(validate, block, operations).value)
  {
    if operations != [] {
      DecisionsOwned(validate, owner, block, operations[..|operations| - 1]);
    }
  }

  /** The cycle's own cursor is the cursor of the store. */
  predicate InStep(progress: Progress) {
    && progress.cursor.lastProcessed == progress.tables.lastProcessed
    && progress.cursor.lastIrreversible == progress.tables.lastIrreversible
  }

  lemma InsertKeepsMarks(t: Tables, checkpoint: nat, decisions: seq<Decision>)
    requires InsertOperations(t, checkpoint, decisions).Success?
    ensures InsertOperations(t, checkpoint, decisions).value.lastIrreversible == t.lastIrreversible
  {
    InsertAllEvolves(t, checkpoint, decisions);
  }

  lemma ApplyMarks(t: Tables, block: Block, decisions: seq<Decision>)
    requires ApplyBlock(t, block, decisions).Success?
    ensures ApplyBlock(t, block, decisions).value.lastProcessed == block.number
    ensures ApplyBlock(t, block, decisions).value.lastIrreversible == t.lastIrreversible
  {
    InsertKeepsMarks(t.(checkpoints := t.checkpoints + [Checkpoint(block, Included)]), |t.checkpoints|, decisions);
  }

  /** While the blocks are being applied, the cursor stands at the last of them. */
  lemma {:induction false} ApplyBlocksInStep(p: Projector, start: Progress, operations: seq<Operation>,
                                             blocks: seq<Block>, n: nat)
    requires InStep(start) && start.outcome == Success(None)
    requires n <= |blocks| && Consecutive(blocks, start.cursor.lastProcessed + 1)
    ensures var after := ApplyBlocks(p, start, operations, blocks, n);
            after.outcome == Success(None) ==>
              && InStep(after) && after.applied == start.applied + n
              && after.cursor.lastProcessed == start.cursor.lastProcessed + n
              && after.cursor.lastIrreversible == start.cursor.lastIrreversible
              && (n > 0 ==> after.cursor.lastId == Some(blocks[n - 1].id))
  {
    if n > 0 {
      ApplyBlocksInStep(p, start, operations, blocks, n - 1);
      ApplyNextInStep(p, ApplyBlocks(p, start, operations, blocks, n - 1), operations, blocks[n - 1]);
    }
  }

  lemma ApplyNextInStep(p: Projector, progress: Progress, operations: seq<Operation>, block: Block)
    ensures var after := ApplyNext(p, progress, operations, block);
            InStep(progress) && after.outcome == Success(None) ==>
              && InStep(after) && after.applied == progress.applied + 1
              && after.cursor == Cursor(block.number, Some(block.id), progress.cursor.lastIrreversible)
  {
    if Forks(progress.cursor, block) {
      if block.number > 0 {
        ReconcileEnds(p.source, progress.tables, progress.cursor, progress.applied, block.number - 1,
                      LowerBound(block.number - 1, p.maxReorgDepth), progress.count);
      }
    } else {
      var decisions := ValidateOperations(p.validate, block, OperationsAt(operations, block.number));
      if decisions.Success? && ApplyBlock(progress.tables, block, decisions.value).Success? {
        ApplyMarks(progress.tables, block, decisions.value);
      }
    }
  }

  /** Reconciling always ends the cycle: with a rollback or with an error. */
  lemma ReconcileEnds(source: Source, t: Tables, cursor: Cursor, applied: nat, height: nat, lower: nat, at: nat)
    requires lower <= height
    ensures ReconcileFork(source, t, cursor, applied, height, lower, at).outcome != Success(None)
    decreases height
  {
    if height > 0 && lower < height {
      ReconcileEnds(source, t, cursor, applied, height - 1, lower, at + 1);
    }
  }

  lemma {:induction false} ApplyBlocksIsRun(data: LocalData, owner: string -> string, p: Projector, prior: seq<Step>,
                                            used: set<nat>, start: Progress, operations: seq<Operation>,
                                            blocks: seq<Block>, n: nat)
    returns (steps: seq<Step>)
    requires OwnsBatches(p.validate, owner)
    requires Reaches(data, owner, prior, start.tables, used)
    requires InStep(start) && start.outcome == Success(None)
    requires n <= |blocks| && Consecutive(blocks, start.cursor.lastProcessed + 1)
    ensures prior <= steps
    ensures Reaches(data, owner, steps, ApplyBlocks(p, start, operations, blocks, n).tables, used)
  {
    if n == 0 {
      steps := prior;
    } else {
      var middle := ApplyBlocksIsRun(data, owner, p, prior, used, start, operations, blocks, n - 1);
      ApplyBlocksInStep(p, start, operations, blocks, n - 1);
      var earlier := ApplyBlocks(p, start, operations, blocks, n - 1);
      if earlier.outcome == Success(None) {
        steps := ApplyNextIsRun(data, owner, p, middle, used, earlier, operations, blocks[n - 1]);
        PrefixTransitive(prior, middle, steps);
      } else {
        steps := middle;
      }
    }
  }

  lemma ApplyNextIsRun(data: LocalData, owner: string -> string, p: Projector, prior: seq<Step>, used: set<nat>,
                       progress: Progress, operations: seq<Operation>, block: Block)
    returns (steps: seq<Step>)
    requires OwnsBatches(p.validate, owner)
    requires Reaches(data, owner, prior, progress.tables, used)
    requires InStep(progress) && block.number == progress.cursor.lastProcessed + 1
    ensures prior <= steps
    ensures Reaches(data, owner, steps, ApplyNext(p, progress, operations, block).tables, used)
  {
    steps := prior;
    if Forks(progress.cursor, block) {
      steps := ReconcileIsRun(data, owner, p.source, prior, progress.tables, used, progress.cursor, progress.applied,
                              block.number - 1, LowerBound(block.number - 1, p.maxReorgDepth), progress.count);
    } else {
      var decisions := ValidateOperations(p.validate, block, OperationsAt(operations, block.number));
      if decisions.Success? {
        DecisionsOwned(p.validate, owner, block, OperationsAt(operations, block.number));
        ReachNext(data, owner, prior, progress.tables, used, Apply(block, decisions.value), used);
        steps := prior + [Apply(block, decisions.value)];
      }
    }
  }

  lemma AdvanceIsRun(data: LocalData, owner: string -> string, p: Projector, prior: seq<Step>, used: set<nat>,
                     t: Tables, cursor: Cursor, target: nat, at: nat)
    returns (steps: seq<Step>)
    requires OwnsBatches(p.validate, owner)
    requires Reaches(data, owner, prior, t, used)
    requires InStep(Progress(t, cursor, 0, at, Success(None)))
    ensures prior <= steps
    ensures Reaches(data, owner, steps, Advance(p, t, cursor, target, at).tables, used)
    ensures var after := Advance(p, t, cursor, target, at);
            after.outcome == Success(None) ==> InStep(after)
  {
    steps := prior;
    if target > cursor.lastProcessed {
      var next := ReadNext(p.source, at, cursor.lastProcessed + 1, target);
      if next.answer.Success? {
        NextIsLinked(p.source, at, cursor.lastProcessed + 1, target);
        var start, blocks := Progress(t, cursor, 0, next.count, Success(None)), next.answer.value.blocks;
        ApplyBlocksInStep(p, start, next.answer.value.operations, blocks, |blocks|);
        steps := ApplyBlocksIsRun(data, owner, p, prior, used, start, next.answer.value.operations, blocks, |blocks|);
      }
    }
  }

  lemma ConcludeIsRun(data: LocalData, owner: string -> string, p: Projector, prior: seq<Step>, used: set<nat>,
                      progress: Progress, lib: Lib, head: nat, now: nat)
    returns (steps: seq<Step>)
    requires Reaches(data, owner, prior, progress.tables, used) && now !in used
    ensures prior <= steps
    ensures Reaches(data, owner, steps, Conclude(data, p, progress, lib, head, now).tables, used + {now})
  {
    var finalizable := Min(lib.number, progress.cursor.lastProcessed);
    if Conclude(data, p, progress, lib, head, now).tables == progress.tables {
      steps := prior;
    } else {
      ReachNext(data, owner, prior, progress.tables, used, Finalize(finalizable, now), used + {now});
      steps := prior + [Finalize(finalizable, now)];
    }
  }

  lemma PrefixTransitive(a: seq<Step>, b: seq<Step>, c: seq<Step>)
    requires a <= b <= c
    ensures a <= c
  {
  }

  lemma ExtendIsRun(data: LocalData, owner: string -> string, p: Projector, prior: seq<Step>, used: set<nat>,
                    t: Tables, cursor: Cursor, lib: Lib, head: nat, now: nat, at: nat)
    returns (steps: seq<Step>)
    requires OwnsBatches(p.validate, owner)
    requires Reaches(data, owner, prior, t, used) && now !in used
    requires InStep(Progress(t, cursor, 0, at, Success(None)))
    ensures prior <= steps
    ensures Reaches(data, owner, steps, Extend(data, p, t, cursor, lib, head, now, at).tables, used + {now})
  {
    var target := Min(head, cursor.lastProcessed + p.maxBlocksPerRun);
    var middle := AdvanceIsRun(data, owner, p, prior, used, t, cursor, target, at);
    steps := FinishIsRun(data, owner, p, middle, used, Advance(p, t, cursor, target, at), lib, head, now);
    PrefixTransitive(prior, middle, steps);
  }

  lemma FinishIsRun(data: LocalData, owner: string -> string, p: Projector, prior: seq<Step>, used: set<nat>,
                    advanced: Progress, lib: Lib, head: nat, now: nat)
    returns (steps: seq<Step>)
    requires Reaches(data, owner, prior, advanced.tables, used) && now !in used
    ensures prior <= steps
    ensures Reaches(data, owner, steps, Finish(data, p, advanced, lib, head, now).tables, used + {now})
  {
    if advanced.outcome == Success(None) {
      steps := ConcludeIsRun(data, owner, p, prior, used, advanced, lib, head, now);
    } else {
      steps := prior;
      MoreInstants(data, owner, steps, advanced.tables, used, now);
    }
  }

  lemma VerifyTipIsRun(data: LocalData, owner: string -> string, p: Projector, prior: seq<Step>, used: set<nat>,
                       t: Tables, at: nat)
    returns (steps: seq<Step>)
    requires Reaches(data, owner, prior, t, used)
    ensures prior <= steps
    ensures Reaches(data, owner, steps, VerifyTip(p, t, GetCursor(t), at).tables, used)
  {
    steps := prior;
    if VerifyTip(p, t, GetCursor(t), at).tables != t {
      steps := ReconcileIsRun(data, owner, p.source, prior, t, used, GetCursor(t), 0, t.lastProcessed,
                              LowerBound(t.lastProcessed, p.maxReorgDepth), at + 1);
    }
  }

  lemma MoreInstants(data: LocalData, owner: string -> string, steps: seq<Step>, t: Tables, used: set<nat>, now: nat)
    requires Reaches(data, owner, steps, t, used)
    ensures Reaches(data, owner, steps, t, used + {now})
  {
  }

  /**
   Whatever the source answers, a cycle continues a permitted run of the store by a permitted run:
   it never reverts above the cursor and finalises at its own instant only.
   */
  lemma CycleIsRun(data: LocalData, owner: string -> string, p: Projector, prior: seq<Step>, used: set<nat>,
                   t: Tables, now: nat, at: nat)
    returns (steps: seq<Step>)
    requires OwnsBatches(p.validate, owner)
    requires Reaches(data, owner, prior, t, used) && now !in used
    ensures prior <= steps
    ensures Reaches(data, owner, steps, Cycle(data, p, t, now, at).tables, used + {now})
  {
    var cursor := GetCursor(t);
    var head, lib := p.source.head(at), p.source.lib(at + 1);
    if head.Success? && lib.Success? && head.value >= cursor.lastProcessed {
      var tip := VerifyTip(p, t, cursor, at + 2);
      if tip.outcome == Success(None) {
        TipUnchanged(p, t, cursor, at + 2);
        steps := ExtendIsRun(data, owner, p, prior, used, t, cursor, lib.value, head.value, now, tip.count);
      } else {
        steps := VerifyTipIsRun(data, owner, p, prior, used, t, at + 2);
        MoreInstants(data, owner, steps, tip.tables, used, now);
      }
    } else {
      steps := prior;
      MoreInstants(data, owner, steps, t, used, now);
    }
  }

  lemma TipUnchanged(p: Projector, t: Tables, cursor: Cursor, at: nat)
    requires VerifyTip(p, t, cursor, at).outcome == Success(None)
    ensures VerifyTip(p, t, cursor, at).tables == t
  {
    ReconcileEnds(p.source, t, cursor, 0, cursor.lastProcessed, LowerBound(cursor.lastProcessed, p.maxReorgDepth),
                  at + 1);
  }

  /** A cycle whose tip is on the source's chain goes on from the unchanged store. */
  lemma CycleExtends(data: LocalData, p: Projector, t: Tables, now: nat, at: nat, head: nat, lib: Lib)
    requires p.source.head(at) == Success(head) && p.source.lib(at + 1) == Success(lib)
    requires head >= GetCursor(t).lastProcessed && VerifyTip(p, t, GetCursor(t), at + 2).outcome == Success(None)
    ensures VerifyTip(p, t, GetCursor(t), at + 2).tables == t
    ensures Cycle(data, p, t, now, at)
         == Extend(data, p, t, GetCursor(t), lib, head, now, VerifyTip(p, t, GetCursor(t), at + 2).count)
  {
    TipUnchanged(p, t, GetCursor(t), at + 2);
  }

  // ---- What a cycle reports -----------------------------------------------------------------------

  /** A rollback that happened went to a height between the irreversible height and where it started. */
  lemma ReconcileReverts(source: Source, t: Tables, cursor: Cursor, applied: nat, height: nat, lower: nat, at: nat)
    requires lower <= height && cursor.lastIrreversible == t.lastIrreversible
    requires ReconcileFork(source, t, cursor, applied, height, lower, at).outcome.Success?
    ensures var after := ReconcileFork(source, t, cursor, applied, height, lower, at);
            && after.cursor == cursor && after.applied == applied
            && after.outcome.value.Some? && RevertedTo(t, after.tables, after.outcome.value.value)
            && lower <= after.outcome.value.value <= height
    decreases height
  {
    if height > 0 && lower < height
       && ReconcileFork(source, t, cursor, applied, height, lower, at)
          == ReconcileFork(source, t, cursor, applied, height - 1, lower, at + 1) {
      ReconcileReverts(source, t, cursor, applied, height - 1, lower, at + 1);
    }
  }

  predicate RevertedTo(t: Tables, after: Tables, ancestor: nat) {
    t.lastIrreversible <= ancestor && RevertAfter(t, ancestor) == Success(after)
  }

  /** Within one linked snapshot only the first block can fork off the cursor. */
  lemma {:induction false} ForkIsFirst(p: Projector, start: Progress, operations: seq<Operation>, blocks: seq<Block>,
                                       n: nat)
    requires InStep(start) && start.outcome == Success(None) && start.applied == 0
    requires n <= |blocks| && Consecutive(blocks, start.cursor.lastProcessed + 1)
    requires ApplyBlocks(p, start, operations, blocks, n).outcome.Success?
    ensures var after := ApplyBlocks(p, start, operations, blocks, n);
            after.outcome.value.Some? ==>
              && after.applied == 0 && after.cursor == start.cursor
              && RevertedTo(start.tables, after.tables, after.outcome.value.value)
              && after.outcome.value.value <= start.cursor.lastProcessed
  {
    if n > 0 {
      ForkIsFirst(p, start, operations, blocks, n - 1);
      ApplyBlocksInStep(p, start, operations, blocks, n - 1);
      var earlier := ApplyBlocks(p, start, operations, blocks, n - 1);
      if earlier.outcome == Success(None) {
        if n > 1 {
          assert BlockLinks(blocks, n - 1);
          assert !Forks(earlier.cursor, blocks[n - 1]);
        } else if Forks(start.cursor, blocks[0]) {
          ReconcileReverts(p.source, start.tables, start.cursor, 0, blocks[0].number - 1,
                           LowerBound(blocks[0].number - 1, p.maxReorgDepth), start.count);
        }
      }
    }
  }

  /** What the report of a cycle says about the tables it leaves behind. */
  predicate ReportIsTrue(p: Projector, t: Tables, c: Outcome) {
    c.result.Success? ==>
      var report := c.result.value;
      && report.finalizedThrough == c.tables.lastIrreversible
      && report.appliedBlocks <= p.maxBlocksPerRun
      && (report.revertedTo.Some? ==>
            && report.appliedBlocks == 0
            && report.revertedTo.value <= t.lastProcessed
            && RevertedTo(t, c.tables, report.revertedTo.value))
      && (report.revertedTo.None? ==> c.tables.lastProcessed == t.lastProcessed + report.appliedBlocks)
  }

  lemma AdvanceReports(p: Projector, t: Tables, cursor: Cursor, target: nat, at: nat)
    requires InStep(Progress(t, cursor, 0, at, Success(None)))
    requires cursor.lastProcessed <= target <= cursor.lastProcessed + p.maxBlocksPerRun
    requires Advance(p, t, cursor, target, at).outcome.Success?
    ensures var after := Advance(p, t, cursor, target, at);
            && after.cursor.lastIrreversible == cursor.lastIrreversible
            && (after.outcome.value.Some? ==>
                  && after.applied == 0 && after.cursor == cursor
                  && after.outcome.value.value <= t.lastProcessed
                  && RevertedTo(t, after.tables, after.outcome.value.value))
            && (after.outcome.value.None? ==>
                  InStep(after) && after.applied == target - cursor.lastProcessed
                  && after.cursor.lastProcessed == target)
  {
    if target > cursor.lastProcessed {
      NextIsLinked(p.source, at, cursor.lastProcessed + 1, target);
      var next := ReadNext(p.source, at, cursor.lastProcessed + 1, target);
      var start, blocks := Progress(t, cursor, 0, next.count, Success(None)), next.answer.value.blocks;
      ApplyBlocksInStep(p, start, next.answer.value.operations, blocks, |blocks|);
      ForkIsFirst(p, start, next.answer.value.operations, blocks, |blocks|);
    }
  }

  lemma ExtendReports(data: LocalData, p: Projector, t: Tables, cursor: Cursor, lib: Lib, head: nat, now: nat, at: nat)
    requires InStep(Progress(t, cursor, 0, at, Success(None))) && cursor.lastProcessed <= head
    ensures ReportIsTrue(p, t, Extend(data, p, t, cursor, lib, head, now, at))
  {
    var target := Min(head, cursor.lastProcessed + p.maxBlocksPerRun);
    var advanced := Advance(p, t, cursor, target, at);
    if advanced.outcome.Success? {
      AdvanceReports(p, t, cursor, target, at);
      if advanced.outcome.value.None? {
        ConcludeReports(data, p, advanced, lib, head, now);
      }
    }
  }

  lemma ConcludeReports(data: LocalData, p: Projector, progress: Progress, lib: Lib, head: nat, now: nat)
    requires InStep(progress)
    ensures var c := Conclude(data, p, progress, lib, head, now);
            c.result.Success? ==>
              && c.result.value.appliedBlocks == progress.applied && c.result.value.revertedTo.None?
              && c.result.value.finalizedThrough == c.tables.lastIrreversible
              && c.tables.lastProcessed == progress.tables.lastProcessed
  {
  }

  /**
   The report of a cycle is true: a cycle that reports a rollback has applied no block and did
   nothing but that rollback, at or above the irreversible height; any other cycle moved the cursor
   by the blocks it reports; and the finalised height it reports is the store's.
   */
  lemma CycleReports(data: LocalData, p: Projector, t: Tables, now: nat, at: nat)
    ensures ReportIsTrue(p, t, Cycle(data, p, t, now, at))
  {
    var cursor := GetCursor(t);
    var head, lib := p.source.head(at), p.source.lib(at + 1);
    if head.Success? && lib.Success? && head.value >= cursor.lastProcessed {
      var tip := VerifyTip(p, t, cursor, at + 2);
      if tip.outcome == Success(None) {
        ExtendReports(data, p, t, cursor, lib.value, head.value, now, tip.count);
        TipUnchanged(p, t, cursor, at + 2);
      } else if tip.outcome.Success? {
        ReconcileReverts(p.source, t, cursor, 0, cursor.lastProcessed,
                         LowerBound(cursor.lastProcessed, p.maxReorgDepth), at + 3);
      }
    }
  }

  // ---- Runs of cycles -----------------------------------------------------------------------------

  /** Where a run of cycles stands: the store, and how many reads the source has answered. */
  datatype Point = Point(tables: Tables, count: nat)

  function After(data: LocalData, p: Projector, start: Point, instants: seq<nat>): Point {
    if instants == [] then start
    else
      var n := |instants| - 1;
      var earlier := After(data, p, start, instants[..n]);
      var cycle := Cycle(data, p, earlier.tables, instants[n], earlier.count);
      Point(cycle.tables, cycle.count)
  }

  predicate DistinctInstants(instants: seq<nat>) {
    forall i, j :: 0 <= i < j < |instants| ==> instants[i] != instants[j]
  }

  function Used(instants: seq<nat>): set<nat> {
    set k | 0 <= k < |instants| :: instants[k]
  }

  const FRESH := Point(EMPTY_TABLES, 0)

  lemma OneMoreCycle(data: LocalData, owner: string -> string, p: Projector, instants: seq<nat>, prior: seq<Step>)
    returns (steps: seq<Step>)
    requires OwnsBatches(p.validate, owner) && DistinctInstants(instants) && instants != []
    requires Reaches(data, owner, prior, After(data, p, FRESH, instants[..|instants| - 1]).tables,
                     Used(instants[..|instants| - 1]))
    ensures prior <= steps
    ensures Reaches(data, owner, steps, After(data, p, FRESH, instants).tables, Used(instants))
  {
    var n := |instants| - 1;
    var point, used := After(data, p, FRESH, instants[..n]), Used(instants[..n]);
    steps := CycleIsRun(data, owner, p, prior, used, point.tables, instants[n], point.count);
    assert used + {instants[n]} == Used(instants);
  }

  lemma {:induction false} CyclesAreRun(data: LocalData, owner: string -> string, p: Projector, instants: seq<nat>)
    returns (steps: seq<Step>)
    requires OwnsBatches(p.validate, owner) && DistinctInstants(instants)
    ensures Reaches(data, owner, steps, After(data, p, FRESH, instants).tables, Used(instants))
  {
    if instants == [] {
      steps := [];
    } else {
      var prior := CyclesAreRun(data, owner, p, instants[..|instants| - 1]);
      steps := OneMoreCycle(data, owner, p, instants, prior);
    }
  }

  lemma {:induction false} LaterCyclesProlong(data: LocalData, owner: string -> string, p: Projector,
                                              instants: seq<nat>, k: nat, earlier: seq<Step>)
    returns (steps: seq<Step>)
    requires OwnsBatches(p.validate, owner) && DistinctInstants(instants) && k <= |instants|
    requires Reaches(data, owner, earlier, After(data, p, FRESH, instants[..k]).tables, Used(instants[..k]))
    ensures earlier <= steps
    ensures Reaches(data, owner, steps, After(data, p, FRESH, instants).tables, Used(instants))
  {
    if k == |instants| {
      assert instants[..k] == instants;
      steps := earlier;
    } else {
      var n := |instants| - 1;
      assert instants[..n][..k] == instants[..k];
      var middle := LaterCyclesProlong(data, owner, p, instants[..n], k, earlier);
      steps := OneMoreCycle(data, owner, p, instants, middle);
      PrefixTransitive(earlier, middle, steps);
    }
  }

  /**
   Safety of whole runs of cycles against any source: the store holds one linked chain, its view is
   the fold of the irreversible operations, every result has a linear history, and every event that a
   live operation publishes is bound to the earliest of them.
   */
  lemma CyclesAreSafe(data: LocalData, owner: string -> string, p: Projector, instants: seq<nat>)
    requires OwnsBatches(p.validate, owner) && DistinctInstants(instants)
    ensures var t := After(data, p, FRESH, instants).tables;
            && OneChain(t)
            && t.view == FoldOf(data, IrreversibleDecisions(t.rows))
            && (forall round :: round in t.view.results ==> exists path :: IsHistory(t.view, round, path))
            && (forall r, event :: 0 <= r < |t.rows| && LiveCarrier(t.rows[r], event) ==> BoundToEarliest(t, event))
  {
    var steps := CyclesAreRun(data, owner, p, instants);
    StepByStepIsPermitted(data, owner, steps);
    RunIsOneChain(data, owner, steps);
    ViewIsFold(data, owner, steps);
    RunHistoryIsLinear(data, owner, steps);
    var t := Run(data, steps);
    forall r, event | 0 <= r < |t.rows| && LiveCarrier(t.rows[r], event) ensures BoundToEarliest(t, event) {
      RunBindsEarliest(data, owner, steps, event, r);
    }
  }

  /** Between any two cycles no evidence is lost and what was irreversible is unchanged. */
  lemma CyclesKeepEvidence(data: LocalData, owner: string -> string, p: Projector, instants: seq<nat>, k: nat)
    requires OwnsBatches(p.validate, owner) && DistinctInstants(instants) && k <= |instants|
    ensures Evolves(After(data, p, FRESH, instants[..k]).tables, After(data, p, FRESH, instants).tables)
  {
    var earlier := CyclesAreRun(data, owner, p, instants[..k]);
    var steps := LaterCyclesProlong(data, owner, p, instants, k, earlier);
    StepByStepIsPermitted(data, owner, steps);
    assert steps[..|earlier|] == earlier;
    var before, after := RunEvolves(data, owner, steps, |earlier|);
  }
}
