/**
 The limit of convergence: a block id is unique among all checkpoints ever recorded, reverted ones
 included, so a branch that was rolled back and becomes the source's chain again is refused forever.
 */
module ProjectorReturn {
  import opened Wrappers
  import opened MatchView
  import opened ProjectionTables
  import opened ProjectionChain
  import opened ProjectionRuns
  import opened ProjectorCycle
  import opened ProjectorDecisions
  import opened ProjectorSafety
  import opened ProjectorConvergence

  /** A fitting block on top of the chain is applied exactly when its id was never recorded before. */
  lemma FitsIffNew(t: Tables, before: seq<Entry>, block: Block, decisions: seq<Decision>, owner: string -> string,
                   payload: string -> Event)
    requires Represents(t, before, owner)
    requires block.number == |before| + 1
    requires before != [] ==> block.previousId == before[|before| - 1].block.id
    requires AllOwned(owner, decisions)
    requires forall k :: 0 <= k < |decisions| ==> decisions[k].operation.blockNumber == block.number
    requires Clashless(Decisions(before) + decisions)
    requires BindingsFit(t.bindings, payload) && PayloadsFit(decisions, payload)
    ensures ApplyBlock(t, block, decisions).Success? <==> !RecordsBlockId(t.checkpoints, block.id)
    ensures ApplyBlock(t, block, decisions).Failure? ==> ApplyBlock(t, block, decisions).error == EvidenceConflict
  {
    CursorIsTip(t, before, owner);
    if !RecordsBlockId(t.checkpoints, block.id) {
      ApplyFits(t, before, block, decisions, owner, payload);
    }
  }

  /** Once recorded, a block is refused at every later moment of the run. */
  lemma RecordedIsRefused(data: LocalData, owner: string -> string, steps: seq<Step>, i: nat, block: Block,
                          decisions: seq<Decision>)
    requires Permitted(data, owner, steps) && i <= |steps|
    requires RecordsBlockId(Run(data, steps[..i]).checkpoints, block.id)
    ensures ApplyBlock(Run(data, steps), block, decisions).Failure?
  {
    var before, after := RunEvolves(data, owner, steps, i);
    var first, last := Run(data, steps[..i]).checkpoints, Run(data, steps).checkpoints;
    var k :| 0 <= k < |first| && first[k].block.id == block.id;
    assert last[k].block.id == block.id;
  }

  lemma {:induction false} FirstBlockFails(p: Projector, start: Progress, operations: seq<Operation>,
                                           blocks: seq<Block>, n: nat)
    requires 0 < n <= |blocks| && start.outcome == Success(None)
    requires ApplyNext(p, start, operations, blocks[0]).outcome.Failure?
    ensures ApplyBlocks(p, start, operations, blocks, n) == ApplyNext(p, start, operations, blocks[0])
  {
    if n > 1 {
      FirstBlockFails(p, start, operations, blocks, n - 1);
    } else {
      assert ApplyBlocks(p, start, operations, blocks, 0) == start;
    }
  }

  /** The store holds the first `n` blocks of the chain and has recorded block `n + 1` before. */
  ghost predicate Returns(validate: Validator, chain: seq<SourceBlock>, owner: string -> string, t: Tables, n: nat) {
    && n < |chain|
    && Represents(t, EntriesOf(validate, chain)[..n], owner)
    && RecordsBlockId(t.checkpoints, chain[n].block.id)
  }

  /** The store holds the first `n` blocks of the chain and the next one is refused. */
  predicate Refuses(p: Projector, chain: seq<SourceBlock>, t: Tables, n: nat) {
    && n < |chain| && chain[n].block.number == n + 1
    && GetCursor(t) == CursorAt(chain, n, t.lastIrreversible)
    && var decisions := ValidateOperations(p.validate, chain[n].block, chain[n].operations);
       decisions.Success? && ApplyBlock(t, chain[n].block, decisions.value) == Failure(EvidenceConflict)
  }

  lemma ReturnRefuses(p: Projector, chain: seq<SourceBlock>, owner: string -> string, t: Tables, n: nat)
    requires Returns(p.validate, chain, owner, t, n) && ChainLinked(chain)
    requires chain[n].block.number == n + 1 && ForBlock(chain[n].block, chain[n].operations)
    ensures Refuses(p, chain, t, n)
  {
    CursorIsTip(t, EntriesOf(p.validate, chain)[..n], owner);
    assert n > 0 ==> LinksDown(chain, n);
    ValidatesIffForBlock(p.validate, chain[n].block, chain[n].operations);
  }

  lemma AdvanceIsRefused(p: Projector, chain: seq<SourceBlock>, lib: Lib, t: Tables, n: nat, high: nat, at: nat)
    requires Refuses(p, chain, t, n) && ChainLinked(chain) && Serves(p.source, chain, lib)
    requires forall i :: 0 <= i < |chain| ==> chain[i].block.number == i + 1
    requires n < high <= |chain|
    ensures var after := Advance(p, t, GetCursor(t), high, at);
            after.tables == t && after.outcome == Failure(EvidenceConflict)
  {
    NextIsChain(p, chain, lib, at, n, high);
    var next := ReadNext(p.source, at, n + 1, high);
    assert n > 0 ==> LinksDown(chain, n);
    FirstBlockFails(p, Progress(t, GetCursor(t), 0, next.count, Success(None)), next.answer.value.operations,
                    BlocksBetween(chain, n, high), high - n);
  }

  lemma RefusedFinishes(data: LocalData, p: Projector, t: Tables, advanced: Progress, lib: Lib, head: nat, now: nat)
    requires advanced.tables == t && advanced.outcome == Failure(EvidenceConflict)
    ensures Finish(data, p, advanced, lib, head, now).tables == t
    ensures Finish(data, p, advanced, lib, head, now).result == Failure(EvidenceConflict)
  {
  }

  /** A cycle whose next block is refused fails and changes nothing. */
  lemma CycleIsStuck(data: LocalData, p: Projector, chain: seq<SourceBlock>, lib: Lib, t: Tables, n: nat, now: nat,
                     at: nat)
    requires Refuses(p, chain, t, n) && ChainLinked(chain) && Serves(p.source, chain, lib)
    requires forall i :: 0 <= i < |chain| ==> chain[i].block.number == i + 1
    requires p.maxBlocksPerRun > 0
    ensures Cycle(data, p, t, now, at).tables == t
    ensures Cycle(data, p, t, now, at).result == Failure(EvidenceConflict)
  {
    assert p.source.head(at) == Success(|chain|) && p.source.lib(at + 1) == Success(lib);
    assert n > 0 ==> p.source.block(at + 2, n) == Success(chain[n - 1].block);
    CycleExtends(data, p, t, now, at, |chain|, lib);
    var tip, high := VerifyTip(p, t, GetCursor(t), at + 2), Min(|chain|, n + p.maxBlocksPerRun);
    AdvanceIsRefused(p, chain, lib, t, n, high, tip.count);
    RefusedFinishes(data, p, t, Advance(p, t, GetCursor(t), high, tip.count), lib, |chain|, now);
  }

  lemma {:induction false} CyclesAreStuck(data: LocalData, p: Projector, chain: seq<SourceBlock>, lib: Lib,
                                          start: Point, n: nat, instants: seq<nat>)
    requires Refuses(p, chain, start.tables, n) && ChainLinked(chain) && Serves(p.source, chain, lib)
    requires forall i :: 0 <= i < |chain| ==> chain[i].block.number == i + 1
    requires p.maxBlocksPerRun > 0
    ensures After(data, p, start, instants).tables == start.tables
  {
    if instants != [] {
      var last := |instants| - 1;
      CyclesAreStuck(data, p, chain, lib, start, n, instants[..last]);
      var point := After(data, p, start, instants[..last]);
      CycleIsStuck(data, p, chain, lib, point.tables, n, instants[last], point.count);
    }
  }

  /** A returning branch is never taken up: every cycle of every run from there fails, however many. */
  lemma ReturningBranchIsStuck(data: LocalData, p: Projector, chain: seq<SourceBlock>, lib: Lib,
                               owner: string -> string, start: Point, n: nat, instants: seq<nat>, k: nat)
    requires Returns(p.validate, chain, owner, start.tables, n) && ChainLinked(chain) && Serves(p.source, chain, lib)
    requires forall i :: 0 <= i < |chain| ==> chain[i].block.number == i + 1
    requires ForBlock(chain[n].block, chain[n].operations) && p.maxBlocksPerRun > 0
    requires k < |instants|
    ensures After(data, p, start, instants).tables == start.tables
    ensures CycleAt(data, p, start, instants, k).result == Failure(EvidenceConflict)
  {
    ReturnRefuses(p, chain, owner, start.tables, n);
    CyclesAreStuck(data, p, chain, lib, start, n, instants);
    CyclesAreStuck(data, p, chain, lib, start, n, instants[..k]);
    var point := After(data, p, start, instants[..k]);
    CycleIsStuck(data, p, chain, lib, point.tables, n, instants[k], point.count);
  }

  // ---- What was recorded has its parent recorded ----------------------------------------------------

  predicate HasParent(checkpoints: seq<Checkpoint>, i: nat)
    requires i < |checkpoints|
  {
    RecordsBlockId(checkpoints[..i], checkpoints[i].block.previousId)
  }

  /** Every block recorded above height one was recorded after its parent. */
  predicate Rooted(checkpoints: seq<Checkpoint>) {
    forall i :: 0 <= i < |checkpoints| && checkpoints[i].block.number > 1 ==> HasParent(checkpoints, i)
  }

  lemma SameBlocksRooted(a: seq<Checkpoint>, b: seq<Checkpoint>)
    requires SameBlocks(a, b) && Rooted(a)
    ensures Rooted(b)
  {
    forall i | 0 <= i < |b| && b[i].block.number > 1 ensures HasParent(b, i) {
      assert HasParent(a, i);
      var j :| 0 <= j < i && a[..i][j].block.id == a[i].block.previousId;
      assert b[..i][j].block == a[j].block;
    }
  }

  lemma TipIsRecorded(t: Tables, entries: seq<Entry>, owner: string -> string)
    requires Represents(t, entries, owner) && entries != []
    ensures RecordsBlockId(t.checkpoints, entries[|entries| - 1].block.id)
  {
    CursorIsTip(t, entries, owner);
    CurrentIsLive(t.checkpoints, |entries|);
    var tip := CurrentCheckpoint(t.checkpoints, |entries|).value;
    var i :| 0 <= i < |t.checkpoints| && t.checkpoints[i] == tip;
    assert t.checkpoints[i].block.id == entries[|entries| - 1].block.id;
  }

  lemma AppendRooted(checkpoints: seq<Checkpoint>, next: Checkpoint)
    requires Rooted(checkpoints)
    requires next.block.number > 1 ==> RecordsBlockId(checkpoints, next.block.previousId)
    ensures Rooted(checkpoints + [next])
  {
    var longer := checkpoints + [next];
    assert longer[..|checkpoints|] == checkpoints;
    forall i | 0 <= i < |longer| && longer[i].block.number > 1 ensures HasParent(longer, i) {
      assert i < |checkpoints| ==> HasParent(checkpoints, i) && longer[..i] == checkpoints[..i];
    }
  }

  lemma StepKeepsRooted(data: LocalData, t: Tables, entries: seq<Entry>, owner: string -> string, step: Step)
    requires Represents(t, entries, owner) && Rooted(t.checkpoints)
    ensures Rooted(Do(data, t, step).checkpoints)
  {
    var after := Do(data, t, step).checkpoints;
    if Attempt(data, t, step).Success? {
      match step
      case Apply(block, decisions) =>
        CursorIsTip(t, entries, owner);
        if entries != [] {
          TipIsRecorded(t, entries, owner);
        }
        AppendRooted(t.checkpoints, Checkpoint(block, Included));
        InsertAllEvolves(t.(checkpoints := t.checkpoints + [Checkpoint(block, Included)]), |t.checkpoints|, decisions);
      case Revert(ancestor) =>
        SameBlocksRooted(t.checkpoints, after);
      case Finalize(number, now) =>
        SameBlocksRooted(t.checkpoints, after);
    }
  }

  lemma {:induction false} RunIsRooted(data: LocalData, owner: string -> string, steps: seq<Step>)
    requires Permitted(data, owner, steps)
    ensures Rooted(Run(data, steps).checkpoints)
  {
    if steps != [] {
      var n := |steps| - 1;
      PermittedPrefix(data, owner, steps, n);
      RunIsRooted(data, owner, steps[..n]);
      var entries := RunIsSound(data, owner, steps[..n]);
      StepKeepsRooted(data, Run(data, steps[..n]), entries, owner, steps[n]);
    }
  }

  // ---- The exact condition --------------------------------------------------------------------------

  /** A recorded block with the id of a block of the chain is that block. */
  predicate IdsIdentify(checkpoints: seq<Checkpoint>, chain: seq<SourceBlock>) {
    forall i, k :: 0 <= i < |checkpoints| && 0 <= k < |chain| && checkpoints[i].block.id == chain[k].block.id ==>
      checkpoints[i].block == chain[k].block
  }

  /** The first block of the chain above height `n`, if there is one, was never recorded. */
  predicate NextIsNew(t: Tables, chain: seq<SourceBlock>, n: nat)
    requires n <= |chain|
  {
    n == |chain| || !RecordsBlockId(t.checkpoints, chain[n].block.id)
  }

  /** With a block of the chain all blocks below it down to height `n` are recorded too. */
  lemma {:induction false} RecordedDownTo(checkpoints: seq<Checkpoint>, chain: seq<SourceBlock>, n: nat, i: nat)
    requires Rooted(checkpoints) && IdsIdentify(checkpoints, chain) && ChainLinked(chain)
    requires forall k :: 0 <= k < |chain| ==> chain[k].block.number == k + 1
    requires n <= i < |chain| && RecordsBlockId(checkpoints, chain[i].block.id)
    ensures RecordsBlockId(checkpoints, chain[n].block.id)
    decreases i
  {
    if n < i {
      var k :| 0 <= k < |checkpoints| && checkpoints[k].block.id == chain[i].block.id;
      assert checkpoints[k].block == chain[i].block;
      assert HasParent(checkpoints, k) && LinksDown(chain, i);
      var j :| 0 <= j < k && checkpoints[..k][j].block.id == checkpoints[k].block.previousId;
      assert checkpoints[j].block.id == chain[i - 1].block.id;
      RecordedDownTo(checkpoints, chain, n, i - 1);
    }
  }

  /** So a chain is new above the fork exactly when the one block right above the fork is. */
  lemma NewAboveIffNext(t: Tables, chain: seq<SourceBlock>, n: nat)
    requires Rooted(t.checkpoints) && IdsIdentify(t.checkpoints, chain) && ChainLinked(chain) && n <= |chain|
    requires forall k :: 0 <= k < |chain| ==> chain[k].block.number == k + 1
    ensures NewAbove(t.checkpoints, chain, n) <==> NextIsNew(t, chain, n)
  {
    if NextIsNew(t, chain, n) {
      forall i, k | n <= i < |chain| && 0 <= k < |t.checkpoints|
        ensures t.checkpoints[k].block.id != chain[i].block.id
      {
        if t.checkpoints[k].block.id == chain[i].block.id {
          RecordedDownTo(t.checkpoints, chain, n, i);
        }
      }
    } else {
      var k :| 0 <= k < |t.checkpoints| && t.checkpoints[k].block.id == chain[n].block.id;
    }
  }

  lemma SameBlocksRecorded(a: seq<Checkpoint>, b: seq<Checkpoint>, id: string)
    requires SameBlocks(a, b) && RecordsBlockId(a, id)
    ensures RecordsBlockId(b, id)
  {
    var k :| 0 <= k < |a| && a[k].block.id == id;
    assert b[k].block.id == id;
  }

  /** The store after the cycle that rolls back, if there is one: on the chain, at the fork. */
  lemma CutBackReturns(validate: Validator, chain: seq<SourceBlock>, owner: string -> string, payload: string -> Event,
                       t: Tables, n: nat, after: Tables)
    requires CutBack(validate, chain, owner, payload, t, n, after) && !NextIsNew(t, chain, n)
    ensures Returns(validate, chain, owner, after, n)
  {
    SameBlocksRecorded(t.checkpoints, after.checkpoints, chain[n].block.id);
  }

  lemma StuckIsNotSettled(data: LocalData, p: Projector, chain: seq<SourceBlock>, lib: Lib, owner: string -> string,
                          irreversible: nat, t: Tables, n: nat)
    requires n < |chain| && Represents(t, EntriesOf(p.validate, chain)[..n], owner)
    ensures !Settled(data, p, chain, lib, owner, irreversible, t)
  {
  }

  /** The cycles after the rollback, if there is one, all fail, and the store stays at the fork. */
  ghost predicate StaysAtFork(data: LocalData, p: Projector, chain: seq<SourceBlock>, owner: string -> string,
                              start: Point, instants: seq<nat>, rollbacks: nat, common: nat)
    requires common <= |chain|
  {
    && Represents(After(data, p, start, instants).tables, EntriesOf(p.validate, chain)[..common], owner)
    && forall k :: rollbacks <= k < |instants| ==>
         CycleAt(data, p, start, instants, k).result == Failure(EvidenceConflict)
  }

  lemma ReturnStaysAtFork(data: LocalData, p: Projector, chain: seq<SourceBlock>, lib: Lib, owner: string -> string,
                          start: Point, n: nat, instants: seq<nat>)
    requires Returns(p.validate, chain, owner, start.tables, n) && ChainLinked(chain) && Serves(p.source, chain, lib)
    requires forall i :: 0 <= i < |chain| ==> chain[i].block.number == i + 1
    requires ForBlock(chain[n].block, chain[n].operations) && p.maxBlocksPerRun > 0 && instants != []
    ensures StaysAtFork(data, p, chain, owner, start, instants, 0, n)
    ensures After(data, p, start, instants).tables == start.tables
  {
    forall k | 0 <= k < |instants| ensures CycleAt(data, p, start, instants, k).result == Failure(EvidenceConflict) {
      ReturningBranchIsStuck(data, p, chain, lib, owner, start, n, instants, k);
    }
    ReturningBranchIsStuck(data, p, chain, lib, owner, start, n, instants, 0);
  }

  lemma RecordedIsStuck(data: LocalData, p: Projector, chain: seq<SourceBlock>, lib: Lib, owner: string -> string,
                        payload: string -> Event, start: Point, entries: seq<Entry>, instants: seq<nat>)
    requires Projectable(p.validate, chain, owner, payload) && p.maxBlocksPerRun > 0
    requires Serves(p.source, chain, lib) && Forked(p, chain, owner, payload, start.tables, entries)
    requires !NextIsNew(start.tables, chain, Common(chain, entries)) && |instants| > Rollbacks(chain, entries)
    ensures StaysAtFork(data, p, chain, owner, start, instants, Rollbacks(chain, entries), Common(chain, entries))
  {
    var common := Common(chain, entries);
    if common == |entries| {
      UnforkedIsOnChain(p, chain, owner, payload, start.tables, entries);
      ReturnStaysAtFork(data, p, chain, lib, owner, start, common, instants);
    } else {
      CycleRollsBack(data, p, chain, lib, owner, payload, start.tables, entries, instants[0], start.count);
      var c := Cycle(data, p, start.tables, instants[0], start.count);
      CutBackReturns(p.validate, chain, owner, payload, start.tables, common, c.tables);
      LaterStaysAtFork(data, p, chain, lib, owner, start, Point(c.tables, c.count), common, instants);
    }
  }

  lemma LaterStaysAtFork(data: LocalData, p: Projector, chain: seq<SourceBlock>, lib: Lib, owner: string -> string,
                         start: Point, next: Point, n: nat, instants: seq<nat>)
    requires Returns(p.validate, chain, owner, next.tables, n) && ChainLinked(chain) && Serves(p.source, chain, lib)
    requires forall i :: 0 <= i < |chain| ==> chain[i].block.number == i + 1
    requires ForBlock(chain[n].block, chain[n].operations) && p.maxBlocksPerRun > 0
    requires |instants| > 1 && FollowsFirst(data, p, start, instants, next)
    ensures StaysAtFork(data, p, chain, owner, start, instants, 1, n)
  {
    FirstCycle(data, p, start, instants, next);
    ReturnStaysAtFork(data, p, chain, lib, owner, next, n, instants[1..]);
    forall k | 1 <= k < |instants| ensures CycleAt(data, p, start, instants, k).result == Failure(EvidenceConflict) {
      LaterCycle(data, p, start, instants, next, k);
      ReturningBranchIsStuck(data, p, chain, lib, owner, next, n, instants[1..], k - 1);
    }
  }

  /**
   The exact condition: a reachable store that the source has forked away from, but not too far,
   settles on the source's chain if and only if the block right above the fork was never recorded
   before. If it was, every cycle after the rollback fails, however many there are.
   */
  lemma SettlesIffNew(data: LocalData, p: Projector, chain: seq<SourceBlock>, lib: Lib, owner: string -> string,
                      payload: string -> Event, steps: seq<Step>, start: Point, entries: seq<Entry>,
                      instants: seq<nat>)
    requires Permitted(data, owner, steps) && start.tables == Run(data, steps)
    requires Projectable(p.validate, chain, owner, payload) && p.maxBlocksPerRun > 0
    requires Serves(p.source, chain, lib) && OnTheChain(lib, chain)
    requires Forked(p, chain, owner, payload, start.tables, entries)
    requires IdsIdentify(start.tables.checkpoints, chain)
    requires |instants| > Rollbacks(chain, entries)
    requires |chain| <= Common(chain, entries) + (|instants| - Rollbacks(chain, entries)) * p.maxBlocksPerRun
    ensures Settled(data, p, chain, lib, owner, start.tables.lastIrreversible,
                    After(data, p, start, instants).tables)
       <==> NextIsNew(start.tables, chain, Common(chain, entries))
    ensures !NextIsNew(start.tables, chain, Common(chain, entries)) ==>
              forall k :: Rollbacks(chain, entries) <= k < |instants| ==>
                CycleAt(data, p, start, instants, k).result == Failure(EvidenceConflict)
  {
    var common := Common(chain, entries);
    RunIsRooted(data, owner, steps);
    NewAboveIffNext(start.tables, chain, common);
    if NextIsNew(start.tables, chain, common) {
      Converges(data, p, chain, lib, owner, payload, start, entries, instants);
    } else {
      RecordedIsStuck(data, p, chain, lib, owner, payload, start, entries, instants);
      StuckIsNotSettled(data, p, chain, lib, owner, start.tables.lastIrreversible,
                        After(data, p, start, instants).tables, common);
    }
  }

  // ---- The smallest example -------------------------------------------------------------------------

  const ONE := Block(1, "a", "", "")
  const OTHER := Block(1, "b", "", "")

  /** The smallest such run: apply a block, revert it, apply another, revert that, and the first returns. */
  lemma SmallestReturn(data: LocalData)
    ensures ApplyBlock(Run(data, [Apply(ONE, []), Revert(0), Apply(OTHER, []), Revert(0)]), ONE, [])
         == Failure(EvidenceConflict)
  {
    var first := EMPTY_TABLES.(checkpoints := [Checkpoint(ONE, Included)], lastProcessed := 1);
    var second := EMPTY_TABLES.(checkpoints := [Checkpoint(ONE, State.Reverted)]);
    var third := EMPTY_TABLES.(checkpoints := [Checkpoint(ONE, State.Reverted), Checkpoint(OTHER, Included)],
                               lastProcessed := 1);
    var fourth := EMPTY_TABLES.(checkpoints := [Checkpoint(ONE, State.Reverted), Checkpoint(OTHER, State.Reverted)]);
    ApplyEmptyBlock(EMPTY_TABLES, ONE);
    RevertOnly(first, second);
    ApplyEmptyBlock(second, OTHER);
    RevertOnly(third, fourth);
    RunOfFour(data, Apply(ONE, []), Revert(0), Apply(OTHER, []), Revert(0));
    assert Do(data, EMPTY_TABLES, Apply(ONE, [])) == first && Do(data, first, Revert(0)) == second;
    assert Do(data, second, Apply(OTHER, [])) == third && Do(data, third, Revert(0)) == fourth;
    assert fourth.checkpoints[0].block.id == "a";
    NothingLive(fourth.checkpoints, 0);
  }

  lemma RunOfFour(data: LocalData, a: Step, b: Step, c: Step, d: Step)
    ensures Run(data, [a, b, c, d]) == Do(data, Do(data, Do(data, Do(data, EMPTY_TABLES, a), b), c), d)
  {
    RunGrows(data, [], a);
    RunGrows(data, [a], b);
    RunGrows(data, [a, b], c);
    RunGrows(data, [a, b, c], d);
    assert [] + [a] == [a] && [a] + [b] == [a, b] && [a, b] + [c] == [a, b, c] && [a, b, c] + [d] == [a, b, c, d];
  }

  lemma RevertOnly(t: Tables, after: Tables)
    requires t.rows == [] && t.bindings == map[] && t.lastIrreversible == 0 && |after.checkpoints| == |t.checkpoints|
    requires forall i :: 0 <= i < |t.checkpoints| ==> after.checkpoints[i] == RevertCheckpoint(t.checkpoints[i], 0)
    requires after == t.(checkpoints := after.checkpoints, lastProcessed := 0)
    ensures RevertAfter(t, 0) == Success(after)
  {
    assert after.checkpoints == RevertCheckpoints(t.checkpoints, 0);
    RevertToNothing(t, after);
  }

  lemma ApplyEmptyBlock(t: Tables, block: Block)
    requires t.lastProcessed == 0 && block.number == 1
    requires forall i :: 0 <= i < |t.checkpoints| ==>
               t.checkpoints[i].state == State.Reverted && t.checkpoints[i].block.id != block.id
    ensures ApplyBlock(t, block, [])
         == Success(t.(checkpoints := t.checkpoints + [Checkpoint(block, Included)], lastProcessed := 1))
  {
    NothingLive(t.checkpoints, 0);
    NothingLive(t.checkpoints, 1);
  }

  lemma {:induction false} NothingLive(checkpoints: seq<Checkpoint>, number: nat)
    requires forall i :: 0 <= i < |checkpoints| ==> checkpoints[i].state == State.Reverted
    ensures CurrentCheckpoint(checkpoints, number).None?
  {
    if checkpoints != [] {
      NothingLive(checkpoints[1..], number);
    }
  }

  lemma RevertToNothing(t: Tables, after: Tables)
    requires t.rows == [] && t.bindings == map[] && t.lastIrreversible == 0
    requires after == t.(checkpoints := RevertCheckpoints(t.checkpoints, 0), lastProcessed := 0)
    ensures RevertAfter(t, 0) == Success(after)
  {
    assert RevertRows(t.checkpoints, t.rows, 0) == [];
    assert RevertBindings(t, 0) == map[];
  }
}
