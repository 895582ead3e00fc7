/**
 Against a source that has settled on one chain: which height a rollback reaches, and that a bounded
 number of cycles brings the store to that chain.
 */
module ProjectorConvergence {
  import opened Wrappers
  import opened MatchView
  import opened ProjectionTables
  import opened ProjectionChain
  import opened ProjectionRuns
  import opened ProjectorCycle
  import opened ProjectorDecisions
  import opened ProjectorSafety

  datatype SourceBlock = SourceBlock(block: Block, operations: seq<Operation>)

  /** The source answers every read from one and the same chain. */
  ghost predicate Serves(source: Source, chain: seq<SourceBlock>, lib: Lib) {
    && (forall at: nat :: source.head(at) == Success(|chain|))
    && (forall at: nat :: source.lib(at) == Success(lib))
    && (forall at: nat, n: nat :: 1 <= n <= |chain| ==> source.block(at, n) == Success(chain[n - 1].block))
    && (forall at: nat, first: nat, last: nat :: 1 <= first <= last <= |chain| ==>
          Lists(source.operations(at, first, last), chain, first, last))
  }

  predicate Lists(answer: Result<seq<Operation>, Error>, chain: seq<SourceBlock>, first: nat, last: nat)
    requires 1 <= first && last <= |chain|
  {
    && answer.Success? && DistinctSources(answer.value)
    && forall n :: first <= n <= last ==> OperationsAt(answer.value, n) == chain[n - 1].operations
  }

  // ---- Rollback -----------------------------------------------------------------------------------

  predicate SameId(entries: seq<Entry>, chain: seq<SourceBlock>, n: nat) {
    0 < n <= |entries| && n <= |chain| && entries[n - 1].block.id == chain[n - 1].block.id
  }

  /** The greatest height up to `n` at which the store and the source hold the same block id. */
  function Agreement(entries: seq<Entry>, chain: seq<SourceBlock>, n: nat): (height: nat)
    ensures height <= n
    ensures height > 0 ==> SameId(entries, chain, height)
    ensures forall k :: height < k <= n ==> !SameId(entries, chain, k)
  {
    if n == 0 || SameId(entries, chain, n) then n else Agreement(entries, chain, n - 1)
  }

  /** How reconciling ends, in terms of the greatest common height alone. */
  function Ending(common: nat, irreversible: nat, lower: nat): Result<nat, Error> {
    if common >= irreversible && common >= lower then Success(common)
    else if irreversible >= lower then Failure(IrreversibleFork)
    else Failure(ReorgTooDeep)
  }

  predicate EndsWith(after: Progress, t: Tables, ending: Result<nat, Error>) {
    match ending
    case Success(ancestor) =>
      after.outcome == Success(Some(ancestor)) && RevertAfter(t, ancestor) == Success(after.tables)
    case Failure(error) => after.outcome == Failure(error) && after.tables == t
  }

  /** The store shows the chain `entries`. */
  predicate Shows(t: Tables, entries: seq<Entry>) {
    forall n :: 1 <= n <= |entries| ==>
      var stored := CurrentCheckpoint(t.checkpoints, n);
      stored.Some? && stored.value.block == entries[n - 1].block
  }

  lemma {:induction false} ReconcileDescends(source: Source, chain: seq<SourceBlock>, t: Tables, entries: seq<Entry>,
                                             cursor: Cursor, height: nat, lower: nat, at: nat)
    requires forall at: nat, n: nat :: 1 <= n <= |chain| ==> source.block(at, n) == Success(chain[n - 1].block)
    requires Shows(t, entries) && cursor.lastIrreversible == t.lastIrreversible <= height
    requires lower <= height <= |entries| && height <= |chain|
    ensures EndsWith(ReconcileFork(source, t, cursor, 0, height, lower, at), t,
                     Ending(Agreement(entries, chain, height), t.lastIrreversible, lower))
    decreases height
  {
    if height > 0 {
      var stored, current := CurrentCheckpoint(t.checkpoints, height), source.block(at, height);
      assert stored.Some? && stored.value.block == entries[height - 1].block;
      assert current == Success(chain[height - 1].block);
      if !SameId(entries, chain, height) && height > t.lastIrreversible && height != lower {
        ReconcileDescends(source, chain, t, entries, cursor, height - 1, lower, at + 1);
      }
    }
  }

  /**
   Against a settled source reconciling reverts to the greatest common height, exactly when that is
   neither below the irreversible height nor deeper than allowed, and otherwise changes nothing.
   */
  lemma ReconcileFindsAgreement(source: Source, chain: seq<SourceBlock>, lib: Lib, t: Tables, entries: seq<Entry>,
                                owner: string -> string, depth: nat, at: nat)
    requires Serves(source, chain, lib) && Represents(t, entries, owner)
    requires |entries| <= |chain|
    ensures var lower := LowerBound(|entries|, depth);
            EndsWith(ReconcileFork(source, t, GetCursor(t), 0, |entries|, lower, at), t,
                     Ending(Agreement(entries, chain, |entries|), t.lastIrreversible, lower))
  {
    CursorIsTip(t, entries, owner);
    ReconcileDescends(source, chain, t, entries, GetCursor(t), |entries|, LowerBound(|entries|, depth), at);
  }

  /** Block ids identify a block together with everything below it. */
  predicate CollisionFree(entries: seq<Entry>, other: seq<Entry>) {
    forall n :: 0 < n <= |entries| && n <= |other| && entries[n - 1].block.id == other[n - 1].block.id ==>
      entries[..n] == other[..n]
  }

  predicate IsCommonPrefix(a: seq<Entry>, b: seq<Entry>, n: nat) {
    n <= |a| && n <= |b| && a[..n] == b[..n]
  }

  // ---- The chain the source offers ----------------------------------------------------------------

  predicate ChainLinked(chain: seq<SourceBlock>) {
    forall i :: 0 < i < |chain| ==> LinksDown(chain, i)
  }

  predicate LinksDown(chain: seq<SourceBlock>, i: nat)
    requires 0 < i < |chain|
  {
    chain[i].block.previousId == chain[i - 1].block.id
  }

  function EntryOf(validate: Validator, source: SourceBlock): Entry {
    Entry(source.block, DecisionsOf(validate, source.block, source.operations))
  }

  function EntriesOf(validate: Validator, chain: seq<SourceBlock>): (entries: seq<Entry>)
    ensures |entries| == |chain|
    ensures forall i :: 0 <= i < |chain| ==> entries[i] == EntryOf(validate, chain[i])
  {
    seq(|chain|, i requires 0 <= i < |chain| => EntryOf(validate, chain[i]))
  }

  predicate Clashless(decisions: seq<Decision>) {
    forall i, j :: 0 <= i < j < |decisions| ==> !Clash(decisions[i].operation, decisions[j].operation)
  }

  predicate PayloadsFit(decisions: seq<Decision>, payload: string -> Event) {
    forall k :: 0 <= k < |decisions| && decisions[k].Publishes() ==> IsHonest(decisions[k].verdict.event, payload)
  }

  /**
   What makes a chain projectable: numbered, linked, no identity used twice, one payload per event id,
   and changes that name the batch their original event was in.
   */
  ghost predicate Projectable(validate: Validator, chain: seq<SourceBlock>, owner: string -> string,
                              payload: string -> Event)
  {
    && OwnsBatches(validate, owner)
    && (forall i :: 0 <= i < |chain| ==>
          chain[i].block.number == i + 1 && ForBlock(chain[i].block, chain[i].operations))
    && ChainLinked(chain)
    && (forall i, j :: 0 <= i < j < |chain| ==> chain[i].block.id != chain[j].block.id)
    && Clashless(Decisions(EntriesOf(validate, chain)))
    && PayloadsFit(Decisions(EntriesOf(validate, chain)), payload)
  }

  predicate BindingsFit(bindings: map<string, Binding>, payload: string -> Event) {
    forall id :: id in bindings ==> bindings[id].event.id == id && IsHonest(bindings[id].event, payload)
  }

  /** No block of the chain above height `n` has ever been recorded. */
  predicate NewAbove(checkpoints: seq<Checkpoint>, chain: seq<SourceBlock>, n: nat) {
    forall i, k :: n <= i < |chain| && 0 <= k < |checkpoints| ==> checkpoints[k].block.id != chain[i].block.id
  }

  /** The store holds exactly the first `n` blocks of the chain and can take the next ones. */
  ghost predicate Aligned(validate: Validator, chain: seq<SourceBlock>, owner: string -> string,
                          payload: string -> Event, t: Tables, n: nat)
  {
    && n <= |chain|
    && Represents(t, EntriesOf(validate, chain)[..n], owner)
    && BindingsFit(t.bindings, payload) && ViewFits(t.view, payload)
    && NewAbove(t.checkpoints, chain, n)
  }

  // ---- Applying the next block succeeds -----------------------------------------------------------

  lemma {:induction false} LiveRowIsListed(rows: seq<Row>, r: nat) returns (k: nat)
    requires r < |rows| && rows[r].state != Reverted
    ensures k < |LiveDecisions(rows)| && LiveDecisions(rows)[k] == rows[r].decision
  {
    var n := |rows| - 1;
    if r < n {
      k := LiveRowIsListed(rows[..n], r);
    } else {
      k := |LiveDecisions(rows[..n])|;
    }
  }

  lemma NoLiveClash(rows: seq<Row>, live: seq<Decision>, decision: Decision)
    requires LiveDecisions(rows) == live
    requires Clashless(live + [decision])
    ensures !ClashesLive(rows, decision.operation)
  {
    forall r | 0 <= r < |rows| && rows[r].state != Reverted
      ensures !Clash(rows[r].decision.operation, decision.operation)
    {
      var k := LiveRowIsListed(rows, r);
      var all := live + [decision];
      assert all[k] == rows[r].decision && all[|live|] == decision;
    }
  }

  lemma InsertSucceeds(t: Tables, checkpoint: nat, decision: Decision, payload: string -> Event)
    requires checkpoint < |t.checkpoints|
    requires t.checkpoints[checkpoint].block.number == decision.operation.blockNumber
    requires !ClashesLive(t.rows, decision.operation)
    requires BindingsFit(t.bindings, payload) && PayloadsFit([decision], payload)
    ensures InsertOperation(t, checkpoint, decision).Success?
    ensures BindingsFit(InsertOperation(t, checkpoint, decision).value.bindings, payload)
  {
    assert [decision][0] == decision;
  }

  lemma NextInsertSucceeds(t: Tables, before: seq<Entry>, block: Block, done: seq<Decision>, next: Decision,
                           owner: string -> string, payload: string -> Event)
    returns (after: Tables)
    requires t.checkpoints != [] && t.checkpoints[|t.checkpoints| - 1] == Checkpoint(block, Included)
    requires TablesAgree(t, before + [Entry(block, done)], owner)
    requires next.operation.blockNumber == block.number
    requires Clashless(Decisions(before) + (done + [next]))
    requires BindingsFit(t.bindings, payload) && PayloadsFit([next], payload)
    ensures InsertOperation(t, |t.checkpoints| - 1, next) == Success(after)
    ensures BindingsFit(after.bindings, payload)
  {
    var entries := before + [Entry(block, done)];
    assert entries[..|before|] == before;
    assert Decisions(entries) + [next] == Decisions(before) + (done + [next]);
    NoLiveClash(t.rows, Decisions(entries), next);
    InsertSucceeds(t, |t.checkpoints| - 1, next, payload);
    after := InsertOperation(t, |t.checkpoints| - 1, next).value;
  }

  lemma {:induction false} InsertAllSucceeds(t: Tables, before: seq<Entry>, block: Block, decisions: seq<Decision>,
                                             owner: string -> string, payload: string -> Event)
    returns (filled: Tables)
    requires t.checkpoints != [] && t.checkpoints[|t.checkpoints| - 1] == Checkpoint(block, Included)
    requires block.number == |before| + 1
    requires TablesAgree(t, before + [Entry(block, [])], owner)
    requires AllOwned(owner, decisions)
    requires forall k :: 0 <= k < |decisions| ==> decisions[k].operation.blockNumber == block.number
    requires Clashless(Decisions(before) + decisions)
    requires BindingsFit(t.bindings, payload) && PayloadsFit(decisions, payload)
    ensures InsertOperations(t, |t.checkpoints| - 1, decisions) == Success(filled)
    ensures BindingsFit(filled.bindings, payload)
  {
    filled := t;
    if decisions != [] {
      var n := |decisions| - 1;
      ClashlessPrefix(Decisions(before) + decisions, |Decisions(before)| + n);
      assert (Decisions(before) + decisions)[..|Decisions(before)| + n] == Decisions(before) + decisions[..n];
      var earlier := InsertAllSucceeds(t, before, block, decisions[..n], owner, payload);
      InsertAllKeeps(t, before, block, decisions[..n], owner);
      assert decisions == decisions[..n] + [decisions[n]];
      filled := NextInsertSucceeds(earlier, before, block, decisions[..n], decisions[n], owner, payload);
    }
  }

  lemma ClashlessPrefix(decisions: seq<Decision>, n: nat)
    requires Clashless(decisions) && n <= |decisions|
    ensures Clashless(decisions[..n])
  {
  }

  lemma DecisionsExtend(entries: seq<Entry>, n: nat)
    requires n < |entries|
    ensures Decisions(entries[..n + 1]) == Decisions(entries[..n]) + entries[n].decisions
  {
    assert entries[..n + 1][..n] == entries[..n];
  }

  lemma {:induction false} DecisionsPrefix(entries: seq<Entry>, n: nat)
    requires n <= |entries|
    ensures |Decisions(entries[..n])| <= |Decisions(entries)|
    ensures Decisions(entries)[..|Decisions(entries[..n])|] == Decisions(entries[..n])
  {
    assert entries == entries[..n] + entries[n..];
    DecisionsConcat(entries[..n], entries[n..]);
  }

  /** A whole chain without clashes has none between its first `n` entries and the next one. */
  lemma EntryFits(entries: seq<Entry>, payload: string -> Event, n: nat)
    requires Clashless(Decisions(entries)) && PayloadsFit(Decisions(entries), payload) && n < |entries|
    ensures Clashless(Decisions(entries[..n]) + entries[n].decisions)
    ensures PayloadsFit(entries[n].decisions, payload)
  {
    DecisionsExtend(entries, n);
    DecisionsPrefix(entries, n + 1);
    FitsWithin(Decisions(entries), Decisions(entries[..n + 1]), Decisions(entries[..n]), entries[n].decisions, payload);
  }

  lemma FitsWithin(all: seq<Decision>, upTo: seq<Decision>, before: seq<Decision>, next: seq<Decision>,
                   payload: string -> Event)
    requires Clashless(all) && PayloadsFit(all, payload)
    requires |upTo| <= |all| && all[..|upTo|] == upTo && upTo == before + next
    ensures Clashless(before + next) && PayloadsFit(next, payload)
  {
    ClashlessPrefix(all, |upTo|);
    forall k | 0 <= k < |next| ensures next[k] == all[|before| + k] {
      assert upTo[|before| + k] == all[..|upTo|][|before| + k];
    }
  }

  /** What the chain promises about the decisions of its next block. */
  lemma NextDecisions(validate: Validator, chain: seq<SourceBlock>, owner: string -> string, n: nat)
    requires OwnsBatches(validate, owner)
    requires n < |chain| && ForBlock(chain[n].block, chain[n].operations)
    ensures var decisions := EntryOf(validate, chain[n]).decisions;
            && ValidateOperations(validate, chain[n].block, chain[n].operations) == Success(decisions)
            && AllOwned(owner, decisions)
            && (forall k :: 0 <= k < |decisions| ==> decisions[k].operation.blockNumber == chain[n].block.number)
  {
    ValidatesIffForBlock(validate, chain[n].block, chain[n].operations);
    DecisionsOwned(validate, owner, chain[n].block, chain[n].operations);
  }

  /** The gate of `ApplyBlock` is open for a new block that links to the tip. */
  lemma GateOpens(t: Tables, entries: seq<Entry>, owner: string -> string, block: Block, decisions: seq<Decision>)
    requires Represents(t, entries, owner)
    requires block.number == |entries| + 1
    requires entries != [] ==> block.previousId == entries[|entries| - 1].block.id
    requires !RecordsBlockId(t.checkpoints, block.id)
    requires InsertOperations(t.(checkpoints := t.checkpoints + [Checkpoint(block, Included)]), |t.checkpoints|,
                              decisions).Success?
    ensures ApplyBlock(t, block, decisions).Success?
    ensures ApplyBlock(t, block, decisions).value.bindings
         == InsertOperations(t.(checkpoints := t.checkpoints + [Checkpoint(block, Included)]), |t.checkpoints|,
                             decisions).value.bindings
  {
    CursorIsTip(t, entries, owner);
  }

  lemma ApplyFits(t: Tables, before: seq<Entry>, block: Block, decisions: seq<Decision>, owner: string -> string,
                  payload: string -> Event)
    requires Represents(t, before, owner)
    requires block.number == |before| + 1
    requires before != [] ==> block.previousId == before[|before| - 1].block.id
    requires !RecordsBlockId(t.checkpoints, block.id)
    requires AllOwned(owner, decisions)
    requires forall k :: 0 <= k < |decisions| ==> decisions[k].operation.blockNumber == block.number
    requires Clashless(Decisions(before) + decisions)
    requires BindingsFit(t.bindings, payload) && PayloadsFit(decisions, payload)
    ensures var applied := ApplyBlock(t, block, decisions);
            && applied.Success?
            && Represents(applied.value, before + [Entry(block, decisions)], owner)
            && BindingsFit(applied.value.bindings, payload)
            && applied.value.checkpoints == t.checkpoints + [Checkpoint(block, Included)]
            && applied.value.lastIrreversible == t.lastIrreversible && applied.value.view == t.view
  {
    OpenBlockKeeps(t, before, block, owner);
    var extended := t.(checkpoints := t.checkpoints + [Checkpoint(block, Included)]);
    var filled := InsertAllSucceeds(extended, before, block, decisions, owner, payload);
    GateOpens(t, before, owner, block, decisions);
    ApplyAppends(t, before, block, decisions, owner);
  }

  lemma NewAboveNext(checkpoints: seq<Checkpoint>, chain: seq<SourceBlock>, n: nat)
    requires NewAbove(checkpoints, chain, n) && n < |chain|
    requires forall i, j :: 0 <= i < j < |chain| ==> chain[i].block.id != chain[j].block.id
    ensures !RecordsBlockId(checkpoints, chain[n].block.id)
    ensures NewAbove(checkpoints + [Checkpoint(chain[n].block, Included)], chain, n + 1)
  {
  }

  lemma PlanGrows(validate: Validator, chain: seq<SourceBlock>, n: nat)
    requires ChainLinked(chain) && n < |chain|
    ensures var entries, entry := EntriesOf(validate, chain), EntryOf(validate, chain[n]);
            && entries[..n] + [entry] == entries[..n + 1]
            && entry == entries[n] && entry == Entry(chain[n].block, entry.decisions)
            && |entries[..n]| == n
            && (n > 0 ==> chain[n].block.previousId == entries[..n][n - 1].block.id)
  {
    assert n > 0 ==> LinksDown(chain, n);
  }

  /** The next block of the chain is accepted, and the store stays aligned with the chain. */
  lemma ApplySucceeds(validate: Validator, chain: seq<SourceBlock>, owner: string -> string,
                      payload: string -> Event, t: Tables, n: nat)
    requires Projectable(validate, chain, owner, payload)
    requires Aligned(validate, chain, owner, payload, t, n) && n < |chain|
    ensures var applied := ApplyBlock(t, chain[n].block, EntryOf(validate, chain[n]).decisions);
            && applied.Success?
            && Aligned(validate, chain, owner, payload, applied.value, n + 1)
            && applied.value.lastIrreversible == t.lastIrreversible
  {
    EntryFits(EntriesOf(validate, chain), payload, n);
    NextDecisions(validate, chain, owner, n);
    NewAboveNext(t.checkpoints, chain, n);
    PlanGrows(validate, chain, n);
    ApplyFits(t, EntriesOf(validate, chain)[..n], chain[n].block, EntryOf(validate, chain[n]).decisions, owner,
              payload);
  }

  // ---- One cycle over an invariant ----------------------------------------------------------------

  type Holds = (Tables, nat) -> bool

  function CursorAt(chain: seq<SourceBlock>, n: nat, irreversible: nat): Cursor
    requires n <= |chain|
  {
    Cursor(n, if n == 0 then None else Some(chain[n - 1].block.id), irreversible)
  }

  /** The store takes block `n + 1` of the chain and then holds one block more. */
  predicate TakesBlock(p: Projector, chain: seq<SourceBlock>, holds: Holds, t: Tables, n: nat)
    requires n < |chain|
  {
    var decisions := ValidateOperations(p.validate, chain[n].block, chain[n].operations);
    && decisions.Success?
    && var applied := ApplyBlock(t, chain[n].block, decisions.value);
    && applied.Success? && holds(applied.value, n + 1)
    && applied.value.lastIrreversible == t.lastIrreversible
  }

  predicate ShowsBlock(chain: seq<SourceBlock>, t: Tables, n: nat)
    requires 1 <= n <= |chain|
  {
    var stored := CurrentCheckpoint(t.checkpoints, n);
    stored.Some? && stored.value.block == chain[n - 1].block
  }

  predicate FinalizesTo(data: LocalData, holds: Holds, t: Tables, n: nat, number: nat, now: nat) {
    var finalized := FinalizeThrough(data, t, number, now);
    && finalized.Success? && holds(finalized.value, n)
    && finalized.value.lastIrreversible == Max(t.lastIrreversible, number)
  }

  /** `holds(t, n)`: the store `t` has the first `n` blocks of the chain, and can go on from there. */
  ghost predicate Carries(data: LocalData, p: Projector, chain: seq<SourceBlock>, holds: Holds) {
    && (forall t: Tables, n: nat :: holds(t, n) ==>
          n <= |chain| && GetCursor(t) == CursorAt(chain, n, t.lastIrreversible))
    && (forall t: Tables, n: nat, m: nat {:trigger holds(t, n), ShowsBlock(chain, t, m)} ::
          holds(t, n) && 1 <= m <= n && n <= |chain| ==> ShowsBlock(chain, t, m))
    && (forall t: Tables, n: nat {:trigger TakesBlock(p, chain, holds, t, n)} ::
          holds(t, n) && n < |chain| ==> TakesBlock(p, chain, holds, t, n))
    && (forall t: Tables, n: nat, number: nat, now: nat {:trigger FinalizesTo(data, holds, t, n, number, now)} ::
          holds(t, n) && number <= n ==>
          FinalizesTo(data, holds, t, n, number, now))
  }

  predicate OnChain(chain: seq<SourceBlock>, holds: Holds, progress: Progress, n: nat) {
    && n <= |chain| && holds(progress.tables, n)
    && progress.cursor == CursorAt(chain, n, progress.tables.lastIrreversible)
    && progress.outcome == Success(None)
  }

  function BlocksBetween(chain: seq<SourceBlock>, low: nat, high: nat): (blocks: seq<Block>)
    requires low <= high <= |chain|
    ensures |blocks| == high - low
    ensures forall i :: 0 <= i < high - low ==> blocks[i] == chain[low + i].block
  {
    seq(high - low, i requires 0 <= i < high - low => chain[low + i].block)
  }

  lemma {:induction false} SnapshotIsChain(source: Source, chain: seq<SourceBlock>, at: nat, low: nat, high: nat)
    requires low <= high <= |chain|
    requires forall at: nat, n: nat :: 1 <= n <= |chain| ==> source.block(at, n) == Success(chain[n - 1].block)
    requires forall i :: 0 <= i < |chain| ==> chain[i].block.number == i + 1
    requires ChainLinked(chain)
    ensures ReadSnapshot(source, at, low + 1, high).answer == Success(BlocksBetween(chain, low, high))
  {
    if low < high {
      SnapshotIsChain(source, chain, at, low, high - 1);
      assert high > 1 ==> LinksDown(chain, high - 1);
      assert BlocksBetween(chain, low, high) == BlocksBetween(chain, low, high - 1) + [chain[high - 1].block];
    } else {
      assert BlocksBetween(chain, low, high) == [];
    }
  }

  lemma ApplyNextOnChain(data: LocalData, p: Projector, chain: seq<SourceBlock>, holds: Holds, progress: Progress,
                         operations: seq<Operation>, n: nat)
    requires Carries(data, p, chain, holds) && ChainLinked(chain)
    requires OnChain(chain, holds, progress, n) && n < |chain| && chain[n].block.number == n + 1
    requires OperationsAt(operations, n + 1) == chain[n].operations
    ensures var after := ApplyNext(p, progress, operations, chain[n].block);
            && OnChain(chain, holds, after, n + 1)
            && after.tables.lastIrreversible == progress.tables.lastIrreversible
            && after.applied == progress.applied + 1
  {
    assert n > 0 ==> LinksDown(chain, n);
    assert TakesBlock(p, chain, holds, progress.tables, n);
  }

  /** Reading what follows height `low` yields that part of the chain, with the operations of each block. */
  lemma NextIsChain(p: Projector, chain: seq<SourceBlock>, lib: Lib, at: nat, low: nat, high: nat)
    requires Serves(p.source, chain, lib) && ChainLinked(chain)
    requires forall i :: 0 <= i < |chain| ==> chain[i].block.number == i + 1
    requires low < high <= |chain|
    ensures var next := ReadNext(p.source, at, low + 1, high).answer;
            && next.Success? && next.value.blocks == BlocksBetween(chain, low, high)
            && GivesOperations(next.value.operations, chain, low, high)
  {
    SnapshotIsChain(p.source, chain, at, low, high);
    var before := ReadSnapshot(p.source, at, low + 1, high);
    SnapshotIsChain(p.source, chain, before.count + 1, low, high);
    assert Lists(p.source.operations(before.count, low + 1, high), chain, low + 1, high);
  }

  predicate GivesOperations(operations: seq<Operation>, chain: seq<SourceBlock>, low: nat, high: nat) {
    high <= |chain| && forall n :: low < n <= high ==> OperationsAt(operations, n) == chain[n - 1].operations
  }

  /** The progress `after` is `n` blocks further than `start`, which stood at height `low`. */
  predicate Further(chain: seq<SourceBlock>, holds: Holds, start: Progress, low: nat, n: nat, after: Progress) {
    && OnChain(chain, holds, after, low + n)
    && after.tables.lastIrreversible == start.tables.lastIrreversible
    && after.applied == start.applied + n
  }

  lemma {:induction false} ApplyBlocksOnChain(data: LocalData, p: Projector, chain: seq<SourceBlock>, holds: Holds,
                                              start: Progress, next: Next, low: nat, high: nat, n: nat)
    requires Carries(data, p, chain, holds) && ChainLinked(chain)
    requires forall i :: 0 <= i < |chain| ==> chain[i].block.number == i + 1
    requires low <= high <= |chain| && OnChain(chain, holds, start, low) && n <= |next.blocks|
    requires next.blocks == BlocksBetween(chain, low, high) && GivesOperations(next.operations, chain, low, high)
    ensures Further(chain, holds, start, low, n, ApplyBlocks(p, start, next.operations, next.blocks, n))
  {
    if n > 0 {
      ApplyBlocksOnChain(data, p, chain, holds, start, next, low, high, n - 1);
      OneMoreOnChain(data, p, chain, holds, start, next.operations, next.blocks, low, n - 1);
    }
  }

  lemma OneMoreOnChain(data: LocalData, p: Projector, chain: seq<SourceBlock>, holds: Holds, start: Progress,
                       operations: seq<Operation>, blocks: seq<Block>, low: nat, n: nat)
    requires Carries(data, p, chain, holds) && ChainLinked(chain)
    requires low + n < |chain| && chain[low + n].block.number == low + n + 1
    requires n < |blocks| && blocks[n] == chain[low + n].block
    requires OperationsAt(operations, low + n + 1) == chain[low + n].operations
    requires Further(chain, holds, start, low, n, ApplyBlocks(p, start, operations, blocks, n))
    ensures Further(chain, holds, start, low, n + 1, ApplyBlocks(p, start, operations, blocks, n + 1))
  {
    ApplyNextOnChain(data, p, chain, holds, ApplyBlocks(p, start, operations, blocks, n), operations, low + n);
  }

  /** The progress `after` reached the height `high` of the chain from `low`, where the store was `t`. */
  predicate Reached(chain: seq<SourceBlock>, holds: Holds, t: Tables, low: nat, high: nat, after: Progress)
    requires low <= high
  {
    && OnChain(chain, holds, after, high)
    && after.tables.lastIrreversible == t.lastIrreversible
    && after.applied == high - low
    && (low == high ==> after.tables == t)
  }

  lemma ApplyAllOnChain(data: LocalData, p: Projector, chain: seq<SourceBlock>, holds: Holds, start: Progress,
                        next: Next, low: nat, high: nat, after: Progress)
    requires Carries(data, p, chain, holds) && ChainLinked(chain)
    requires forall i :: 0 <= i < |chain| ==> chain[i].block.number == i + 1
    requires low < high <= |chain| && OnChain(chain, holds, start, low) && start.applied == 0
    requires next.blocks == BlocksBetween(chain, low, high) && GivesOperations(next.operations, chain, low, high)
    requires after == ApplyBlocks(p, start, next.operations, next.blocks, |next.blocks|)
    ensures Reached(chain, holds, start.tables, low, high, after)
  {
    ApplyBlocksOnChain(data, p, chain, holds, start, next, low, high, high - low);
  }

  lemma AdvanceOnChain(data: LocalData, p: Projector, chain: seq<SourceBlock>, lib: Lib, holds: Holds, t: Tables,
                       low: nat, high: nat, at: nat, after: Progress)
    requires Carries(data, p, chain, holds) && Serves(p.source, chain, lib) && ChainLinked(chain)
    requires forall i :: 0 <= i < |chain| ==> chain[i].block.number == i + 1
    requires low <= high <= |chain| && holds(t, low)
    requires after == Advance(p, t, GetCursor(t), high, at)
    ensures Reached(chain, holds, t, low, high, after)
  {
    if low < high {
      NextIsChain(p, chain, lib, at, low, high);
      var next := ReadNext(p.source, at, low + 1, high);
      ApplyAllOnChain(data, p, chain, holds, Progress(t, GetCursor(t), 0, next.count, Success(None)),
                      next.answer.value, low, high, after);
    }
  }

  /** The irreversible block the node reports lies on the chain. */
  predicate OnTheChain(lib: Lib, chain: seq<SourceBlock>) {
    lib.number <= |chain| && (lib.number > 0 ==> lib.id == Some(chain[lib.number - 1].block.id))
  }

  /** The source and the store agree on the block to finalise. */
  lemma FinalityAgrees(source: Source, chain: seq<SourceBlock>, lib: Lib, t: Tables, number: nat, at: nat)
    requires Serves(source, chain, lib) && OnTheChain(lib, chain)
    requires 0 < number <= lib.number && ShowsBlock(chain, t, number)
    ensures AssertFinality(source, t, lib, number, |chain|, at).answer == Success(())
  {
    assert source.block(at, lib.number) == Success(chain[lib.number - 1].block);
    assert source.block(at + 1, number) == Success(chain[number - 1].block);
  }

  lemma ConcludeOnChain(data: LocalData, p: Projector, chain: seq<SourceBlock>, lib: Lib, holds: Holds,
                        progress: Progress, n: nat, now: nat)
    requires Carries(data, p, chain, holds) && Serves(p.source, chain, lib) && OnTheChain(lib, chain)
    requires OnChain(chain, holds, progress, n)
    ensures var c := Conclude(data, p, progress, lib, |chain|, now);
            && c.result == Success(RunResult(progress.applied, c.tables.lastIrreversible, None, |chain|))
            && holds(c.tables, n)
            && c.tables.lastIrreversible == Max(progress.tables.lastIrreversible, Min(lib.number, n))
            && (Min(lib.number, n) <= progress.tables.lastIrreversible ==> c.tables == progress.tables)
  {
    var t := progress.tables;
    var finalizable := Min(lib.number, n);
    if finalizable > t.lastIrreversible {
      assert ShowsBlock(chain, t, finalizable);
      FinalityAgrees(p.source, chain, lib, t, finalizable, progress.count);
      assert FinalizesTo(data, holds, t, n, finalizable, now);
    }
    var c := ConcludeEnds(data, p, progress, lib, |chain|, now);
  }

  /** The two ways to conclude without an error. */
  lemma ConcludeEnds(data: LocalData, p: Projector, progress: Progress, lib: Lib, head: nat, now: nat)
    returns (c: Outcome)
    ensures c == Conclude(data, p, progress, lib, head, now)
    ensures var finalizable := Min(lib.number, progress.cursor.lastProcessed);
            var result := RunResult(progress.applied, Max(progress.cursor.lastIrreversible, finalizable), None, head);
            && (finalizable <= progress.cursor.lastIrreversible ==>
                  c.tables == progress.tables && c.result == Success(result))
            && (finalizable > progress.cursor.lastIrreversible
                && Success(()) ==
                   AssertFinality(p.source, progress.tables, lib, finalizable, head, progress.count).answer
                && FinalizeThrough(data, progress.tables, finalizable, now).Success? ==>
                  && c.tables == FinalizeThrough(data, progress.tables, finalizable, now).value
                  && c.result == Success(result))
  {
    c := Conclude(data, p, progress, lib, head, now);
  }

  /** The cycle applied the next blocks, as many as allowed, and finalised what it could. */
  predicate TakesNext(p: Projector, chain: seq<SourceBlock>, lib: Lib, holds: Holds, t: Tables, n: nat, c: Outcome)
    requires n <= |chain|
  {
    var m := Min(|chain|, n + p.maxBlocksPerRun);
    && c.result == Success(RunResult(m - n, c.tables.lastIrreversible, None, |chain|))
    && holds(c.tables, m)
    && c.tables.lastIrreversible == Max(t.lastIrreversible, Min(lib.number, m))
    && (m == n && Min(lib.number, m) <= t.lastIrreversible ==> c.tables == t)
  }

  lemma ExtendOnChain(data: LocalData, p: Projector, chain: seq<SourceBlock>, lib: Lib, holds: Holds, t: Tables,
                      n: nat, now: nat, at: nat, c: Outcome)
    requires Carries(data, p, chain, holds) && Serves(p.source, chain, lib) && ChainLinked(chain)
    requires forall i :: 0 <= i < |chain| ==> chain[i].block.number == i + 1
    requires OnTheChain(lib, chain) && holds(t, n)
    requires c == Extend(data, p, t, GetCursor(t), lib, |chain|, now, at)
    ensures n <= |chain| && TakesNext(p, chain, lib, holds, t, n, c)
  {
    var m := Min(|chain|, n + p.maxBlocksPerRun);
    var advanced := ExtendAdvances(data, p, chain, lib, holds, t, n, m, now, at, c);
    FinishOnChain(data, p, chain, lib, holds, t, n, m, advanced, now, c);
  }

  lemma ExtendAdvances(data: LocalData, p: Projector, chain: seq<SourceBlock>, lib: Lib, holds: Holds, t: Tables,
                       n: nat, m: nat, now: nat, at: nat, c: Outcome)
    returns (advanced: Progress)
    requires Carries(data, p, chain, holds) && Serves(p.source, chain, lib) && ChainLinked(chain)
    requires forall i :: 0 <= i < |chain| ==> chain[i].block.number == i + 1
    requires holds(t, n) && n <= m && m == Min(|chain|, n + p.maxBlocksPerRun)
    requires c == Extend(data, p, t, GetCursor(t), lib, |chain|, now, at)
    ensures Reached(chain, holds, t, n, m, advanced) && c == Finish(data, p, advanced, lib, |chain|, now)
  {
    assert GetCursor(t).lastProcessed == n;
    advanced := ExtendFinishes(data, p, t, GetCursor(t), lib, |chain|, now, at, m);
    AdvanceOnChain(data, p, chain, lib, holds, t, n, m, at, advanced);
  }

  lemma ExtendFinishes(data: LocalData, p: Projector, t: Tables, cursor: Cursor, lib: Lib, head: nat, now: nat, at: nat,
                       m: nat)
    returns (advanced: Progress)
    requires m == Min(head, cursor.lastProcessed + p.maxBlocksPerRun)
    ensures advanced == Advance(p, t, cursor, m, at)
    ensures Extend(data, p, t, cursor, lib, head, now, at) == Finish(data, p, advanced, lib, head, now)
  {
    advanced := Advance(p, t, cursor, m, at);
  }

  lemma FinishOnChain(data: LocalData, p: Projector, chain: seq<SourceBlock>, lib: Lib, holds: Holds, t: Tables,
                      n: nat, m: nat, advanced: Progress, now: nat, c: Outcome)
    requires Carries(data, p, chain, holds) && Serves(p.source, chain, lib) && OnTheChain(lib, chain)
    requires n <= |chain| && m == Min(|chain|, n + p.maxBlocksPerRun) && Reached(chain, holds, t, n, m, advanced)
    requires c == Finish(data, p, advanced, lib, |chain|, now)
    ensures TakesNext(p, chain, lib, holds, t, n, c)
  {
    ConcludeOnChain(data, p, chain, lib, holds, advanced, m, now);
  }

  /** One cycle of a store on the chain: it takes the next blocks, finalises, and stays on the chain. */
  lemma CycleOnChain(data: LocalData, p: Projector, chain: seq<SourceBlock>, lib: Lib, holds: Holds, t: Tables,
                     n: nat, now: nat, at: nat)
    requires Carries(data, p, chain, holds) && Serves(p.source, chain, lib) && ChainLinked(chain)
    requires forall i :: 0 <= i < |chain| ==> chain[i].block.number == i + 1
    requires OnTheChain(lib, chain) && holds(t, n)
    ensures n <= |chain|
    ensures TakesNext(p, chain, lib, holds, t, n, Cycle(data, p, t, now, at))
  {
    var tip := VerifyTip(p, t, GetCursor(t), at + 2);
    assert p.source.head(at) == Success(|chain|) && p.source.lib(at + 1) == Success(lib);
    assert n > 0 ==> p.source.block(at + 2, n) == Success(chain[n - 1].block);
    assert tip.tables == t && tip.outcome == Success(None);
    ExtendOnChain(data, p, chain, lib, holds, t, n, now, tip.count, Cycle(data, p, t, now, at));
  }

  // ---- The store on the chain is such an invariant --------------------------------------------------

  /** Only bound events are materialised, and those are honest. */
  lemma {:induction false} SelectedAreHonest(checkpoints: seq<Checkpoint>, rows: seq<Row>,
                                             bindings: map<string, Binding>, owner: string -> string,
                                             payload: string -> Event, number: nat, now: nat, k: nat)
    requires BindingsAgree(rows, bindings, owner) && BindingsFit(bindings, payload) && k <= |rows|
    ensures forall x :: x in Selected(checkpoints, rows[..k], bindings, number, now) && x.bound ==>
              IsHonest(x.event, payload)
  {
    if k > 0 {
      var n := k - 1;
      SelectedAreHonest(checkpoints, rows, bindings, owner, payload, number, now, n);
      assert rows[..k][..n] == rows[..n];
      if IsSelected(checkpoints, rows[n], number, now) {
        var id := rows[n].decision.verdict.event.id;
        assert id in bindings ==> BindingAgrees(rows, id, bindings[id], owner);
      }
    }
  }

  lemma {:induction false} BoundAreHonest(items: seq<Item>, payload: string -> Event)
    requires forall x :: x in items && x.bound ==> IsHonest(x.event, payload)
    ensures forall i :: 0 <= i < |BoundEvents(items)| ==> IsHonest(BoundEvents(items)[i], payload)
  {
    if items != [] {
      var n := |items| - 1;
      assert items == items[..n] + [items[n]] && items[n] in items;
      BoundAreHonest(items[..n], payload);
    }
  }

  lemma FinalizedAreHonest(t: Tables, owner: string -> string, payload: string -> Event, number: nat, now: nat)
    requires BindingsAgree(t.rows, t.bindings, owner) && RowsStand(t.checkpoints, t.rows)
    requires BindingsFit(t.bindings, payload)
    ensures forall i :: 0 <= i < |FinalizedNow(t, number, now)| ==> IsHonest(FinalizedNow(t, number, now)[i], payload)
  {
    var rows, bindings := FinalizeRows(t.checkpoints, t.rows, number, now), FinalizeBindings(t, number);
    BindingsFinalized(t, owner, number, now);
    assert rows[..|rows|] == rows;
    SelectedAreHonest(t.checkpoints, rows, bindings, owner, payload, number, now, |rows|);
    var items := Selected(t.checkpoints, rows, bindings, number, now);
    OrderedSorts(items);
    BoundAreHonest(Ordered(items), payload);
  }

  lemma FinalizeKeepsFit(data: LocalData, t: Tables, chain: seq<SourceBlock>, payload: string -> Event, n: nat,
                         number: nat, now: nat)
    requires BindingsFit(t.bindings, payload) && NewAbove(t.checkpoints, chain, n)
    requires FinalizeThrough(data, t, number, now).Success?
    ensures BindingsFit(FinalizeThrough(data, t, number, now).value.bindings, payload)
    ensures NewAbove(FinalizeThrough(data, t, number, now).value.checkpoints, chain, n)
  {
    var after := FinalizeThrough(data, t, number, now).value;
    forall k | 0 <= k < |after.checkpoints| ensures after.checkpoints[k].block == t.checkpoints[k].block {
    }
  }

  lemma AlignedFinalizes(data: LocalData, validate: Validator, chain: seq<SourceBlock>, owner: string -> string,
                         payload: string -> Event, t: Tables, n: nat, number: nat, now: nat)
    requires Aligned(validate, chain, owner, payload, t, n) && number <= n
    ensures FinalizeThrough(data, t, number, now).Success?
    ensures Aligned(validate, chain, owner, payload, FinalizeThrough(data, t, number, now).value, n)
    ensures FinalizeThrough(data, t, number, now).value.lastIrreversible == Max(t.lastIrreversible, number)
  {
    FinalizedAreHonest(t, owner, payload, number, now);
    HonestAreAccepted(data, t.view, FinalizedNow(t, number, now), payload);
    FinalizeRaises(data, t, EntriesOf(validate, chain)[..n], number, now, owner);
    FinalizeKeepsFit(data, t, chain, payload, n, number, now);
  }

  lemma AlignedShows(validate: Validator, chain: seq<SourceBlock>, owner: string -> string,
                     payload: string -> Event, t: Tables, n: nat)
    requires Aligned(validate, chain, owner, payload, t, n)
    ensures GetCursor(t) == CursorAt(chain, n, t.lastIrreversible)
    ensures forall m :: 1 <= m <= n ==> ShowsBlock(chain, t, m)
  {
    CursorIsTip(t, EntriesOf(validate, chain)[..n], owner);
  }

  /** Being aligned with a projectable chain is an invariant cycles can live on. */
  lemma AlignedCarries(data: LocalData, p: Projector, chain: seq<SourceBlock>, owner: string -> string,
                       payload: string -> Event, holds: Holds)
    requires Projectable(p.validate, chain, owner, payload)
    requires forall t: Tables, n: nat {:trigger holds(t, n)} ::
               holds(t, n) <==> Aligned(p.validate, chain, owner, payload, t, n)
    ensures Carries(data, p, chain, holds)
  {
    forall t: Tables, n: nat | holds(t, n)
      ensures n <= |chain| && GetCursor(t) == CursorAt(chain, n, t.lastIrreversible)
      ensures forall m :: 1 <= m <= n ==> ShowsBlock(chain, t, m)
    {
      AlignedShows(p.validate, chain, owner, payload, t, n);
    }
    forall t: Tables, n: nat | holds(t, n) && n < |chain| ensures TakesBlock(p, chain, holds, t, n) {
      NextDecisions(p.validate, chain, owner, n);
      ApplySucceeds(p.validate, chain, owner, payload, t, n);
    }
    forall t: Tables, n: nat, number: nat, now: nat | holds(t, n) && number <= n
      ensures FinalizesTo(data, holds, t, n, number, now)
    {
      AlignedFinalizes(data, p.validate, chain, owner, payload, t, n, number, now);
    }
  }

  // ---- Convergence --------------------------------------------------------------------------------

  /**
   A store the source has forked away from, but not too far: ids identify blocks, the store and the
   chain agree through the irreversible height, and the fork is within the allowed depth.
   */
  ghost predicate Forked(p: Projector, chain: seq<SourceBlock>, owner: string -> string, payload: string -> Event,
                         t: Tables, entries: seq<Entry>)
  {
    var common := Agreement(entries, chain, |entries|);
    && |entries| <= |chain| && Represents(t, entries, owner)
    && BindingsFit(t.bindings, payload) && ViewFits(t.view, payload)
    && CollisionFree(entries, EntriesOf(p.validate, chain))
    && t.lastIrreversible <= common
    && LowerBound(|entries|, p.maxReorgDepth) <= common
  }

  /** Besides, the blocks above the fork are new to the store. */
  ghost predicate Recoverable(p: Projector, chain: seq<SourceBlock>, owner: string -> string,
                              payload: string -> Event, t: Tables, entries: seq<Entry>)
  {
    && Forked(p, chain, owner, payload, t, entries)
    && NewAbove(t.checkpoints, chain, Agreement(entries, chain, |entries|))
  }

  /** With collision-free ids the greatest common height is the longest common prefix. */
  lemma AgreementIsLongestPrefix(validate: Validator, chain: seq<SourceBlock>, entries: seq<Entry>, n: nat)
    requires |entries| <= |chain| && CollisionFree(entries, EntriesOf(validate, chain))
    ensures var common := Agreement(entries, chain, |entries|);
            && IsCommonPrefix(entries, EntriesOf(validate, chain), common)
            && (IsCommonPrefix(entries, EntriesOf(validate, chain), n) ==> n <= common)
  {
    PlanAgreesLongest(chain, entries, EntriesOf(validate, chain), n);
  }

  lemma PlanAgreesLongest(chain: seq<SourceBlock>, entries: seq<Entry>, plan: seq<Entry>, n: nat)
    requires |entries| <= |chain| == |plan| && CollisionFree(entries, plan)
    requires forall i :: 0 <= i < |chain| ==> plan[i].block == chain[i].block
    ensures IsCommonPrefix(entries, plan, Agreement(entries, chain, |entries|))
    ensures IsCommonPrefix(entries, plan, n) ==> n <= Agreement(entries, chain, |entries|)
  {
    if n > 0 && IsCommonPrefix(entries, plan, n) {
      CommonIsSame(chain, entries, plan, n);
    }
  }

  lemma CommonIsSame(chain: seq<SourceBlock>, entries: seq<Entry>, plan: seq<Entry>, n: nat)
    requires |plan| == |chain| && 0 < n && IsCommonPrefix(entries, plan, n)
    requires forall i :: 0 <= i < |chain| ==> plan[i].block == chain[i].block
    ensures SameId(entries, chain, n)
  {
    assert entries[n - 1] == entries[..n][n - 1] && plan[n - 1] == plan[..n][n - 1];
  }

  /** A store at or below the fork is on the chain already. */
  lemma UnforkedIsOnChain(p: Projector, chain: seq<SourceBlock>, owner: string -> string, payload: string -> Event,
                          t: Tables, entries: seq<Entry>)
    requires Forked(p, chain, owner, payload, t, entries)
    requires Agreement(entries, chain, |entries|) == |entries|
    ensures Represents(t, EntriesOf(p.validate, chain)[..|entries|], owner)
  {
    AgreementIsLongestPrefix(p.validate, chain, entries, 0);
    assert entries[..|entries|] == entries;
  }

  predicate SameBlocks(a: seq<Checkpoint>, b: seq<Checkpoint>) {
    |a| == |b| && forall i :: 0 <= i < |a| ==> b[i].block == a[i].block
  }

  /** `after` is the store `t` cut back to the fork at height `n`; what was recorded stays recorded. */
  ghost predicate CutBack(validate: Validator, chain: seq<SourceBlock>, owner: string -> string,
                          payload: string -> Event, t: Tables, n: nat, after: Tables)
  {
    && n <= |chain| && Represents(after, EntriesOf(validate, chain)[..n], owner)
    && BindingsFit(after.bindings, payload) && ViewFits(after.view, payload)
    && after.lastIrreversible == t.lastIrreversible && SameBlocks(t.checkpoints, after.checkpoints)
  }

  lemma CutBackAligns(validate: Validator, chain: seq<SourceBlock>, owner: string -> string, payload: string -> Event,
                      t: Tables, n: nat, after: Tables)
    requires CutBack(validate, chain, owner, payload, t, n, after) && NewAbove(t.checkpoints, chain, n)
    ensures Aligned(validate, chain, owner, payload, after, n)
  {
  }

  lemma RevertCutsBack(p: Projector, chain: seq<SourceBlock>, owner: string -> string, payload: string -> Event,
                       t: Tables, entries: seq<Entry>)
    requires Forked(p, chain, owner, payload, t, entries)
    ensures var common := Agreement(entries, chain, |entries|);
            && RevertAfter(t, common).Success?
            && CutBack(p.validate, chain, owner, payload, t, common, RevertAfter(t, common).value)
  {
    var common := Agreement(entries, chain, |entries|);
    AgreementIsLongestPrefix(p.validate, chain, entries, 0);
    assert entries[..common] == EntriesOf(p.validate, chain)[..common];
    RevertCuts(t, entries, common, owner);
  }

  /** The one rollback cycle: a forked store goes back to the fork and is then on the chain. */
  lemma CycleRollsBack(data: LocalData, p: Projector, chain: seq<SourceBlock>, lib: Lib, owner: string -> string,
                       payload: string -> Event, t: Tables, entries: seq<Entry>, now: nat, at: nat)
    requires Serves(p.source, chain, lib) && Forked(p, chain, owner, payload, t, entries)
    requires Agreement(entries, chain, |entries|) < |entries|
    ensures var c, common := Cycle(data, p, t, now, at), Agreement(entries, chain, |entries|);
            && c.result == Success(RunResult(0, t.lastIrreversible, Some(common), |chain|))
            && CutBack(p.validate, chain, owner, payload, t, common, c.tables)
  {
    CursorIsTip(t, entries, owner);
    RevertCutsBack(p, chain, owner, payload, t, entries);
    ReconcileFindsAgreement(p.source, chain, lib, t, entries, owner, p.maxReorgDepth, at + 3);
    ForkIsSeen(p, chain, lib, t, entries, at + 2);
    assert p.source.head(at) == Success(|chain|) && p.source.lib(at + 1) == Success(lib);
    ReconcileKeepsCursor(p, t, at + 3);
  }

  lemma ForkIsSeen(p: Projector, chain: seq<SourceBlock>, lib: Lib, t: Tables, entries: seq<Entry>, at: nat)
    requires Serves(p.source, chain, lib)
    requires |entries| <= |chain| && Agreement(entries, chain, |entries|) < |entries|
    requires GetCursor(t).lastProcessed == |entries|
    requires GetCursor(t).lastId == Some(entries[|entries| - 1].block.id)
    ensures VerifyTip(p, t, GetCursor(t), at)
         == ReconcileFork(p.source, t, GetCursor(t), 0, |entries|, LowerBound(|entries|, p.maxReorgDepth), at + 1)
  {
    assert p.source.block(at, |entries|) == Success(chain[|entries| - 1].block);
    assert !SameId(entries, chain, |entries|);
  }

  lemma ReconcileKeepsCursor(p: Projector, t: Tables, at: nat)
    ensures var cursor := GetCursor(t);
            var after := ReconcileFork(p.source, t, cursor, 0, cursor.lastProcessed,
                                       LowerBound(cursor.lastProcessed, p.maxReorgDepth), at);
            after.outcome.Success? ==> after.cursor == cursor && after.applied == 0
  {
    var cursor := GetCursor(t);
    var lower := LowerBound(cursor.lastProcessed, p.maxReorgDepth);
    if ReconcileFork(p.source, t, cursor, 0, cursor.lastProcessed, lower, at).outcome.Success? {
      ReconcileReverts(p.source, t, cursor, 0, cursor.lastProcessed, lower, at);
    }
  }

  /** The outcome of cycle `k` of a run of cycles. */
  function CycleAt(data: LocalData, p: Projector, start: Point, instants: seq<nat>, k: nat): Outcome
    requires k < |instants|
  {
    var point := After(data, p, start, instants[..k]);
    Cycle(data, p, point.tables, instants[k], point.count)
  }

  /** The height after `k` cycles that start on the chain at height `n`. */
  function Height(p: Projector, chain: seq<SourceBlock>, n: nat, k: nat): nat {
    if k == 0 then n else Min(|chain|, Height(p, chain, n, k - 1) + p.maxBlocksPerRun)
  }

  lemma {:induction false} HeightIsLinear(p: Projector, chain: seq<SourceBlock>, n: nat, k: nat)
    requires n <= |chain|
    ensures Height(p, chain, n, k) == Min(|chain|, n + k * p.maxBlocksPerRun)
  {
    if k > 0 {
      HeightIsLinear(p, chain, n, k - 1);
      assert k * p.maxBlocksPerRun == (k - 1) * p.maxBlocksPerRun + p.maxBlocksPerRun;
    }
  }

  predicate CaughtUp(p: Projector, chain: seq<SourceBlock>, lib: Lib, holds: Holds, t: Tables, n: nat, k: nat,
                     after: Tables)
  {
    && holds(after, Height(p, chain, n, k))
    && after.lastIrreversible ==
       if k == 0 then t.lastIrreversible else Max(t.lastIrreversible, Min(lib.number, Height(p, chain, n, k)))
  }

  lemma CatchesUp(p: Projector, chain: seq<SourceBlock>, lib: Lib, holds: Holds, t: Tables, n: nat, k: nat,
                  before: Tables, c: Outcome)
    requires CaughtUp(p, chain, lib, holds, t, n, k, before) && Height(p, chain, n, k) <= |chain|
    requires TakesNext(p, chain, lib, holds, before, Height(p, chain, n, k), c)
    ensures CaughtUp(p, chain, lib, holds, t, n, k + 1, c.tables) && Advances(c)
  {
    assert Height(p, chain, n, k + 1) == Min(|chain|, Height(p, chain, n, k) + p.maxBlocksPerRun);
  }

  lemma CatchUpStep(data: LocalData, p: Projector, chain: seq<SourceBlock>, lib: Lib, holds: Holds, t: Tables,
                    n: nat, k: nat, point: Point, now: nat)
    requires Carries(data, p, chain, holds) && Serves(p.source, chain, lib) && ChainLinked(chain)
    requires forall i :: 0 <= i < |chain| ==> chain[i].block.number == i + 1
    requires OnTheChain(lib, chain)
    requires CaughtUp(p, chain, lib, holds, t, n, k, point.tables)
    ensures CaughtUp(p, chain, lib, holds, t, n, k + 1, Cycle(data, p, point.tables, now, point.count).tables)
    ensures Advances(Cycle(data, p, point.tables, now, point.count))
  {
    CycleOnChain(data, p, chain, lib, holds, point.tables, Height(p, chain, n, k), now, point.count);
    CatchesUp(p, chain, lib, holds, t, n, k, point.tables, Cycle(data, p, point.tables, now, point.count));
  }

  predicate Advances(c: Outcome) {
    c.result.Success? && c.result.value.revertedTo.None?
  }

  lemma {:induction false} CyclesCatchUp(data: LocalData, p: Projector, chain: seq<SourceBlock>, lib: Lib,
                                         holds: Holds, start: Point, n: nat, instants: seq<nat>)
    requires Carries(data, p, chain, holds) && Serves(p.source, chain, lib) && ChainLinked(chain)
    requires forall i :: 0 <= i < |chain| ==> chain[i].block.number == i + 1
    requires OnTheChain(lib, chain) && holds(start.tables, n)
    ensures CaughtUp(p, chain, lib, holds, start.tables, n, |instants|, After(data, p, start, instants).tables)
  {
    if instants != [] {
      var last := |instants| - 1;
      CyclesCatchUp(data, p, chain, lib, holds, start, n, instants[..last]);
      var point := After(data, p, start, instants[..last]);
      CatchUpStep(data, p, chain, lib, holds, start.tables, n, last, point, instants[last]);
    }
  }

  /** None of the cycles fails or rolls back. */
  lemma CyclesAdvance(data: LocalData, p: Projector, chain: seq<SourceBlock>, lib: Lib, holds: Holds, start: Point,
                      n: nat, instants: seq<nat>, k: nat)
    requires Carries(data, p, chain, holds) && Serves(p.source, chain, lib) && ChainLinked(chain)
    requires forall i :: 0 <= i < |chain| ==> chain[i].block.number == i + 1
    requires OnTheChain(lib, chain) && holds(start.tables, n) && k < |instants|
    ensures Advances(CycleAt(data, p, start, instants, k))
  {
    CyclesCatchUp(data, p, chain, lib, holds, start, n, instants[..k]);
    var point := After(data, p, start, instants[..k]);
    CatchUpStep(data, p, chain, lib, holds, start.tables, n, k, point, instants[k]);
  }

  lemma {:induction false} AfterConcat(data: LocalData, p: Projector, start: Point, a: seq<nat>, b: seq<nat>)
    ensures After(data, p, start, a + b) == After(data, p, After(data, p, start, a), b)
  {
    if b == [] {
      assert a + b == a;
    } else {
      assert (a + b)[..|a + b| - 1] == a + b[..|b| - 1];
      AfterConcat(data, p, start, a, b[..|b| - 1]);
    }
  }

  function Common(chain: seq<SourceBlock>, entries: seq<Entry>): nat {
    Agreement(entries, chain, |entries|)
  }

  /** How many of the cycles are spent on rolling back. */
  function Rollbacks(chain: seq<SourceBlock>, entries: seq<Entry>): nat {
    if Common(chain, entries) < |entries| then 1 else 0
  }

  /** The decision is what the validator says about an operation of the chain. */
  ghost predicate IsVerdictOf(validate: Validator, chain: seq<SourceBlock>, d: Decision) {
    exists n :: 0 <= n < |chain| && IsVerdictOfBlock(validate, chain[n], d)
  }

  predicate IsVerdictOfBlock(validate: Validator, source: SourceBlock, d: Decision) {
    exists i :: 0 <= i < |source.operations| && IsVerdictAt(validate, source.block, source.operations, i, d)
  }

  predicate IsLiveRow(rows: seq<Row>, r: nat, d: Decision) {
    r < |rows| && rows[r].state != Reverted && rows[r].decision == d
  }

  /** The live rows are the verdicts on the operations of the chain: all of them, and nothing else. */
  ghost predicate HoldsVerdicts(validate: Validator, chain: seq<SourceBlock>, t: Tables) {
    forall d: Decision :: (exists r: nat :: IsLiveRow(t.rows, r, d)) <==> IsVerdictOf(validate, chain, d)
  }

  /** The store shows exactly the source's chain, finalised as far as both allow, and has nothing left to do. */
  ghost predicate Settled(data: LocalData, p: Projector, chain: seq<SourceBlock>, lib: Lib, owner: string -> string,
                          irreversible: nat, t: Tables)
  {
    && Represents(t, EntriesOf(p.validate, chain), owner) && HoldsVerdicts(p.validate, chain, t)
    && t.lastIrreversible == Max(irreversible, lib.number)
    && forall now: nat, at: nat :: Idles(t, |chain|, Cycle(data, p, t, now, at))
  }

  predicate Idles(t: Tables, head: nat, c: Outcome) {
    c.tables == t && c.result == Success(RunResult(0, t.lastIrreversible, None, head))
  }

  lemma {:induction false} LiveListedIsRow(rows: seq<Row>, d: Decision) returns (r: nat)
    requires d in LiveDecisions(rows)
    ensures IsLiveRow(rows, r, d)
  {
    var n := |rows| - 1;
    if d in LiveDecisions(rows[..n]) {
      r := LiveListedIsRow(rows[..n], d);
    } else {
      r := n;
    }
  }

  lemma {:induction false} ChainDecisionsIff(validate: Validator, chain: seq<SourceBlock>, d: Decision)
    ensures d in Decisions(EntriesOf(validate, chain)) <==> IsVerdictOf(validate, chain, d)
  {
    if chain != [] {
      var m := |chain| - 1;
      ChainDecisionsIff(validate, chain[..m], d);
      assert EntriesOf(validate, chain)[..m] == EntriesOf(validate, chain[..m]);
      DecidedIff(validate, chain[m].block, chain[m].operations, d);
      VerdictsOfMore(validate, chain, d);
    }
  }

  lemma VerdictsOfMore(validate: Validator, chain: seq<SourceBlock>, d: Decision)
    requires chain != []
    ensures IsVerdictOf(validate, chain, d)
       <==> IsVerdictOf(validate, chain[..|chain| - 1], d) || IsVerdictOfBlock(validate, chain[|chain| - 1], d)
  {
    var m := |chain| - 1;
    if IsVerdictOf(validate, chain[..m], d) {
      var n :| 0 <= n < m && IsVerdictOfBlock(validate, chain[..m][n], d);
      assert chain[n] == chain[..m][n];
    }
    if IsVerdictOf(validate, chain, d) {
      var n :| 0 <= n < |chain| && IsVerdictOfBlock(validate, chain[n], d);
      assert n < m ==> chain[..m][n] == chain[n];
    }
  }

  /** A store that represents the chain holds the verdicts on its operations. */
  lemma RepresentsHolds(validate: Validator, chain: seq<SourceBlock>, owner: string -> string, t: Tables)
    requires Represents(t, EntriesOf(validate, chain), owner)
    ensures HoldsVerdicts(validate, chain, t)
  {
    var entries := EntriesOf(validate, chain);
    assert LiveDecisions(t.rows) == Decisions(entries);
    forall d: Decision ensures (exists r: nat :: IsLiveRow(t.rows, r, d)) <==> IsVerdictOf(validate, chain, d) {
      ChainDecisionsIff(validate, chain, d);
      if d in LiveDecisions(t.rows) {
        var r := LiveListedIsRow(t.rows, d);
      }
      if exists r: nat :: IsLiveRow(t.rows, r, d) {
        var r: nat :| IsLiveRow(t.rows, r, d);
        var k := LiveRowIsListed(t.rows, r);
      }
    }
  }

  lemma OnChainSettles(data: LocalData, p: Projector, chain: seq<SourceBlock>, lib: Lib, owner: string -> string,
                       payload: string -> Event, holds: Holds, irreversible: nat, t: Tables)
    requires Projectable(p.validate, chain, owner, payload)
    requires Carries(data, p, chain, holds)
    requires Serves(p.source, chain, lib) && OnTheChain(lib, chain)
    requires holds(t, |chain|) && Aligned(p.validate, chain, owner, payload, t, |chain|)
    requires t.lastIrreversible == Max(irreversible, lib.number)
    ensures Settled(data, p, chain, lib, owner, irreversible, t)
  {
    assert EntriesOf(p.validate, chain)[..|chain|] == EntriesOf(p.validate, chain);
    RepresentsHolds(p.validate, chain, owner, t);
    forall now: nat, at: nat ensures Idles(t, |chain|, Cycle(data, p, t, now, at)) {
      CycleOnChain(data, p, chain, lib, holds, t, |chain|, now, at);
    }
  }

  /** From a store on the chain, enough cycles reach the head. */
  lemma AlignedConverges(data: LocalData, p: Projector, chain: seq<SourceBlock>, lib: Lib, owner: string -> string,
                         payload: string -> Event, start: Point, n: nat, instants: seq<nat>)
    requires Projectable(p.validate, chain, owner, payload)
    requires Serves(p.source, chain, lib) && OnTheChain(lib, chain)
    requires Aligned(p.validate, chain, owner, payload, start.tables, n)
    requires instants != [] && |chain| <= n + |instants| * p.maxBlocksPerRun
    ensures Settled(data, p, chain, lib, owner, start.tables.lastIrreversible, After(data, p, start, instants).tables)
    ensures forall k :: 0 <= k < |instants| ==> Advances(CycleAt(data, p, start, instants, k))
  {
    var holds: Holds := (t: Tables, m: nat) => Aligned(p.validate, chain, owner, payload, t, m);
    AlignedCarries(data, p, chain, owner, payload, holds);
    CyclesCatchUp(data, p, chain, lib, holds, start, n, instants);
    HeightIsLinear(p, chain, n, |instants|);
    OnChainSettles(data, p, chain, lib, owner, payload, holds, start.tables.lastIrreversible,
                   After(data, p, start, instants).tables);
    forall k | 0 <= k < |instants| ensures Advances(CycleAt(data, p, start, instants, k)) {
      CyclesAdvance(data, p, chain, lib, holds, start, n, instants, k);
    }
  }

  predicate FollowsFirst(data: LocalData, p: Projector, start: Point, instants: seq<nat>, next: Point)
    requires instants != []
  {
    var c := Cycle(data, p, start.tables, instants[0], start.count);
    next == Point(c.tables, c.count)
  }

  lemma FirstCycle(data: LocalData, p: Projector, start: Point, instants: seq<nat>, next: Point)
    requires instants != [] && FollowsFirst(data, p, start, instants, next)
    ensures After(data, p, start, instants) == After(data, p, next, instants[1..])
  {
    assert instants[..1][..0] == [];
    assert After(data, p, start, instants[..1]) == next;
    assert instants == instants[..1] + instants[1..];
    AfterConcat(data, p, start, instants[..1], instants[1..]);
  }

  /** A run of cycles without its first one is the run from where that one ended. */
  lemma LaterCycle(data: LocalData, p: Projector, start: Point, instants: seq<nat>, next: Point, k: nat)
    requires 0 < k < |instants| && FollowsFirst(data, p, start, instants, next)
    ensures CycleAt(data, p, start, instants, k) == CycleAt(data, p, next, instants[1..], k - 1)
  {
    FirstCycle(data, p, start, instants[..k], next);
    assert instants[..k][1..] == instants[1..][..k - 1];
  }

  predicate Reports(data: LocalData, p: Projector, start: Point, instants: seq<nat>, k: nat, rollbacks: nat,
                    rolledBack: RunResult)
    requires k < |instants|
  {
    var c := CycleAt(data, p, start, instants, k);
    if k < rollbacks then c.result == Success(rolledBack) else Advances(c)
  }

  lemma ForkedReports(data: LocalData, p: Projector, start: Point, next: Point, instants: seq<nat>, k: nat,
                      rolledBack: RunResult)
    requires k < |instants| && FollowsFirst(data, p, start, instants, next)
    requires CycleAt(data, p, start, instants, 0).result == Success(rolledBack)
    requires forall j :: 0 <= j < |instants| - 1 ==> Advances(CycleAt(data, p, next, instants[1..], j))
    ensures Reports(data, p, start, instants, k, 1, rolledBack)
  {
    if k > 0 {
      LaterCycle(data, p, start, instants, next, k);
      assert Advances(CycleAt(data, p, next, instants[1..], k - 1));
    }
  }

  lemma ForkedConverges(data: LocalData, p: Projector, chain: seq<SourceBlock>, lib: Lib, owner: string -> string,
                        payload: string -> Event, start: Point, next: Point, common: nat, instants: seq<nat>,
                        rolledBack: RunResult)
    requires Projectable(p.validate, chain, owner, payload)
    requires Serves(p.source, chain, lib) && OnTheChain(lib, chain)
    requires |instants| > 1 && |chain| <= common + (|instants| - 1) * p.maxBlocksPerRun
    requires FollowsFirst(data, p, start, instants, next)
    requires CycleAt(data, p, start, instants, 0).result == Success(rolledBack)
    requires Aligned(p.validate, chain, owner, payload, next.tables, common)
    ensures Settled(data, p, chain, lib, owner, next.tables.lastIrreversible, After(data, p, start, instants).tables)
    ensures forall k :: 0 <= k < |instants| ==> Reports(data, p, start, instants, k, 1, rolledBack)
  {
    AlignedConverges(data, p, chain, lib, owner, payload, next, common, instants[1..]);
    FirstCycle(data, p, start, instants, next);
    forall k | 0 <= k < |instants| ensures Reports(data, p, start, instants, k, 1, rolledBack) {
      ForkedReports(data, p, start, next, instants, k, rolledBack);
    }
  }

  /** The cycles report what they should, and leave the store on the chain. */
  ghost predicate Delivers(data: LocalData, p: Projector, chain: seq<SourceBlock>, lib: Lib, owner: string -> string,
                           start: Point, instants: seq<nat>, rollbacks: nat, common: nat)
  {
    && Settled(data, p, chain, lib, owner, start.tables.lastIrreversible, After(data, p, start, instants).tables)
    && forall k :: 0 <= k < |instants| ==>
         Reports(data, p, start, instants, k, rollbacks,
                 RunResult(0, start.tables.lastIrreversible, Some(common), |chain|))
  }

  lemma UnforkedDelivers(data: LocalData, p: Projector, chain: seq<SourceBlock>, lib: Lib, owner: string -> string,
                         payload: string -> Event, start: Point, entries: seq<Entry>, instants: seq<nat>)
    requires Projectable(p.validate, chain, owner, payload)
    requires Serves(p.source, chain, lib) && OnTheChain(lib, chain)
    requires Recoverable(p, chain, owner, payload, start.tables, entries)
    requires Common(chain, entries) == |entries|
    requires instants != [] && |chain| <= |entries| + |instants| * p.maxBlocksPerRun
    ensures Delivers(data, p, chain, lib, owner, start, instants, Rollbacks(chain, entries), Common(chain, entries))
  {
    UnforkedIsOnChain(p, chain, owner, payload, start.tables, entries);
    AlignedConverges(data, p, chain, lib, owner, payload, start, |entries|, instants);
    forall k | 0 <= k < |instants|
      ensures Reports(data, p, start, instants, k, 0,
                      RunResult(0, start.tables.lastIrreversible, Some(|entries|), |chain|))
    {
      assert Advances(CycleAt(data, p, start, instants, k));
    }
  }

  lemma ForkedDelivers(data: LocalData, p: Projector, chain: seq<SourceBlock>, lib: Lib, owner: string -> string,
                       payload: string -> Event, start: Point, entries: seq<Entry>, instants: seq<nat>)
    requires Projectable(p.validate, chain, owner, payload)
    requires Serves(p.source, chain, lib) && OnTheChain(lib, chain)
    requires Recoverable(p, chain, owner, payload, start.tables, entries)
    requires Common(chain, entries) < |entries|
    requires |instants| > 1 && |chain| <= Common(chain, entries) + (|instants| - 1) * p.maxBlocksPerRun
    ensures Delivers(data, p, chain, lib, owner, start, instants, Rollbacks(chain, entries), Common(chain, entries))
  {
    var common := Common(chain, entries);
    CycleRollsBack(data, p, chain, lib, owner, payload, start.tables, entries, instants[0], start.count);
    var c := CycleAt(data, p, start, instants, 0);
    assert instants[..0] == [];
    CutBackAligns(p.validate, chain, owner, payload, start.tables, common, c.tables);
    ForkedConverges(data, p, chain, lib, owner, payload, start, Point(c.tables, c.count), common, instants,
                    RunResult(0, start.tables.lastIrreversible, Some(common), |chain|));
  }

  /**
   Convergence: from any recoverable store, one rollback cycle if the source has forked away and then
   enough cycles to cover the distance bring the store to exactly the source's chain, finalised to
   the higher of the reported and the stored irreversible height. No cycle fails, only the first may
   roll back, and after that the store stays as it is.
   */
  lemma Converges(data: LocalData, p: Projector, chain: seq<SourceBlock>, lib: Lib, owner: string -> string,
                  payload: string -> Event, start: Point, entries: seq<Entry>, instants: seq<nat>)
    requires Projectable(p.validate, chain, owner, payload)
    requires Serves(p.source, chain, lib) && OnTheChain(lib, chain)
    requires Recoverable(p, chain, owner, payload, start.tables, entries)
    requires |instants| > Rollbacks(chain, entries)
    requires |chain| <= Common(chain, entries) + (|instants| - Rollbacks(chain, entries)) * p.maxBlocksPerRun
    ensures Delivers(data, p, chain, lib, owner, start, instants, Rollbacks(chain, entries), Common(chain, entries))
  {
    if Common(chain, entries) == |entries| {
      UnforkedDelivers(data, p, chain, lib, owner, payload, start, entries, instants);
    } else {
      ForkedDelivers(data, p, chain, lib, owner, payload, start, entries, instants);
    }
  }
}
