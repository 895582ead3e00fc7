/**
 What comes out of the parts of a cycle that read the source, stated on the answers of the source and the
 validator alone: the decisions of a block, the snapshot that is applied, the finality that is accepted.
 */
module ProjectorDecisions {
  import opened Wrappers
  import opened MatchView
  import opened ProjectionTables
  import opened ProjectionChain
  import opened ProjectionRuns
  import opened ProjectorCycle

  // ---- The decisions of a block ---------------------------------------------------------------------

  predicate ForBlock(block: Block, operations: seq<Operation>) {
    DistinctSources(operations) && forall i :: 0 <= i < |operations| ==> Belongs(operations[i], block)
  }

  /** `d` is what the validator says about operation `i`; it says nothing about operations of others. */
  predicate IsVerdictAt(validate: Validator, block: Block, operations: seq<Operation>, i: nat, d: Decision)
    requires i < |operations|
  {
    validate(operations[i], block).Some? && d == Decision(operations[i], validate(operations[i], block).value)
  }

  predicate Ascends(at: seq<nat>) {
    forall j, k :: 0 <= j < k < |at| ==> at[j] < at[k]
  }

  /** `ds` are the verdicts on exactly the operations the validator has one for, in their order; `at` says which. */
  ghost predicate AreVerdicts(validate: Validator, block: Block, operations: seq<Operation>, ds: seq<Decision>,
                              at: seq<nat>)
  {
    && |at| == |ds| && Ascends(at)
    && (forall k :: 0 <= k < |at| ==>
          at[k] < |operations| && IsVerdictAt(validate, block, operations, at[k], ds[k]))
    && (forall i :: 0 <= i < |operations| && validate(operations[i], block).Some? ==> i in at)
  }

  /** The verdicts, operation by operation. */
  function DecisionsOf(validate: Validator, block: Block, operations: seq<Operation>): seq<Decision> {
    if operations == [] then []
    else
      var n := |operations| - 1;
      var verdict := validate(operations[n], block);
      DecisionsOf(validate, block, operations[..n])
      + if verdict.Some? then [Decision(operations[n], verdict.value)] else []
  }

  lemma {:induction false} DecisionsAreVerdicts(validate: Validator, block: Block, operations: seq<Operation>)
    returns (at: seq<nat>)
    ensures AreVerdicts(validate, block, operations, DecisionsOf(validate, block, operations), at)
  {
    at := [];
    if operations != [] {
      var n := |operations| - 1;
      var earlier := DecisionsAreVerdicts(validate, block, operations[..n]);
      var ds := DecisionsOf(validate, block, operations[..n]);
      at := if validate(operations[n], block).Some? then earlier + [n] else earlier;
      VerdictsGrow(validate, block, operations, ds, earlier);
    }
  }

  lemma VerdictsStay(validate: Validator, block: Block, operations: seq<Operation>, ds: seq<Decision>, at: seq<nat>)
    requires operations != [] && AreVerdicts(validate, block, operations[..|operations| - 1], ds, at)
    ensures forall k :: 0 <= k < |at| ==>
              at[k] < |operations| - 1 && IsVerdictAt(validate, block, operations, at[k], ds[k])
    ensures forall i :: 0 <= i < |operations| - 1 && validate(operations[i], block).Some? ==> i in at
  {
    var n := |operations| - 1;
    var shorter := operations[..n];
    forall k | 0 <= k < |at| ensures at[k] < n && IsVerdictAt(validate, block, operations, at[k], ds[k]) {
      assert IsVerdictAt(validate, block, shorter, at[k], ds[k]);
    }
    forall i | 0 <= i < n && validate(operations[i], block).Some? ensures i in at {
      assert shorter[i] == operations[i];
    }
  }

  lemma AlsoIn(at: seq<nat>, n: nat)
    ensures n in at + [n] && forall i :: i in at ==> i in at + [n]
  {
    assert (at + [n])[|at|] == n;
  }

  lemma VerdictsGrow(validate: Validator, block: Block, operations: seq<Operation>, ds: seq<Decision>, at: seq<nat>)
    requires operations != [] && AreVerdicts(validate, block, operations[..|operations| - 1], ds, at)
    ensures var n := |operations| - 1;
            var verdict := validate(operations[n], block);
            if verdict.Some? then
              AreVerdicts(validate, block, operations, ds + [Decision(operations[n], verdict.value)], at + [n])
            else AreVerdicts(validate, block, operations, ds, at)
  {
    VerdictsStay(validate, block, operations, ds, at);
    AlsoIn(at, |operations| - 1);
  }

  /** The operations and the validator determine the verdicts. */
  lemma VerdictsAreUnique(validate: Validator, block: Block, operations: seq<Operation>, a: seq<Decision>,
                          at: seq<nat>, b: seq<Decision>, bt: seq<nat>)
    requires AreVerdicts(validate, block, operations, a, at) && AreVerdicts(validate, block, operations, b, bt)
    ensures a == b
  {
    forall i ensures i in at <==> i in bt {
      if i in at {
        var k :| 0 <= k < |at| && at[k] == i;
        assert IsVerdictAt(validate, block, operations, at[k], a[k]);
      }
      if i in bt {
        var k :| 0 <= k < |bt| && bt[k] == i;
        assert IsVerdictAt(validate, block, operations, bt[k], b[k]);
      }
    }
    AscendsOnce(at, bt);
    forall k | 0 <= k < |a| ensures a[k] == b[k] {
      assert IsVerdictAt(validate, block, operations, at[k], a[k]);
      assert IsVerdictAt(validate, block, operations, bt[k], b[k]);
    }
  }

  lemma {:induction false} AscendsOnce(a: seq<nat>, b: seq<nat>)
    requires Ascends(a) && Ascends(b) && forall i :: i in a <==> i in b
    ensures a == b
  {
    assert a != [] ==> a[0] in b;
    assert b != [] ==> b[0] in a;
    if a != [] {
      var m, n := |a| - 1, |b| - 1;
      assert a[m] in b && b[n] in a;
      assert a[m] == b[n];
      forall i ensures i in a[..m] <==> i in b[..n] {
        assert i in a[..m] <==> i in a && i != a[m] by {
          AllButLast(a, i);
        }
        assert i in b[..n] <==> i in b && i != b[n] by {
          AllButLast(b, i);
        }
      }
      AscendsOnce(a[..m], b[..n]);
      assert a == a[..m] + [a[m]] && b == b[..n] + [b[n]];
    }
  }

  lemma AllButLast(a: seq<nat>, i: nat)
    requires Ascends(a) && a != []
    ensures i in a[..|a| - 1] <==> i in a && i != a[|a| - 1]
  {
    var m := |a| - 1;
    if i in a && i != a[m] {
      var k :| 0 <= k < |a| && a[k] == i;
      assert a[..m][k] == i;
    }
  }

  lemma DecidedIff(validate: Validator, block: Block, operations: seq<Operation>, d: Decision)
    ensures d in DecisionsOf(validate, block, operations)
       <==> exists i :: 0 <= i < |operations| && IsVerdictAt(validate, block, operations, i, d)
  {
    var at := DecisionsAreVerdicts(validate, block, operations);
    var ds := DecisionsOf(validate, block, operations);
    if d in ds {
      var k :| 0 <= k < |ds| && ds[k] == d;
      assert IsVerdictAt(validate, block, operations, at[k], d);
    }
    forall i | 0 <= i < |operations| && IsVerdictAt(validate, block, operations, i, d) ensures d in ds {
      var k :| 0 <= k < |at| && at[k] == i;
      assert ds[k] == d;
    }
  }

  /**
   Validation, for all operations and validators: it fails exactly when an operation is not of the block or
   repeats an identity, and else yields the verdicts.
   */
  lemma {:induction false} ValidatesIffForBlock(validate: Validator, block: Block, operations: seq<Operation>)
    ensures ValidateOperations(validate, block, operations)
         == if ForBlock(block, operations) then Success(DecisionsOf(validate, block, operations))
            else Failure(InvalidSourceResponse)
    ensures ForBlock(block, operations) ==>
              forall k :: 0 <= k < |DecisionsOf(validate, block, operations)| ==>
                DecisionsOf(validate, block, operations)[k].operation.blockNumber == block.number
  {
    if operations != [] {
      var n := |operations| - 1;
      ValidatesIffForBlock(validate, block, operations[..n]);
      ForBlockGrows(block, operations);
    }
  }

  lemma ForBlockGrows(block: Block, operations: seq<Operation>)
    requires operations != []
    ensures var n := |operations| - 1;
            ForBlock(block, operations) <==>
              ForBlock(block, operations[..n]) && Belongs(operations[n], block)
              && !Repeats(operations[..n], operations[n])
  {
    var n := |operations| - 1;
    forall i | 0 <= i < n ensures operations[..n][i] == operations[i] {
    }
    if ForBlock(block, operations[..n]) && Belongs(operations[n], block) && !Repeats(operations[..n], operations[n]) {
      forall i | 0 <= i < n ensures operations[i].sourceId != operations[n].sourceId {
        assert operations[..n][i] == operations[i];
      }
    }
  }

  /** So a validation that succeeds yields the verdicts, and nothing else would do. */
  lemma ValidatedAreVerdicts(validate: Validator, block: Block, operations: seq<Operation>) returns (at: seq<nat>)
    requires ForBlock(block, operations)
    ensures var r := ValidateOperations(validate, block, operations);
            r.Success? && AreVerdicts(validate, block, operations, r.value, at)
  {
    ValidatesIffForBlock(validate, block, operations);
    at := DecisionsAreVerdicts(validate, block, operations);
  }

  // ---- The blocks that are read ---------------------------------------------------------------------

  /** The reads from `at` on answer with these linked blocks, one after the other. */
  predicate IsSnapshot(source: Source, at: nat, first: nat, blocks: seq<Block>) {
    Consecutive(blocks, first) && forall i :: 0 <= i < |blocks| ==> AnswersBlock(source, at, first, blocks, i)
  }

  predicate AnswersBlock(source: Source, at: nat, first: nat, blocks: seq<Block>, i: nat)
    requires i < |blocks|
  {
    source.block(at + i, first + i) == Success(blocks[i])
  }

  /** A snapshot is read exactly when the source answers with it, block by block. */
  lemma {:induction false} SnapshotIff(source: Source, at: nat, first: nat, last: nat, blocks: seq<Block>)
    requires 1 <= first <= last + 1 && |blocks| == last + 1 - first
    ensures ReadSnapshot(source, at, first, last) == Read(at + |blocks|, Success(blocks))
       <==> IsSnapshot(source, at, first, blocks)
    decreases last
  {
    if first <= last {
      var n := |blocks| - 1;
      var shorter := blocks[..n];
      SnapshotIff(source, at, first, last - 1, shorter);
      assert blocks == shorter + [blocks[n]];
      SnapshotGrows(source, at, first, blocks);
      var earlier := ReadSnapshot(source, at, first, last - 1);
      if ReadSnapshot(source, at, first, last).answer.Success? {
        SnapshotCount(source, at, first, last - 1);
      }
    }
  }

  lemma {:induction false} SnapshotCount(source: Source, at: nat, first: nat, last: nat)
    requires 1 <= first <= last + 1 && ReadSnapshot(source, at, first, last).answer.Success?
    ensures ReadSnapshot(source, at, first, last).count == at + (last + 1 - first)
    ensures |ReadSnapshot(source, at, first, last).answer.value| == last + 1 - first
    decreases last
  {
    if first <= last {
      SnapshotCount(source, at, first, last - 1);
    }
  }

  lemma SnapshotGrows(source: Source, at: nat, first: nat, blocks: seq<Block>)
    requires blocks != []
    ensures var n := |blocks| - 1;
            IsSnapshot(source, at, first, blocks) <==>
              && IsSnapshot(source, at, first, blocks[..n]) && AnswersBlock(source, at, first, blocks, n)
              && Continues(blocks[..n], blocks[n], first + n)
  {
    var n := |blocks| - 1;
    var shorter := blocks[..n];
    if IsSnapshot(source, at, first, blocks) {
      forall i | 0 <= i < n ensures AnswersBlock(source, at, first, shorter, i) {
        assert AnswersBlock(source, at, first, blocks, i);
      }
      forall i | 0 < i < n ensures BlockLinks(shorter, i) {
        assert BlockLinks(blocks, i);
      }
      assert n > 0 ==> BlockLinks(blocks, n);
    }
    if IsSnapshot(source, at, first, shorter) && AnswersBlock(source, at, first, blocks, n)
       && Continues(shorter, blocks[n], first + n) {
      forall i | 0 <= i < |blocks| ensures AnswersBlock(source, at, first, blocks, i) {
        assert i < n ==> AnswersBlock(source, at, first, shorter, i);
      }
      forall i | 0 < i < |blocks| ensures BlockLinks(blocks, i) {
        assert i < n ==> BlockLinks(shorter, i);
      }
    }
  }

  /**
   What is applied has been read twice: the source answered with the same linked blocks before and after it
   answered with the operations, and no identity repeats among these. Nothing else is ever applied.
   */
  lemma NextIff(source: Source, at: nat, first: nat, last: nat, blocks: seq<Block>, operations: seq<Operation>)
    requires 1 <= first <= last + 1 && |blocks| == last + 1 - first
    ensures ReadNext(source, at, first, last).answer == Success(Next(blocks, operations)) <==>
              && IsSnapshot(source, at, first, blocks)
              && source.operations(at + |blocks|, first, last) == Success(operations) && DistinctSources(operations)
              && IsSnapshot(source, at + |blocks| + 1, first, blocks)
  {
    var n := |blocks|;
    SnapshotIff(source, at, first, last, blocks);
    SnapshotIff(source, at + n + 1, first, last, blocks);
    var before := ReadSnapshot(source, at, first, last);
    if before.answer.Success? {
      SnapshotCount(source, at, first, last);
      if ReadSnapshot(source, at + n + 1, first, last).answer.Success? {
        SnapshotCount(source, at + n + 1, first, last);
      }
    }
  }

  // ---- The finality that is accepted ----------------------------------------------------------------

  /**
   The source reports an irreversible block within its chain, confirms its id, and answers for the height to
   finalise with exactly the block that is stored there.
   */
  predicate IsConfirmed(source: Source, t: Tables, lib: Lib, number: nat, head: nat, at: nat) {
    && 0 < lib.number <= head && lib.id.Some?
    && source.block(at, lib.number).Success? && source.block(at, lib.number).value.id == lib.id.value
    && var again := if number == lib.number then at else at + 1;
       && source.block(again, number).Success?
       && CurrentCheckpoint(t.checkpoints, number).Some?
       && CurrentCheckpoint(t.checkpoints, number).value.block == source.block(again, number).value
  }

  /** A finality whose anchor or stored block differs in any field is refused, and no other one is. */
  lemma FinalityIff(source: Source, t: Tables, lib: Lib, number: nat, head: nat, at: nat)
    ensures AssertFinality(source, t, lib, number, head, at).answer.Success?
       <==> IsConfirmed(source, t, lib, number, head, at)
  {
  }

  /** Which finalities are called a divergence: those for which every read has worked. */
  lemma DivergenceIff(source: Source, t: Tables, lib: Lib, number: nat, head: nat, at: nat)
    requires source.block(at, lib.number).Success? && source.block(at + 1, number).Success?
    ensures AssertFinality(source, t, lib, number, head, at).answer
         == if IsConfirmed(source, t, lib, number, head, at) then Success(()) else Failure(SourceDivergence)
  {
  }

  /** A conclusion raises the irreversible height only to a height that was confirmed, at or below the cursor. */
  lemma ConcludeConfirms(data: LocalData, p: Projector, progress: Progress, lib: Lib, head: nat, now: nat)
    ensures var c := Conclude(data, p, progress, lib, head, now);
            var number := Min(lib.number, progress.cursor.lastProcessed);
            c.tables != progress.tables ==>
              && number > progress.cursor.lastIrreversible
              && IsConfirmed(p.source, progress.tables, lib, number, head, progress.count)
              && FinalizeThrough(data, progress.tables, number, now) == Success(c.tables)
  {
    FinalityIff(p.source, progress.tables, lib, Min(lib.number, progress.cursor.lastProcessed), head, progress.count);
  }
}
