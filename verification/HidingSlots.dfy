/** Where the hiders of a casual round hide: distinct slots, more of them than there are hiders. */
module HidingSlots {
  import opened Wrappers
  import opened Shuffle
  import opened RoundRoles

  const MINIMUM_TARGETS := 3

  /** The number of hiders among the first `n` assignments. */
  function HidersBefore(assignments: seq<Assignment>, n: nat): (count: nat)
    requires n <= |assignments|
    ensures count <= n
  {
    if n == 0 then 0 else HidersBefore(assignments, n - 1) + if assignments[n - 1].role.Hider? then 1 else 0
  }

  function TargetCount(hiders: nat): nat {
    if hiders + 2 < MINIMUM_TARGETS then MINIMUM_TARGETS else hiders + 2
  }

  /** The slots 1 to `n` in order. */
  function Slots(n: nat): (slots: seq<nat>)
    ensures |slots| == n && forall i :: 0 <= i < n ==> slots[i] == i + 1
  {
    seq(n, i => i + 1)
  }

  /** The k-th hider gets the k-th slot; hunters keep none. */
  function WithSlots(assignments: seq<Assignment>, slots: seq<nat>): (r: seq<Assignment>)
    requires HidersBefore(assignments, |assignments|) <= |slots|
    ensures |r| == |assignments|
  {
    seq(|assignments|, i requires 0 <= i < |assignments| => WithSlot(assignments, slots, i))
  }

  function WithSlot(assignments: seq<Assignment>, slots: seq<nat>, i: nat): Assignment
    requires HidersBefore(assignments, |assignments|) <= |slots| && i < |assignments|
  {
    HidersGrow(assignments, i, |assignments|);
    if assignments[i].role.Hider? then assignments[i].(slot := slots[HidersBefore(assignments, i)])
    else assignments[i]
  }

  lemma {:induction false} HidersGrow(assignments: seq<Assignment>, i: nat, n: nat)
    requires i <= n <= |assignments|
    ensures HidersBefore(assignments, i) <= HidersBefore(assignments, n)
    ensures i < n && assignments[i].role.Hider? ==> HidersBefore(assignments, i) < HidersBefore(assignments, n)
    decreases n
  {
    if i < n - 1 {
      HidersGrow(assignments, i, n - 1);
    }
  }

  /** The function on values: shuffled slots for the hiders, or why there are none. */
  function AssignSlots(assignments: seq<Assignment>, answers: nat -> Option<nat>, at: nat)
    : Result<(nat, seq<Assignment>), RolesError>
  {
    var hiders := HidersBefore(assignments, |assignments|);
    if hiders == 0 then Failure(NoHider)
    else
      var slots := Attempt(Slots(TargetCount(hiders)), TargetCount(hiders), answers, at);
      if !slots.1 || |slots.0| < hiders then Failure(NoRandomness)
      else Success((TargetCount(hiders), WithSlots(assignments, slots.0)))
  }

  /** Every hider has a slot of its own within 1 to `targets`, at least two stay empty, all else is as before. */
  ghost predicate AreHidden(before: seq<Assignment>, targets: nat, after: seq<Assignment>) {
    && |after| == |before|
    && (forall i :: 0 <= i < |after| ==>
          && after[i] == before[i].(slot := after[i].slot)
          && (after[i].role.Hunter? ==> after[i] == before[i])
          && (after[i].role.Hider? ==> 1 <= after[i].slot <= targets))
    && (forall i, j :: 0 <= i < j < |after| && after[i].role.Hider? && after[j].role.Hider? ==>
          after[i].slot != after[j].slot)
    && targets >= MINIMUM_TARGETS && targets >= HidersBefore(before, |before|) + 2
  }

  lemma PermutedSlots(n: nat, slots: seq<nat>)
    requires multiset(slots) == multiset(Slots(n))
    ensures |slots| == n && Distinct(slots)
    ensures forall k :: 0 <= k < n ==> 1 <= slots[k] <= n
  {
    assert |slots| == |multiset(slots)| == |multiset(Slots(n))| == n;
    RearrangedDistinct(Slots(n), slots);
    forall k | 0 <= k < n ensures 1 <= slots[k] <= n {
      assert slots[k] in multiset(slots);
      assert slots[k] in multiset(Slots(n));
    }
  }

  /** Whatever order the slots are shuffled into, the hiders end up in distinct slots. */
  lemma SlotsAreDistinct(assignments: seq<Assignment>, slots: seq<nat>)
    requires HidersBefore(assignments, |assignments|) >= 1
    requires multiset(slots) == multiset(Slots(TargetCount(HidersBefore(assignments, |assignments|))))
    ensures HidersBefore(assignments, |assignments|) <= |slots|
    ensures AreHidden(assignments, |slots|, WithSlots(assignments, slots))
  {
    var hiders := HidersBefore(assignments, |assignments|);
    PermutedSlots(TargetCount(hiders), slots);
    var after := WithSlots(assignments, slots);
    forall i | 0 <= i < |after| && after[i].role.Hider?
      ensures 1 <= after[i].slot <= |slots|
    {
      HidersGrow(assignments, i, |assignments|);
    }
    forall i, j | 0 <= i < j < |after| && after[i].role.Hider? && after[j].role.Hider?
      ensures after[i].slot != after[j].slot
    {
      HidersGrow(assignments, i, j);
      HidersGrow(assignments, j, |assignments|);
      assert HidersBefore(assignments, i) < HidersBefore(assignments, j) < |slots|;
    }
  }

  /** For all assignments and random sources: it fails only without a hider or a draw, and else hides everyone. */
  lemma AssignSlotsHides(assignments: seq<Assignment>, answers: nat -> Option<nat>, at: nat)
    ensures var r := AssignSlots(assignments, answers, at);
            && (r == Failure(NoHider) <==> forall i :: 0 <= i < |assignments| ==> assignments[i].role.Hunter?)
            && (r.Success? ==> AreHidden(assignments, r.value.0, r.value.1))
            && ((forall k :: answers(k).Some?) ==> r.Success? || r.error == NoHider)
  {
    var hiders := HidersBefore(assignments, |assignments|);
    NoHidersIff(assignments, |assignments|);
    if hiders > 0 {
      var n := TargetCount(hiders);
      AttemptShuffles(Slots(n), n, answers, at);
      SlotsAreDistinct(assignments, Attempt(Slots(n), n, answers, at).0);
      if forall k :: answers(k).Some? {
        AlwaysDrawn(answers, at, n);
      }
    }
  }

  lemma {:induction false} NoHidersIff(assignments: seq<Assignment>, n: nat)
    requires n <= |assignments|
    ensures HidersBefore(assignments, n) == 0 <==> forall i :: 0 <= i < n ==> assignments[i].role.Hunter?
  {
    if n > 0 {
      NoHidersIff(assignments, n - 1);
    }
  }

  // ---- Every placement can come out -------------------------------------------------------------------

  /** A slot for every assignment; those of the hiders are distinct and within 1 to `targets`. */
  predicate IsPlacement(assignments: seq<Assignment>, slots: seq<nat>, targets: nat) {
    && |slots| == |assignments|
    && (forall i :: 0 <= i < |assignments| && assignments[i].role.Hider? ==> 1 <= slots[i] <= targets)
    && (forall i, j :: 0 <= i < j < |assignments| && assignments[i].role.Hider? && assignments[j].role.Hider? ==>
          slots[i] != slots[j])
  }

  /** The slots of the first hiders, in their order. */
  function HiderSlots(assignments: seq<Assignment>, slots: seq<nat>, n: nat): (r: seq<nat>)
    requires n <= |assignments| == |slots|
    ensures |r| == HidersBefore(assignments, n)
  {
    if n == 0 then []
    else HiderSlots(assignments, slots, n - 1) + if assignments[n - 1].role.Hider? then [slots[n - 1]] else []
  }

  lemma {:induction false} HiderSlotAt(assignments: seq<Assignment>, slots: seq<nat>, n: nat, i: nat)
    requires i < n <= |assignments| == |slots| && assignments[i].role.Hider?
    ensures HidersBefore(assignments, i) < HidersBefore(assignments, n)
    ensures HiderSlots(assignments, slots, n)[HidersBefore(assignments, i)] == slots[i]
  {
    HidersGrow(assignments, i, n);
    if i < n - 1 {
      HiderSlotAt(assignments, slots, n - 1, i);
    }
  }

  lemma {:induction false} HiderSlotsAreApart(assignments: seq<Assignment>, slots: seq<nat>, targets: nat, n: nat)
    requires IsPlacement(assignments, slots, targets) && n <= |assignments|
    ensures Distinct(HiderSlots(assignments, slots, n))
    ensures forall x :: x in HiderSlots(assignments, slots, n) ==>
              1 <= x <= targets && exists i :: 0 <= i < n && assignments[i].role.Hider? && slots[i] == x
  {
    if n > 0 {
      HiderSlotsAreApart(assignments, slots, targets, n - 1);
      var earlier := HiderSlots(assignments, slots, n - 1);
      forall k | 0 <= k < |earlier| && assignments[n - 1].role.Hider? ensures earlier[k] != slots[n - 1] {
        assert earlier[k] in earlier;
      }
    }
  }

  /** The numbers 1 to `n` that are not in `taken`. */
  function Free(taken: seq<nat>, n: nat): seq<nat> {
    if n == 0 then [] else Free(taken, n - 1) + if n in taken then [] else [n]
  }

  lemma {:induction false} FreeIff(taken: seq<nat>, n: nat)
    ensures Distinct(Free(taken, n))
    ensures forall x: nat :: x in Free(taken, n) <==> 1 <= x <= n && x !in taken
  {
    if n > 0 {
      FreeIff(taken, n - 1);
      var earlier := Free(taken, n - 1);
      forall k | 0 <= k < |earlier| ensures earlier[k] < n {
        assert earlier[k] in earlier;
      }
    }
  }

  /** Distinct sequences with the same members are permutations of each other. */
  lemma {:induction false} CountsOnce(s: seq<nat>)
    requires Distinct(s)
    ensures forall x :: multiset(s)[x] == if x in s then 1 else 0
  {
    if s != [] {
      var n := |s| - 1;
      CountsOnce(s[..n]);
      assert s == s[..n] + [s[n]];
      forall k | 0 <= k < n ensures s[..n][k] != s[n] {
      }
      assert s[n] !in s[..n];
    }
  }

  lemma PermutesSlots(s: seq<nat>, n: nat)
    requires Distinct(s) && forall x: nat :: x in s <==> 1 <= x <= n
    ensures multiset(s) == multiset(Slots(n)) && |s| == n
  {
    CountsOnce(s);
    CountsOnce(Slots(n));
    forall x: nat ensures x in Slots(n) <==> x in s {
      assert 1 <= x <= n ==> Slots(n)[x - 1] == x;
    }
    assert multiset(s) == multiset(Slots(n));
    assert |s| == |multiset(s)| && |Slots(n)| == |multiset(Slots(n))|;
  }

  /** The slots of the hiders first, then the free ones: an order of all slots. */
  lemma OrderFor(assignments: seq<Assignment>, slots: seq<nat>, targets: nat) returns (order: seq<nat>)
    requires IsPlacement(assignments, slots, targets)
    ensures multiset(order) == multiset(Slots(targets)) && |order| == targets
    ensures HiderSlots(assignments, slots, |assignments|) <= order
  {
    var taken := HiderSlots(assignments, slots, |assignments|);
    HiderSlotsAreApart(assignments, slots, targets, |assignments|);
    FreeIff(taken, targets);
    var rest := Free(taken, targets);
    order := taken + rest;
    forall i, j | 0 <= i < j < |order| ensures order[i] != order[j] {
      assert i < |taken| ==> order[i] in taken;
      assert j >= |taken| ==> order[j] in rest;
    }
    PermutesSlots(order, targets);
  }

  lemma DrawsBelow(answers: nat -> Option<nat>, at: nat, bound: nat, choice: nat)
    requires choice < bound && answers(at) == Some(choice)
    ensures Draw(answers, at, bound) == Some(choice)
  {
  }

  lemma FewerChoices(choices: seq<nat>, n: nat)
    requires n > 1 && Choices(n, choices)
    ensures |choices| == n - 1 && choices[0] < n && Choices(n - 1, choices[1..])
  {
    forall k | 0 <= k < |choices| - 1 ensures choices[1..][k] < n - 1 - k {
      assert choices[1..][k] == choices[k + 1];
    }
  }

  /** The source answers the draws from `at` on with the choices. */
  ghost predicate Answers(answers: nat -> Option<nat>, at: nat, choices: seq<nat>) {
    forall k: nat :: k < |choices| ==> answers(at + k) == Some(choices[k])
  }

  /** A source that answers with the choices draws them. */
  lemma {:induction false} DrawsChoices(choices: seq<nat>, answers: nat -> Option<nat>, at: nat, n: nat)
    requires Choices(n, choices) && Answers(answers, at, choices)
    ensures Drawn(answers, at, n) == Some(choices)
    decreases n
  {
    if n > 1 {
      FewerChoices(choices, n);
      assert answers(at + 0) == Some(choices[0]);
      DrawsBelow(answers, at, n, choices[0]);
      forall k: nat | k < |choices| - 1 ensures answers(at + 1 + k) == Some(choices[1..][k]) {
        assert answers(at + (k + 1)) == Some(choices[k + 1]);
      }
      DrawsChoices(choices[1..], answers, at + 1, n - 1);
      assert choices == [choices[0]] + choices[1..];
    }
  }

  /** A source whose draws shuffle the slots into the order. */
  lemma SourceFor(order: seq<nat>, n: nat) returns (answers: nat -> Option<nat>)
    requires multiset(order) == multiset(Slots(n)) && |order| == n
    ensures Attempt(Slots(n), n, answers, 0) == (order, true)
  {
    PermutedSlots(n, Slots(n));
    EveryPermutationOnce(Slots(n), order);
    var choices := ChoicesFor(Slots(n), order, n);
    answers := (k: nat) => if k < |choices| then Some(choices[k]) else None;
    DrawsChoices(choices, answers, 0, n);
    AttemptShuffles(Slots(n), n, answers, 0);
  }

  lemma OrderPlaces(assignments: seq<Assignment>, slots: seq<nat>, order: seq<nat>)
    requires |slots| == |assignments| && HidersBefore(assignments, |assignments|) <= |order|
    requires HiderSlots(assignments, slots, |assignments|) <= order
    ensures forall i :: 0 <= i < |assignments| && assignments[i].role.Hider? ==>
              WithSlots(assignments, order)[i] == assignments[i].(slot := slots[i])
  {
    forall i | 0 <= i < |assignments| && assignments[i].role.Hider?
      ensures WithSlots(assignments, order)[i] == assignments[i].(slot := slots[i])
    {
      HiderSlotAt(assignments, slots, |assignments|, i);
    }
  }

  /** Every way to hide the hiders is the outcome of some draws. */
  lemma EveryPlacementIsReachable(assignments: seq<Assignment>, slots: seq<nat>)
    returns (answers: nat -> Option<nat>)
    requires HidersBefore(assignments, |assignments|) >= 1
    requires IsPlacement(assignments, slots, TargetCount(HidersBefore(assignments, |assignments|)))
    ensures var r := AssignSlots(assignments, answers, 0);
            && r.Success? && |r.value.1| == |assignments|
            && forall i :: 0 <= i < |assignments| && assignments[i].role.Hider? ==>
                 r.value.1[i] == assignments[i].(slot := slots[i])
  {
    var n := TargetCount(HidersBefore(assignments, |assignments|));
    var order := OrderFor(assignments, slots, n);
    answers := SourceFor(order, n);
    OrderPlaces(assignments, slots, order);
  }

  // ---- The loops --------------------------------------------------------------------------------------

  /** Shuffles the slots and writes them into the assignments, hider by hider. */
  method AssignCasualHidingSlots(assignments: array<Assignment>, random: Random) returns (r: Result<nat, RolesError>)
    modifies assignments, random
    ensures var expected := AssignSlots(old(assignments[..]), random.answers, old(random.used));
            if expected.Success? then r == Success(expected.value.0) && assignments[..] == expected.value.1
            else r == Failure(expected.error) && assignments[..] == old(assignments[..])
  {
    var hiders := CollectHiders(assignments);
    if |hiders| == 0 {
      return Failure(NoHider);
    }
    var targets := TargetCount(|hiders|);
    var slots := new nat[targets](i => i + 1);
    assert slots[..] == Slots(targets);
    var shuffled := InPlace(slots, random);
    if !shuffled {
      return Failure(NoRandomness);
    }
    WriteSlots(assignments, hiders, slots[..]);
    return Success(targets);
  }

  lemma {:induction false} RankIsUnique(assignments: seq<Assignment>, i: nat, j: nat)
    requires i < |assignments| && j < |assignments|
    requires assignments[i].role.Hider? && assignments[j].role.Hider?
    requires HidersBefore(assignments, i) == HidersBefore(assignments, j)
    ensures i == j
  {
    if i < j {
      HidersGrow(assignments, i, j);
    } else if j < i {
      HidersGrow(assignments, j, i);
    }
  }

  method WriteSlots(assignments: array<Assignment>, hiders: seq<nat>, slots: seq<nat>)
    requires AreHiders(assignments[..], hiders)
    requires HidersBefore(assignments[..], assignments.Length) <= |slots|
    modifies assignments
    ensures assignments[..] == WithSlots(old(assignments[..]), slots)
  {
    ghost var before := assignments[..];
    var index := 0;
    while index < |hiders|
      invariant index <= |hiders| && assignments.Length == |before|
      invariant forall k :: 0 <= k < |before| ==>
                  assignments[k] == if HidersBefore(before, k) < index then WithSlot(before, slots, k)
                                    else before[k]
    {
      var p := hiders[index];
      forall k | 0 <= k < |before| && HidersBefore(before, k) == index && before[k].role.Hider? ensures k == p {
        RankIsUnique(before, k, p);
      }
      assignments[p] := assignments[p].(slot := slots[index]);
      index := index + 1;
    }
    forall k | 0 <= k < |before| ensures assignments[k] == WithSlot(before, slots, k) {
      if before[k].role.Hider? {
        HidersGrow(before, k, |before|);
      }
    }
  }

  /** The indexes of the hiders, in order. */
  ghost predicate AreHiders(assignments: seq<Assignment>, indexes: seq<nat>) {
    && |indexes| == HidersBefore(assignments, |assignments|)
    && forall k :: 0 <= k < |indexes| ==>
         && indexes[k] < |assignments| && assignments[indexes[k]].role.Hider?
         && HidersBefore(assignments, indexes[k]) == k
  }

  method CollectHiders(assignments: array<Assignment>) returns (indexes: seq<nat>)
    ensures AreHiders(assignments[..], indexes)
  {
    indexes := [];
    var i := 0;
    while i < assignments.Length
      invariant i <= assignments.Length && |indexes| == HidersBefore(assignments[..], i)
      invariant forall k :: 0 <= k < |indexes| ==>
                  && indexes[k] < i && assignments[indexes[k]].role.Hider?
                  && HidersBefore(assignments[..], indexes[k]) == k
    {
      if assignments[i].role.Hider? {
        indexes := indexes + [i];
      }
      i := i + 1;
    }
  }
}
