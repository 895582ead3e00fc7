/**
 The in-place shuffle behind hunter selection and hiding slots: for distinct entries the sequences of
 random choices correspond one to one to the permutations, so no permutation is favoured.
 */
module Shuffle {
  import opened Wrappers
  import Sorting

  predicate Distinct<T(==)>(s: seq<T>) {
    forall i, j :: 0 <= i < j < |s| ==> s[i] != s[j]
  }

  function Swap<T>(s: seq<T>, i: nat, j: nat): (r: seq<T>)
    requires i < |s| && j < |s|
    ensures |r| == |s| && r[i] == s[j] && r[j] == s[i]
    ensures forall k :: 0 <= k < |s| && k != i && k != j ==> r[k] == s[k]
  {
    s[i := s[j]][j := s[i]]
  }

  /** How many choices a shuffle of `n` entries takes. */
  function DrawCount(n: nat): nat {
    if n == 0 then 0 else n - 1
  }

  /** One choice for each index from `n - 1` down to 1, none above its index. */
  predicate Choices(n: nat, choices: seq<nat>) {
    && |choices| == DrawCount(n)
    && forall k :: 0 <= k < |choices| ==> choices[k] < n - k
  }

  /** The first `n` entries shuffled by the choices, the rest left alone. */
  function Shuffled<T>(s: seq<T>, n: nat, choices: seq<nat>): (r: seq<T>)
    requires n <= |s| && Choices(n, choices)
    ensures |r| == |s|
    ensures forall k :: n <= k < |s| ==> r[k] == s[k]
    decreases n
  {
    if n <= 1 then s
    else
      assert Choices(n - 1, choices[1..]) by {
        assert forall k :: 0 <= k < |choices| - 1 ==> choices[1..][k] == choices[k + 1];
      }
      Shuffled(Swap(s, n - 1, choices[0]), n - 1, choices[1..])
  }

  lemma SwapPermutes<T>(s: seq<T>, i: nat, j: nat)
    requires i < |s| && j < |s|
    ensures multiset(Swap(s, i, j)) == multiset(s)
  {
  }

  lemma SwapDistinct<T>(s: seq<T>, i: nat, j: nat)
    requires Distinct(s) && i < |s| && j < |s|
    ensures Distinct(Swap(s, i, j))
  {
    var r := Swap(s, i, j);
    forall a, b | 0 <= a < b < |r| ensures r[a] != r[b] {
    }
  }

  lemma {:induction false} ShuffledPermutes<T>(s: seq<T>, n: nat, choices: seq<nat>)
    requires n <= |s| && Choices(n, choices)
    ensures multiset(Shuffled(s, n, choices)) == multiset(s)
    decreases n
  {
    if n > 1 {
      SwapPermutes(s, n - 1, choices[0]);
      assert Choices(n - 1, choices[1..]);
      ShuffledPermutes(Swap(s, n - 1, choices[0]), n - 1, choices[1..]);
    }
  }

  // ---- The inverse ----------------------------------------------------------------------------------

  function IndexOf<T(==)>(s: seq<T>, x: T, n: nat): (i: nat)
    requires n <= |s| && x in s[..n]
    ensures i < n && s[i] == x
    decreases n
  {
    if s[n - 1] == x then n - 1
    else
      assert s[..n] == s[..n - 1] + [s[n - 1]];
      IndexOf(s, x, n - 1)
  }

  /** The goal is a rearrangement of the first `n` entries. */
  predicate Rearranges<T(==)>(s: seq<T>, goal: seq<T>, n: nat) {
    && n <= |s| == |goal| && multiset(s) == multiset(goal)
    && forall k :: n <= k < |s| ==> goal[k] == s[k]
  }

  lemma PrefixHas<T>(s: seq<T>, goal: seq<T>, n: nat)
    requires Distinct(s) && Rearranges(s, goal, n) && n > 0
    ensures goal[n - 1] in s[..n]
  {
    assert goal[n - 1] in multiset(goal);
    assert goal[n - 1] in multiset(s);
    var i :| 0 <= i < |s| && s[i] == goal[n - 1];
    if i >= n {
      assert goal[i] == goal[n - 1];
      RearrangedDistinct(s, goal);
      assert false;
    }
    assert s[..n][i] == s[i];
  }

  lemma RearrangedDistinct<T>(s: seq<T>, goal: seq<T>)
    requires Distinct(s) && multiset(s) == multiset(goal)
    ensures Distinct(goal)
  {
    forall i, j | 0 <= i < j < |goal| ensures goal[i] != goal[j] {
      if goal[i] == goal[j] {
        Sorting.CountedTwice(goal, i, j);
        assert goal[i] in multiset(s);
        var a :| 0 <= a < |s| && s[a] == goal[i];
        var b := Sorting.OtherCopy(s, a);
      }
    }
  }

  lemma NextRearranges<T>(s: seq<T>, goal: seq<T>, n: nat, c: nat)
    requires Distinct(s) && Rearranges(s, goal, n) && n > 0
    requires c < n && s[c] == goal[n - 1]
    ensures Distinct(Swap(s, n - 1, c)) && Rearranges(Swap(s, n - 1, c), goal, n - 1)
  {
    SwapDistinct(s, n - 1, c);
    SwapPermutes(s, n - 1, c);
    var r := Swap(s, n - 1, c);
    forall k | n - 1 <= k < |s| ensures goal[k] == r[k] {
      if k > n - 1 {
        assert r[k] == s[k];
      }
    }
  }

  /** The choices that lead from `s` to `goal`. */
  function ChoicesFor<T(==)>(s: seq<T>, goal: seq<T>, n: nat): (choices: seq<nat>)
    requires Distinct(s) && Rearranges(s, goal, n)
    ensures Choices(n, choices)
    decreases n
  {
    if n <= 1 then []
    else
      PrefixHas(s, goal, n);
      var c := IndexOf(s, goal[n - 1], n);
      NextRearranges(s, goal, n, c);
      [c] + ChoicesFor(Swap(s, n - 1, c), goal, n - 1)
  }

  lemma NothingToMove<T>(s: seq<T>, goal: seq<T>, n: nat)
    requires Distinct(s) && Rearranges(s, goal, n) && n <= 1
    ensures s == goal
  {
    if n == 1 {
      PrefixHas(s, goal, 1);
      assert s[..1] == [s[0]];
      assert goal[0] == s[0];
    }
  }

  lemma {:induction false} ChoicesReach<T>(s: seq<T>, goal: seq<T>, n: nat)
    requires Distinct(s) && Rearranges(s, goal, n)
    ensures Shuffled(s, n, ChoicesFor(s, goal, n)) == goal
    decreases n
  {
    if n <= 1 {
      NothingToMove(s, goal, n);
    } else {
      PrefixHas(s, goal, n);
      var c := IndexOf(s, goal[n - 1], n);
      NextRearranges(s, goal, n, c);
      var next := Swap(s, n - 1, c);
      ChoicesReach(next, goal, n - 1);
      var choices, rest := ChoicesFor(s, goal, n), ChoicesFor(next, goal, n - 1);
      assert choices == [c] + rest;
      assert choices[0] == c && choices[1..] == rest;
    }
  }

  lemma IndexIsUnique<T>(s: seq<T>, x: T, n: nat, c: nat)
    requires Distinct(s) && n <= |s| && x in s[..n] && c < n && s[c] == x
    ensures IndexOf(s, x, n) == c
  {
    var i := IndexOf(s, x, n);
  }

  lemma {:induction false} ChoicesAreUnique<T>(s: seq<T>, n: nat, choices: seq<nat>)
    requires Distinct(s) && n <= |s| && Choices(n, choices)
    ensures Rearranges(s, Shuffled(s, n, choices), n)
    ensures ChoicesFor(s, Shuffled(s, n, choices), n) == choices
    decreases n
  {
    ShuffledPermutes(s, n, choices);
    if n > 1 {
      var c, rest, goal := choices[0], choices[1..], Shuffled(s, n, choices);
      var next := Swap(s, n - 1, c);
      assert Choices(n - 1, rest);
      SwapDistinct(s, n - 1, c);
      ChoicesAreUnique(next, n - 1, rest);
      assert goal == Shuffled(next, n - 1, rest);
      assert goal[n - 1] == next[n - 1] == s[c];
      PrefixHas(s, goal, n);
      IndexIsUnique(s, goal[n - 1], n, c);
      assert choices == [c] + rest;
    }
  }

  /** Every permutation of distinct entries is reached by exactly one sequence of choices. */
  lemma EveryPermutationOnce<T>(s: seq<T>, goal: seq<T>)
    requires Distinct(s) && multiset(s) == multiset(goal) && |s| == |goal|
    ensures Choices(|s|, ChoicesFor(s, goal, |s|))
    ensures forall choices :: Choices(|s|, choices) ==>
              (Shuffled(s, |s|, choices) == goal <==> choices == ChoicesFor(s, goal, |s|))
  {
    ChoicesReach(s, goal, |s|);
    forall choices | Choices(|s|, choices) && Shuffled(s, |s|, choices) == goal
      ensures choices == ChoicesFor(s, goal, |s|)
    {
      ChoicesAreUnique(s, |s|, choices);
    }
  }

  // ---- The loop -------------------------------------------------------------------------------------

  /** The source of randomness: each draw below a bound yields any value below it, or fails. */
  class Random {
    const answers: nat -> Option<nat>
    var used: nat

    constructor (answers: nat -> Option<nat>)
      ensures this.answers == answers && used == 0
    {
      this.answers := answers;
      used := 0;
    }

    method Below(bound: nat) returns (r: Option<nat>)
      requires bound > 0
      modifies this
      ensures used == old(used) + 1 && r == Draw(answers, old(used), bound)
    {
      r := Draw(answers, used, bound);
      used := used + 1;
    }
  }

  function Draw(answers: nat -> Option<nat>, at: nat, bound: nat): (r: Option<nat>)
    requires bound > 0
    ensures r.Some? ==> r.value < bound
  {
    var answer := answers(at);
    if answer.Some? then Some(answer.value % bound) else None
  }

  /** The choices for `n` entries, drawn one after the other. */
  function Drawn(answers: nat -> Option<nat>, at: nat, n: nat): (choices: Option<seq<nat>>)
    ensures choices.Some? ==> Choices(n, choices.value)
    decreases n
  {
    if n <= 1 then Some([])
    else
      var first := Draw(answers, at, n);
      if first.None? then None
      else
        var rest := Drawn(answers, at + 1, n - 1);
        if rest.None? then None else Some([first.value] + rest.value)
  }

  /** What the loop leaves behind, and whether every draw succeeded. */
  function Attempt<T>(s: seq<T>, n: nat, answers: nat -> Option<nat>, at: nat): (seq<T>, bool)
    requires n <= |s|
    decreases n
  {
    if n <= 1 then (s, true)
    else
      var selected := Draw(answers, at, n);
      if selected.None? then (s, false) else Attempt(Swap(s, n - 1, selected.value), n - 1, answers, at + 1)
  }

  /** The loop shuffles by the choices drawn; if a draw fails it leaves some permutation and says so. */
  lemma {:induction false} AttemptShuffles<T>(s: seq<T>, n: nat, answers: nat -> Option<nat>, at: nat)
    requires n <= |s|
    ensures var choices, after := Drawn(answers, at, n), Attempt(s, n, answers, at);
            && after.1 == choices.Some?
            && multiset(after.0) == multiset(s)
            && (choices.Some? ==> after.0 == Shuffled(s, n, choices.value))
    decreases n
  {
    var selected := if n > 1 then Draw(answers, at, n) else None;
    if selected.Some? {
      SwapPermutes(s, n - 1, selected.value);
      AttemptShuffles(Swap(s, n - 1, selected.value), n - 1, answers, at + 1);
      var rest := Drawn(answers, at + 1, n - 1);
      assert rest.Some? ==> ([selected.value] + rest.value)[1..] == rest.value;
    }
  }

  method SwapAt<T>(values: array<T>, i: nat, j: nat)
    requires i < values.Length && j < values.Length
    modifies values
    ensures values[..] == Swap(old(values[..]), i, j)
  {
    values[i], values[j] := values[j], values[i];
  }

  /** Fisher-Yates in place: from the last index down, each entry swaps with a random one not above it. */
  method InPlace<T>(values: array<T>, random: Random) returns (ok: bool)
    modifies values, random
    ensures (values[..], ok) == Attempt(old(values[..]), values.Length, random.answers, old(random.used))
    ensures ok ==> random.used == old(random.used) + DrawCount(values.Length)
  {
    var index := values.Length - 1;
    while index > 0
      invariant -1 <= index < values.Length && (values.Length > 0 ==> index >= 0)
      invariant random.used == old(random.used) + values.Length - 1 - index
      invariant Attempt(values[..], index + 1, random.answers, random.used)
             == Attempt(old(values[..]), values.Length, random.answers, old(random.used))
    {
      var selected := random.Below(index + 1);
      if selected.None? {
        return false;
      }
      SwapAt(values, index, selected.value);
      index := index - 1;
    }
    return true;
  }
}
