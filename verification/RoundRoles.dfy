/**
 How a round is set up: the bounds a lobby configuration has to meet, who becomes a hunter, and where
 the hiders hide.
 */
module RoundRoles {
  import opened Wrappers
  import opened Shuffle
  import Sorting

  datatype Role = Hunter | Hider

  datatype Assignment = Assignment(player: string, role: Role, volunteer: bool, slot: nat)

  datatype RolesError = BadHunterCount | BadMember | NoHider | NoRandomness

  // ---- Configuration --------------------------------------------------------------------------------

  datatype Configuration = Configuration(
    mode: string, hunterCount: int, hidingSeconds: int, huntingSeconds: int, tauntEnabled: bool,
    tauntInterval: Option<int>, shellLimit: int, reloadMs: int, autoStartThreshold: int)

  /** A request changes the fields it carries. */
  datatype Patch = Patch(
    mode: Option<string>, hunterCount: Option<int>, hidingSeconds: Option<int>, huntingSeconds: Option<int>,
    tauntEnabled: Option<bool>, tauntInterval: Option<int>, shellLimit: Option<int>, reloadMs: Option<int>,
    autoStartThreshold: Option<int>)

  function Or<T>(wish: Option<T>, current: T): T {
    if wish.Some? then wish.value else current
  }

  function ApplyPatch(current: Configuration, patch: Patch, maxPlayers: int): Option<Configuration> {
    var next := Configuration(
      Or(patch.mode, current.mode), Or(patch.hunterCount, current.hunterCount),
      Or(patch.hidingSeconds, current.hidingSeconds), Or(patch.huntingSeconds, current.huntingSeconds),
      Or(patch.tauntEnabled, current.tauntEnabled),
      if patch.tauntInterval.Some? then patch.tauntInterval else current.tauntInterval,
      Or(patch.shellLimit, current.shellLimit), Or(patch.reloadMs, current.reloadMs),
      Or(patch.autoStartThreshold, current.autoStartThreshold));
    if next.mode != "casual" && next.mode != "infection" then None
    else if next.hunterCount < 1 || next.hunterCount > 2 then None
    else if next.hidingSeconds < 10 || next.hidingSeconds > 600 then None
    else if next.huntingSeconds < 30 || next.huntingSeconds > 1800 then None
    else if next.shellLimit < 1 || next.shellLimit > 100 then None
    else if next.reloadMs < 100 || next.reloadMs > 30000 then None
    else if next.autoStartThreshold < 2 || next.autoStartThreshold > maxPlayers then None
    else if next.tauntEnabled then
      if next.tauntInterval.None? || next.tauntInterval.value < 5 || next.tauntInterval.value > 300 then None
      else Some(next)
    else Some(next.(tauntInterval := None))
  }

  // ---- Roles ----------------------------------------------------------------------------------------

  function Volunteers(members: seq<string>, nominated: set<string>): seq<string> {
    if members == [] then []
    else
      var n := |members| - 1;
      Volunteers(members[..n], nominated) + if members[n] in nominated then [members[n]] else []
  }

  function Others(members: seq<string>, nominated: set<string>): seq<string> {
    if members == [] then []
    else
      var n := |members| - 1;
      Others(members[..n], nominated) + if members[n] in nominated then [] else [members[n]]
  }

  predicate ValidMembers(members: seq<string>) {
    Distinct(members) && "" !in members
  }

  /** The members in their order; the first `hunterCount` candidates become hunters. */
  function Roles(members: seq<string>, nominated: set<string>, candidates: seq<string>, hunterCount: nat)
    : (roles: seq<Assignment>)
    requires hunterCount <= |candidates|
    ensures |roles| == |members|
  {
    seq(|members|, i requires 0 <= i < |members| =>
      Assignment(members[i], if members[i] in candidates[..hunterCount] then Hunter else Hider,
                 members[i] in nominated, 0))
  }

  lemma {:induction false} MembersSplit(members: seq<string>, nominated: set<string>)
    ensures multiset(Volunteers(members, nominated)) + multiset(Others(members, nominated)) == multiset(members)
    ensures forall x :: x in Volunteers(members, nominated) <==> x in members && x in nominated
    ensures forall x :: x in Others(members, nominated) <==> x in members && x !in nominated
  {
    if members != [] {
      var n := |members| - 1;
      MembersSplit(members[..n], nominated);
      assert members == members[..n] + [members[n]];
    }
  }

  lemma {:induction false} DistinctCardinality<T>(s: seq<T>)
    requires Distinct(s)
    ensures |set x | x in s| == |s|
  {
    if s != [] {
      var n := |s| - 1;
      DistinctCardinality(s[..n]);
      assert (set x | x in s) == (set x | x in s[..n]) + {s[n]};
    }
  }

  function HuntersOf(assignments: seq<Assignment>): set<string> {
    set a | a in assignments && a.role.Hunter? :: a.player
  }

  ghost predicate IsPermutation(a: seq<string>, b: seq<string>) {
    multiset(a) == multiset(b)
  }

  /** What the candidates are: the volunteers in some order, then the others in some order. */
  ghost predicate AreCandidates(members: seq<string>, nominated: set<string>, v: seq<string>, o: seq<string>) {
    IsPermutation(v, Volunteers(members, nominated)) && IsPermutation(o, Others(members, nominated))
  }

  lemma CandidatesArePermuted(members: seq<string>, nominated: set<string>, v: seq<string>, o: seq<string>)
    requires ValidMembers(members) && AreCandidates(members, nominated, v, o)
    ensures multiset(v + o) == multiset(members) && Distinct(v + o) && |v + o| == |members|
    ensures forall x :: x in v <==> x in members && x in nominated
    ensures forall x :: x in o <==> x in members && x !in nominated
  {
    MembersSplit(members, nominated);
    assert multiset(v + o) == multiset(members);
    RearrangedDistinct(members, v + o);
    assert |v + o| == |multiset(v + o)| == |multiset(members)| == |members|;
    forall x ensures x in v <==> x in Volunteers(members, nominated) {
      assert x in v <==> x in multiset(v);
      assert x in Volunteers(members, nominated) <==> x in multiset(Volunteers(members, nominated));
    }
    forall x ensures x in o <==> x in Others(members, nominated) {
      assert x in o <==> x in multiset(o);
      assert x in Others(members, nominated) <==> x in multiset(Others(members, nominated));
    }
  }

  /** A hunter who did not volunteer. */
  predicate Drafted(assignment: Assignment) {
    assignment.role.Hunter? && !assignment.volunteer
  }

  /** What the selection promises about the assignments. */
  ghost predicate AreFair(members: seq<string>, nominated: set<string>, hunterCount: nat, roles: seq<Assignment>) {
    && |roles| == |members|
    && (forall i :: 0 <= i < |members| ==>
          roles[i].player == members[i] && roles[i].volunteer == (members[i] in nominated) && roles[i].slot == 0)
    && |HuntersOf(roles)| == hunterCount
    && (forall i, j :: 0 <= i < |roles| && 0 <= j < |roles| && Drafted(roles[i]) && roles[j].volunteer ==>
          roles[j].role.Hunter?)
    && (exists i :: 0 <= i < |roles| && roles[i].role.Hider?)
  }

  /**
   However the candidates were shuffled: exactly the configured number of hunters, someone left to
   hide, and nobody hunts against their wish while a volunteer hides.
   */
  lemma SelectionIsFair(members: seq<string>, nominated: set<string>, v: seq<string>, o: seq<string>, hunterCount: nat)
    requires ValidMembers(members) && AreCandidates(members, nominated, v, o)
    requires 1 <= hunterCount < |members|
    ensures |v + o| == |members|
    ensures AreFair(members, nominated, hunterCount, Roles(members, nominated, v + o, hunterCount))
  {
    CandidatesArePermuted(members, nominated, v, o);
    var candidates := v + o;
    var chosen, roles := candidates[..hunterCount], Roles(members, nominated, candidates, hunterCount);
    HuntersAreChosen(members, nominated, candidates, hunterCount);
    DistinctCardinality(chosen);
    forall i, j | 0 <= i < |roles| && 0 <= j < |roles| && Drafted(roles[i]) && roles[j].volunteer
      ensures roles[j].role.Hunter?
    {
      var a :| 0 <= a < hunterCount && chosen[a] == roles[i].player;
      assert a >= |v|;
      assert members[j] in v;
      var b :| 0 <= b < |v| && v[b] == members[j];
      assert chosen[b] == members[j];
    }
    SomeoneHides(members, nominated, candidates, hunterCount);
  }

  lemma HuntersAreChosen(members: seq<string>, nominated: set<string>, candidates: seq<string>, hunterCount: nat)
    requires multiset(candidates) == multiset(members) && hunterCount <= |candidates|
    ensures HuntersOf(Roles(members, nominated, candidates, hunterCount)) == set x | x in candidates[..hunterCount]
  {
    var roles := Roles(members, nominated, candidates, hunterCount);
    forall x | x in candidates[..hunterCount] ensures x in HuntersOf(roles) {
      assert x in multiset(candidates);
      assert x in multiset(members);
      var i :| 0 <= i < |members| && members[i] == x;
      assert roles[i] in roles && roles[i].player == x;
    }
  }

  lemma SomeoneHides(members: seq<string>, nominated: set<string>, candidates: seq<string>, hunterCount: nat)
    requires multiset(candidates) == multiset(members) && Distinct(candidates) && hunterCount < |candidates|
    ensures var roles := Roles(members, nominated, candidates, hunterCount);
            exists i :: 0 <= i < |roles| && roles[i].role.Hider?
  {
    var roles, x := Roles(members, nominated, candidates, hunterCount), candidates[hunterCount];
    assert x in multiset(candidates);
    assert x in multiset(members);
    var i :| 0 <= i < |members| && members[i] == x;
    assert roles[i].role.Hider?;
  }

  lemma DistinctPrefix<T>(s: seq<T>, n: nat)
    requires Distinct(s) && n <= |s|
    ensures Distinct(s[..n])
  {
  }

  /** If a non-volunteer hunts, every volunteer does, so the hunters are a prefix of the candidates. */
  lemma HuntersArePrefix(v: seq<string>, o: seq<string>, hunters: set<string>, k: nat, m: nat, prefix: seq<string>)
    requires k <= |v| && m <= |o| && (m > 0 ==> k == |v|) && prefix == (v + o)[..k + m]
    requires forall x :: x in hunters ==> x in v + o
    requires forall x :: x in v[..k] ==> x in hunters
    requires forall x :: x in v[k..] ==> x !in hunters
    requires forall x :: x in o[..m] ==> x in hunters
    requires forall x :: x in o[m..] ==> x !in hunters
    ensures (set x | x in prefix) == hunters
  {
    assert prefix == v[..k] + o[..m];
    assert v == v[..k] + v[k..] && o == o[..m] + o[m..];
    forall x | x in hunters ensures x in prefix {
      assert x in v + o;
    }
  }

  lemma DraftedTakesAll(members: seq<string>, nominated: set<string>, hunters: set<string>, v: seq<string>,
                        o: seq<string>, k: nat, m: nat)
    requires ValidMembers(members) && AreCandidates(members, nominated, v, o) && k <= |v| && m <= |o|
    requires (exists x :: x in hunters && x !in nominated) ==>
               forall x :: x in members && x in nominated ==> x in hunters
    requires forall x :: x in v[k..] ==> x !in hunters
    requires forall x :: x in o[..m] ==> x in hunters
    ensures m > 0 ==> k == |v|
  {
    CandidatesArePermuted(members, nominated, v, o);
    assert k < |v| ==> v[k..][0] in v[k..] && v[k..][0] in v;
    assert m > 0 ==> o[..m][0] in o[..m] && o[..m][0] in o;
  }

  /** Any set of hunters the rule allows comes out of some order of the volunteers and of the others. */
  lemma EveryFairChoiceIsSelectable(members: seq<string>, nominated: set<string>, hunters: set<string>,
                                    hunterCount: nat)
    returns (v: seq<string>, o: seq<string>)
    requires ValidMembers(members) && 1 <= hunterCount < |members|
    requires |hunters| == hunterCount && forall x :: x in hunters ==> x in members
    requires (exists x :: x in hunters && x !in nominated) ==>
               forall x :: x in members && x in nominated ==> x in hunters
    ensures AreCandidates(members, nominated, v, o) && |v + o| == |members|
    ensures HuntersOf(Roles(members, nominated, v + o, hunterCount)) == hunters
  {
    var k, m;
    v, k := HuntersFirst(Volunteers(members, nominated), hunters);
    o, m := HuntersFirst(Others(members, nominated), hunters);
    CandidatesArePermuted(members, nominated, v, o);
    DraftedTakesAll(members, nominated, hunters, v, o, k, m);
    forall x | x in hunters ensures x in v + o {
      assert x in v || x in o;
    }
    var prefix := (v + o)[..k + m];
    HuntersArePrefix(v, o, hunters, k, m, prefix);
    DistinctPrefix(v + o, k + m);
    DistinctCardinality(prefix);
    HuntersAreChosen(members, nominated, v + o, hunterCount);
  }

  lemma {:induction false} HuntersFirst(s: seq<string>, hunters: set<string>) returns (r: seq<string>, k: nat)
    ensures multiset(r) == multiset(s) && k <= |r|
    ensures forall x :: x in r[..k] ==> x in hunters
    ensures forall x :: x in r[k..] ==> x !in hunters
  {
    if s == [] {
      r, k := [], 0;
    } else {
      var n := |s| - 1;
      r, k := HuntersFirst(s[..n], hunters);
      assert s == s[..n] + [s[n]];
      assert r == r[..k] + r[k..];
      if s[n] in hunters {
        var longer := [s[n]] + r;
        assert longer[..k + 1] == [s[n]] + r[..k] && longer[k + 1..] == r[k..];
        r, k := longer, k + 1;
      } else {
        var longer := r + [s[n]];
        assert longer[..k] == r[..k] && longer[k..] == r[k..] + [s[n]];
        r := longer;
      }
    }
  }

  // ---- The order of strings -------------------------------------------------------------------------

  predicate StringLeq(a: string, b: string) {
    a == [] || (b != [] && (a[0] < b[0] || (a[0] == b[0] && StringLeq(a[1..], b[1..]))))
  }

  function SortStrings(s: seq<string>): seq<string> {
    Sorting.Sort(StringLeq, s)
  }

  // ---- selectRoundRoles -----------------------------------------------------------------------------

  function ShuffleSorted(entries: seq<string>, answers: nat -> Option<nat>, at: nat): (seq<string>, bool) {
    var sorted := SortStrings(entries);
    Attempt(sorted, |sorted|, answers, at)
  }

  /** The end of the selection, from the shuffled volunteers and the shuffled others. */
  function FromShuffles(members: seq<string>, nominated: set<string>, hunterCount: nat, v: (seq<string>, bool),
                        o: (seq<string>, bool))
    : Result<seq<Assignment>, RolesError>
  {
    if !v.1 || !o.1 then Failure(NoRandomness)
    else if hunterCount > |v.0 + o.0| then Failure(BadHunterCount)
    else Success(Roles(members, nominated, v.0 + o.0, hunterCount))
  }

  function SelectRoles(members: seq<string>, nominated: set<string>, hunterCount: int, answers: nat -> Option<nat>,
                       at: nat)
    : Result<seq<Assignment>, RolesError>
  {
    if hunterCount < 1 || hunterCount >= |members| then Failure(BadHunterCount)
    else if !ValidMembers(members) then Failure(BadMember)
    else
      var volunteers, others := Volunteers(members, nominated), Others(members, nominated);
      FromShuffles(members, nominated, hunterCount, ShuffleSorted(volunteers, answers, at),
                   ShuffleSorted(others, answers, at + DrawCount(|volunteers|)))
  }

  /** How many draws a complete selection takes. */
  function RolesDraws(members: seq<string>, nominated: set<string>): nat {
    DrawCount(|Volunteers(members, nominated)|) + DrawCount(|Others(members, nominated)|)
  }

  lemma SortedShufflePermutes(entries: seq<string>, answers: nat -> Option<nat>, at: nat)
    returns (r: (seq<string>, bool))
    ensures r == ShuffleSorted(entries, answers, at) && IsPermutation(r.0, entries)
    ensures (forall k :: answers(k).Some?) ==> r.1
  {
    r := ShuffleSorted(entries, answers, at);
    var sorted := SortStrings(entries);
    Sorting.SortPermutes(StringLeq, entries);
    AttemptShuffles(sorted, |sorted|, answers, at);
    if forall k :: answers(k).Some? {
      AlwaysDrawn(answers, at, |sorted|);
    }
  }

  lemma ShufflesAreFair(members: seq<string>, nominated: set<string>, hunterCount: nat, v: (seq<string>, bool),
                        o: (seq<string>, bool))
    requires 1 <= hunterCount < |members| && ValidMembers(members)
    requires AreCandidates(members, nominated, v.0, o.0)
    ensures var r := FromShuffles(members, nominated, hunterCount, v, o);
            && r.Success? == (v.1 && o.1)
            && (if r.Success? then AreFair(members, nominated, hunterCount, r.value) else r.error == NoRandomness)
  {
    SelectionIsFair(members, nominated, v.0, o.0, hunterCount);
  }

  /** The selection, by the two shuffles it makes. */
  lemma SelectsFromShuffles(members: seq<string>, nominated: set<string>, hunterCount: nat,
                            answers: nat -> Option<nat>, at: nat)
    returns (v: (seq<string>, bool), o: (seq<string>, bool))
    requires 1 <= hunterCount < |members| && ValidMembers(members)
    ensures SelectRoles(members, nominated, hunterCount, answers, at)
         == FromShuffles(members, nominated, hunterCount, v, o)
    ensures AreCandidates(members, nominated, v.0, o.0) && ((forall k :: answers(k).Some?) ==> v.1 && o.1)
  {
    var volunteers, others := Volunteers(members, nominated), Others(members, nominated);
    v := SortedShufflePermutes(volunteers, answers, at);
    o := SortedShufflePermutes(others, answers, at + DrawCount(|volunteers|));
  }

  lemma GoodInputsSelect(members: seq<string>, nominated: set<string>, hunterCount: nat, answers: nat -> Option<nat>,
                         at: nat)
    requires 1 <= hunterCount < |members| && ValidMembers(members)
    ensures var r := SelectRoles(members, nominated, hunterCount, answers, at);
            && (if r.Success? then AreFair(members, nominated, hunterCount, r.value) else r.error == NoRandomness)
            && ((forall k :: answers(k).Some?) ==> r.Success?)
  {
    var v, o := SelectsFromShuffles(members, nominated, hunterCount, answers, at);
    ShufflesAreFair(members, nominated, hunterCount, v, o);
  }

  /**
   For every membership, nomination and random source: role selection succeeds exactly when the count
   leaves a hider, the members are distinct and named and no draw fails, and what it returns is fair.
   */
  lemma SelectRolesIsFair(members: seq<string>, nominated: set<string>, hunterCount: int,
                          answers: nat -> Option<nat>, at: nat)
    ensures var r := SelectRoles(members, nominated, hunterCount, answers, at);
            && (r.Success? ==> hunterCount >= 1 && AreFair(members, nominated, hunterCount, r.value))
            && (r == Failure(BadHunterCount) <==> hunterCount < 1 || hunterCount >= |members|)
            && (r == Failure(BadMember) <==> 1 <= hunterCount < |members| && !ValidMembers(members))
            && ((forall k :: answers(k).Some?) && 1 <= hunterCount < |members| && ValidMembers(members) ==> r.Success?)
  {
    if 1 <= hunterCount < |members| && ValidMembers(members) {
      GoodInputsSelect(members, nominated, hunterCount, answers, at);
    }
  }

  lemma {:induction false} AlwaysDrawn(answers: nat -> Option<nat>, at: nat, n: nat)
    requires forall k :: answers(k).Some?
    ensures Drawn(answers, at, n).Some?
    decreases n
  {
    if n > 1 {
      AlwaysDrawn(answers, at + 1, n - 1);
    }
  }

  /** Splits the members into volunteers and others; a nameless or repeated member is refused. */
  method SplitMembers(members: seq<string>, nominated: set<string>)
    returns (ok: bool, volunteers: seq<string>, others: seq<string>)
    ensures ok == ValidMembers(members)
    ensures ok ==> volunteers == Volunteers(members, nominated) && others == Others(members, nominated)
  {
    var seen: set<string> := {};
    volunteers, others := [], [];
    var i := 0;
    while i < |members|
      invariant i <= |members| && ValidMembers(members[..i])
      invariant seen == set x | x in members[..i]
      invariant volunteers == Volunteers(members[..i], nominated)
      invariant others == Others(members[..i], nominated)
    {
      var player := members[i];
      assert members[..i + 1] == members[..i] + [player];
      if player == "" || player in seen {
        assert members[i] == player;
        if player in seen {
          var k :| 0 <= k < i && members[..i][k] == player;
          assert members[k] == members[i];
        }
        return false, [], [];
      }
      seen := seen + {player};
      if player in nominated {
        volunteers := volunteers + [player];
      } else {
        others := others + [player];
      }
      i := i + 1;
    }
    assert members[..i] == members;
    ok := true;
  }

  method ShuffleStrings(entries: seq<string>, random: Random) returns (ok: bool, shuffled: seq<string>)
    modifies random
    ensures (shuffled, ok) == ShuffleSorted(entries, random.answers, old(random.used))
    ensures ok ==> random.used == old(random.used) + DrawCount(|entries|)
  {
    var sorted := SortStrings(entries);
    Sorting.SortPermutes(StringLeq, entries);
    var values := new string[|sorted|](k requires 0 <= k < |sorted| => sorted[k]);
    assert values[..] == sorted;
    ok := InPlace(values, random);
    shuffled := values[..];
  }

  method HandOutRoles(members: seq<string>, nominated: set<string>, candidates: seq<string>, hunterCount: nat)
    returns (assignments: seq<Assignment>)
    requires hunterCount <= |candidates|
    ensures assignments == Roles(members, nominated, candidates, hunterCount)
  {
    var hunters := set x | x in candidates[..hunterCount];
    assignments := [];
    var i := 0;
    while i < |members|
      invariant i <= |members| && |assignments| == i
      invariant forall k :: 0 <= k < i ==>
                  assignments[k] == Roles(members, nominated, candidates, hunterCount)[k]
    {
      assignments := assignments +
        [Assignment(members[i], if members[i] in hunters then Hunter else Hider, members[i] in nominated, 0)];
      i := i + 1;
    }
  }

  /** Splits, sorts and shuffles the members and hands out the roles. */
  method SelectRoundRoles(members: seq<string>, nominated: set<string>, hunterCount: int, random: Random)
    returns (r: Result<seq<Assignment>, RolesError>)
    modifies random
    ensures r == SelectRoles(members, nominated, hunterCount, random.answers, old(random.used))
    ensures r.Success? ==> random.used == old(random.used) + RolesDraws(members, nominated)
  {
    if hunterCount < 1 || hunterCount >= |members| {
      return Failure(BadHunterCount);
    }
    var valid, volunteers, others := SplitMembers(members, nominated);
    if !valid {
      return Failure(BadMember);
    }
    var ok, v := ShuffleStrings(volunteers, random);
    if !ok {
      return Failure(NoRandomness);
    }
    var o;
    ok, o := ShuffleStrings(others, random);
    if !ok {
      return Failure(NoRandomness);
    }
    if hunterCount > |v + o| {
      return Failure(BadHunterCount);
    }
    var assignments := HandOutRoles(members, nominated, v + o, hunterCount);
    return Success(assignments);
  }
}
