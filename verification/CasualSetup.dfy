/**
 The two ends of a casual round: what role and slot assignment produce is always accepted as a round
 and starts it in a consistent state, and what a round has discovered always passes the terminal check.
 */
module CasualSetup {
  import opened Wrappers
  import opened Shuffle
  import opened RoundRoles
  import opened HidingSlots
  import opened CasualRound
  import opened CasualTheorems
  import Sorting

  // ---- A new round is consistent ----------------------------------------------------------------------

  /** What enrolling has built so far, before anything has happened in the round. */
  ghost predicate Fresh(round: Round, limit: int) {
    && SidesAgree(round)
    && (forall p :: p in round.hunters ==> round.hunters[p] == HunterState(limit, None, map[]))
    && round.found == map[] && round.discoveries == [] && round.ending.None? && round.phase == Preparing
    && "" !in round.assignments
  }

  lemma HunterKeepsFresh(round: Round, assignment: Assignment, limit: int)
    requires Fresh(round, limit) && assignment.role.Hunter? && Enrol(round, assignment, limit).Success?
    ensures Fresh(Enrol(round, assignment, limit).value, limit)
  {
    var after := Enrol(round, assignment, limit).value;
    forall p | p in after.assignments && after.assignments[p].role.Hider? ensures IsHidden(after, p) {
      assert IsHidden(round, p);
    }
  }

  lemma HiderStaysHidden(round: Round, after: Round, p: string, slot: int)
    requires IsHidden(round, p) && slot !in round.hiderBySlot
    requires forall k :: k in round.hiderBySlot ==>
               k in after.hiderBySlot && after.hiderBySlot[k] == round.hiderBySlot[k]
    ensures IsHidden(after, p)
  {
    var k :| k in round.hiderBySlot && round.hiderBySlot[k] == p;
    assert k in after.hiderBySlot && after.hiderBySlot[k] == p;
  }

  /** The slots of the hiders stay apart when a free slot goes to a new player. */
  lemma SlotsStayApart(round: Round, slot: int, player: string)
    requires SidesAgree(round) && slot !in round.hiderBySlot && player !in round.assignments
    ensures var slots := round.hiderBySlot[slot := player];
            forall j, k :: j in slots && k in slots && j != k ==> slots[j] != slots[k]
  {
    assert forall k :: k in round.hiderBySlot ==> round.hiderBySlot[k] in round.assignments;
  }

  lemma HiderKeepsSides(round: Round, after: Round, assignment: Assignment)
    requires SidesAgree(round) && assignment.role.Hider? && assignment.player !in round.assignments
    requires 1 <= assignment.slot <= round.targets && assignment.slot !in round.hiderBySlot
    requires after.assignments == round.assignments[assignment.player := assignment]
    requires after.hiderBySlot == round.hiderBySlot[assignment.slot as int := assignment.player]
    requires after.hunters == round.hunters && after.targets == round.targets
    ensures SidesAgree(after)
  {
    SlotsStayApart(round, assignment.slot, assignment.player);
    forall p | p in after.assignments && after.assignments[p].role.Hider? ensures IsHidden(after, p) {
      if p == assignment.player {
        assert after.hiderBySlot[assignment.slot] == p;
      } else {
        HiderStaysHidden(round, after, p, assignment.slot);
      }
    }
  }

  lemma HiderKeepsFresh(round: Round, assignment: Assignment, limit: int)
    requires Fresh(round, limit) && assignment.role.Hider? && Enrol(round, assignment, limit).Success?
    ensures Fresh(Enrol(round, assignment, limit).value, limit)
  {
    HiderKeepsSides(round, Enrol(round, assignment, limit).value, assignment);
  }

  lemma EnrolKeepsFresh(round: Round, assignment: Assignment, limit: int)
    requires Fresh(round, limit) && Enrol(round, assignment, limit).Success?
    ensures Fresh(Enrol(round, assignment, limit).value, limit)
  {
    if assignment.role.Hunter? {
      HunterKeepsFresh(round, assignment, limit);
    } else {
      HiderKeepsFresh(round, assignment, limit);
    }
  }

  lemma {:induction false} EnrolAllKeepsFresh(round: Round, assignments: seq<Assignment>, limit: int)
    requires Fresh(round, limit) && EnrolAll(round, assignments, limit).Success?
    ensures Fresh(EnrolAll(round, assignments, limit).value, limit)
    ensures Timed(round, EnrolAll(round, assignments, limit).value)
  {
    if assignments != [] {
      var n := |assignments| - 1;
      EnrolAllKeepsFresh(round, assignments[..n], limit);
      EnrolKeepsFresh(EnrolAll(round, assignments[..n], limit).value, assignments[n], limit);
    }
  }

  predicate Timed(a: Round, b: Round) {
    b.hiding == a.hiding && b.hunting == a.hunting && b.reload == a.reload && b.deadline == a.deadline
  }

  lemma FreshInvariant(round: Round, limit: int)
    requires Fresh(round, limit) && HasDurations(round) && limit > 0 && round.hiderBySlot != map[]
    ensures Invariant(round, limit)
  {
    forall p | p in round.hunters
      ensures round.hunters[p].shells >= 0
      ensures round.hunters[p].shells + |AcceptedIds(round.hunters[p].commands)| == limit
    {
      assert AcceptedIds(map[]) == {};
    }
    assert |round.hiderBySlot| > 0;
  }

  /** Every round that is accepted starts out consistent, with full shells and nothing fired. */
  lemma NewRoundIsConsistent(setup: Setup)
    requires NewRound(setup).Success?
    ensures Invariant(NewRound(setup).value, setup.configuration.shellLimit)
    ensures forall p :: p in NewRound(setup).value.hunters ==>
              NewRound(setup).value.hunters[p] == HunterState(setup.configuration.shellLimit, None, map[])
  {
    var limit := setup.configuration.shellLimit;
    assert Fresh(EmptyRound(setup), limit);
    EnrolAllKeepsFresh(EmptyRound(setup), setup.assignments, limit);
    FreshInvariant(NewRound(setup).value, limit);
  }

  // ---- A set-up round is accepted ---------------------------------------------------------------------

  predicate Distinguished(assignments: seq<Assignment>) {
    forall i, j :: 0 <= i < j < |assignments| ==>
      && assignments[i].player != assignments[j].player
      && (assignments[i].role.Hider? && assignments[j].role.Hider? ==> assignments[i].slot != assignments[j].slot)
  }

  predicate Placed(assignments: seq<Assignment>, targets: nat) {
    forall i :: 0 <= i < |assignments| ==>
      && assignments[i].player != ""
      && (assignments[i].role.Hider? ==> 1 <= assignments[i].slot <= targets)
  }

  /** The round has enrolled exactly these assignments. */
  ghost predicate Enrolled(round: Round, assignments: seq<Assignment>) {
    && (forall p :: p in round.assignments ==> exists i :: 0 <= i < |assignments| && assignments[i].player == p)
    && (forall k :: k in round.hiderBySlot ==>
          exists i :: 0 <= i < |assignments| && assignments[i].role.Hider? && assignments[i].slot == k)
    && (forall i :: 0 <= i < |assignments| ==>
          if assignments[i].role.Hider? then assignments[i].slot in round.hiderBySlot
          else assignments[i].player in round.hunters)
  }

  lemma {:induction false} EnrolAllSucceeds(round: Round, assignments: seq<Assignment>, limit: int)
    requires Distinguished(assignments) && Placed(assignments, round.targets)
    requires round.assignments == map[] && round.hiderBySlot == map[] && round.hunters == map[]
    ensures EnrolAll(round, assignments, limit).Success?
    ensures Enrolled(EnrolAll(round, assignments, limit).value, assignments)
    ensures EnrolAll(round, assignments, limit).value.targets == round.targets
  {
    if assignments != [] {
      var n := |assignments| - 1;
      EnrolAllSucceeds(round, assignments[..n], limit);
      EnrolNext(EnrolAll(round, assignments[..n], limit).value, assignments, limit);
    }
  }

  lemma EnrolNext(earlier: Round, assignments: seq<Assignment>, limit: int)
    requires assignments != [] && Distinguished(assignments) && Placed(assignments, earlier.targets)
    requires Enrolled(earlier, assignments[..|assignments| - 1])
    ensures var last := assignments[|assignments| - 1];
            && Enrol(earlier, last, limit).Success?
            && Enrolled(Enrol(earlier, last, limit).value, assignments)
            && Enrol(earlier, last, limit).value.targets == earlier.targets
  {
    var n := |assignments| - 1;
    NextIsFree(earlier, assignments);
    NextIsEnrolled(earlier, assignments, Enrol(earlier, assignments[n], limit).value);
  }

  lemma NextIsFree(earlier: Round, assignments: seq<Assignment>)
    requires assignments != [] && Distinguished(assignments) && Enrolled(earlier, assignments[..|assignments| - 1])
    ensures var last := assignments[|assignments| - 1];
            && last.player !in earlier.assignments
            && (last.role.Hider? ==> last.slot !in earlier.hiderBySlot)
  {
    var n := |assignments| - 1;
    var last := assignments[n];
    forall i | 0 <= i < n
      ensures assignments[..n][i].player != last.player
      ensures assignments[..n][i].role.Hider? && last.role.Hider? ==> assignments[..n][i].slot != last.slot
    {
      assert assignments[..n][i] == assignments[i];
    }
  }

  lemma NextIsEnrolled(earlier: Round, assignments: seq<Assignment>, after: Round)
    requires assignments != [] && Enrolled(earlier, assignments[..|assignments| - 1])
    requires var last := assignments[|assignments| - 1];
             && after.assignments == earlier.assignments[last.player := last]
             && (if last.role.Hider? then
                   after.hunters == earlier.hunters && last.slot in after.hiderBySlot
                   && after.hiderBySlot.Keys == earlier.hiderBySlot.Keys + {last.slot}
                 else
                   last.player in after.hunters && earlier.hunters.Keys <= after.hunters.Keys
                   && after.hiderBySlot == earlier.hiderBySlot)
    ensures Enrolled(after, assignments)
  {
    var n := |assignments| - 1;
    forall p | p in after.assignments ensures exists i :: 0 <= i < |assignments| && assignments[i].player == p {
      if p in earlier.assignments {
        var i :| 0 <= i < n && assignments[..n][i].player == p;
        assert assignments[i].player == p;
      } else {
        assert assignments[n].player == p;
      }
    }
    forall k | k in after.hiderBySlot
      ensures exists i :: 0 <= i < |assignments| && assignments[i].role.Hider? && assignments[i].slot == k
    {
      if k in earlier.hiderBySlot {
        var i :| 0 <= i < n && assignments[..n][i].role.Hider? && assignments[..n][i].slot == k;
        assert assignments[i].role.Hider? && assignments[i].slot == k;
      } else {
        assert k in after.hiderBySlot.Keys;
        assert assignments[n].role.Hider? && assignments[n].slot == k;
      }
    }
    forall i | 0 <= i < |assignments|
      ensures if assignments[i].role.Hider? then assignments[i].slot in after.hiderBySlot
              else assignments[i].player in after.hunters
    {
      if i < n {
        assert assignments[..n][i] == assignments[i];
        assert assignments[i].role.Hider? ==> assignments[i].slot in after.hiderBySlot.Keys;
        assert !assignments[i].role.Hider? ==> assignments[i].player in after.hunters.Keys;
      }
    }
  }

  lemma FairAndHiddenIsPlaced(members: seq<string>, nominated: set<string>, hunterCount: nat,
                              roles: seq<Assignment>, targets: nat, hidden: seq<Assignment>)
    requires ValidMembers(members) && AreFair(members, nominated, hunterCount, roles)
    requires AreHidden(roles, targets, hidden)
    ensures Distinguished(hidden) && Placed(hidden, targets)
  {
    forall i | 0 <= i < |hidden| ensures hidden[i].player == members[i] {
    }
    forall i | 0 <= i < |members| ensures members[i] != "" {
      assert members[i] in members;
    }
  }

  lemma BothSidesPresent(members: seq<string>, nominated: set<string>, hunterCount: nat, roles: seq<Assignment>,
                         targets: nat, hidden: seq<Assignment>)
    returns (hunter: nat, hider: nat)
    requires hunterCount >= 1 && AreFair(members, nominated, hunterCount, roles)
    requires AreHidden(roles, targets, hidden)
    ensures hunter < |hidden| && hidden[hunter].role.Hunter?
    ensures hider < |hidden| && hidden[hider].role.Hider?
  {
    var i :| 0 <= i < |roles| && roles[i].role.Hider?;
    hider := i;
    var p :| p in HuntersOf(roles);
    var a :| a in roles && a.role.Hunter? && a.player == p;
    var k :| 0 <= k < |roles| && roles[k] == a;
    hunter := k;
  }

  /**
   Start of round: with any casual configuration the patch function accepts, any members, nominations
   and random draws, what role selection and slot assignment return is never rejected as a round.
   */
  lemma SetupIsNeverRejected(current: Configuration, patch: Patch, maxPlayers: int, members: seq<string>,
                             nominated: set<string>, answers: nat -> Option<nat>, rolesAt: nat, slotsAt: nat,
                             id: string, startedAt: int)
    requires ApplyPatch(current, patch, maxPlayers).Some? && id != ""
    requires ApplyPatch(current, patch, maxPlayers).value.mode == "casual"
    ensures var c := ApplyPatch(current, patch, maxPlayers).value;
            var roles := SelectRoles(members, nominated, c.hunterCount, answers, rolesAt);
            roles.Success? ==>
              var slots := AssignSlots(roles.value, answers, slotsAt);
              && slots != Failure(NoHider)
              && (slots.Success? ==>
                    NewRound(Setup(id, c.mode, startedAt, c, slots.value.0, slots.value.1)).Success?)
  {
    var c := ApplyPatch(current, patch, maxPlayers).value;
    var roles := SelectRoles(members, nominated, c.hunterCount, answers, rolesAt);
    if roles.Success? {
      SelectRolesIsFair(members, nominated, c.hunterCount, answers, rolesAt);
      AssignSlotsHides(roles.value, answers, slotsAt);
      var slots := AssignSlots(roles.value, answers, slotsAt);
      if slots.Success? {
        var setup := Setup(id, c.mode, startedAt, c, slots.value.0, slots.value.1);
        HiddenRoundIsAccepted(setup, members, nominated, roles.value);
      }
    }
  }

  lemma HiddenRoundIsAccepted(setup: Setup, members: seq<string>, nominated: set<string>, roles: seq<Assignment>)
    requires setup.id != "" && setup.mode == "casual"
    requires setup.configuration.hidingSeconds > 0 && setup.configuration.huntingSeconds > 0
    requires setup.configuration.shellLimit > 0 && setup.configuration.reloadMs > 0
    requires setup.configuration.hunterCount >= 1 && ValidMembers(members)
    requires AreFair(members, nominated, setup.configuration.hunterCount, roles)
    requires AreHidden(roles, setup.targets, setup.assignments)
    ensures NewRound(setup).Success?
  {
    var count := setup.configuration.hunterCount;
    FairAndHiddenIsPlaced(members, nominated, count, roles, setup.targets, setup.assignments);
    EnrolAllSucceeds(EmptyRound(setup), setup.assignments, setup.configuration.shellLimit);
    var hunter, hider := BothSidesPresent(members, nominated, count, roles, setup.targets, setup.assignments);
    var round := EnrolAll(EmptyRound(setup), setup.assignments, setup.configuration.shellLimit).value;
    assert setup.assignments[hunter].player in round.hunters;
    assert setup.assignments[hider].slot in round.hiderBySlot;
  }

  // ---- The terminal check -----------------------------------------------------------------------------

  predicate NatLeq(a: nat, b: nat) {
    a <= b
  }

  function SortNats(s: seq<nat>): seq<nat> {
    Sorting.Sort(NatLeq, s)
  }

  function Sequences(discoveries: seq<Discovery>): (s: seq<nat>)
    ensures |s| == |discoveries|
    ensures forall i :: 0 <= i < |s| ==> s[i] == discoveries[i].sequence
  {
    seq(|discoveries|, i requires 0 <= i < |discoveries| => discoveries[i].sequence)
  }

  predicate HasRole(roles: map<string, Role>, player: string, role: Role) {
    player in roles && roles[player] == role
  }

  predicate DiscoveryPasses(roles: map<string, Role>, d: Discovery) {
    && HasRole(roles, d.hunter, Hunter) && HasRole(roles, d.hider, Hider)
    && d.hunter != d.hider && d.sequence > 0
  }

  /** The discovery rules of the terminal check, on the roles the players had. */
  predicate DiscoveriesPass(roles: map<string, Role>, discoveries: seq<Discovery>) {
    && (forall i :: 0 <= i < |discoveries| ==> DiscoveryPasses(roles, discoveries[i]))
    && HidersDiffer(discoveries)
    && SortNats(Sequences(discoveries)) == Slots(|discoveries|)
  }

  predicate HidersDiffer(discoveries: seq<Discovery>) {
    forall i, j :: 0 <= i < j < |discoveries| ==> discoveries[i].hider != discoveries[j].hider
  }

  function HidersIn(discoveries: seq<Discovery>): set<string> {
    set k | 0 <= k < |discoveries| :: discoveries[k].hider
  }

  /** What the set of hiders seen so far says about the next discovery. */
  lemma HidersGrow(discoveries: seq<Discovery>, i: nat)
    requires i < |discoveries|
    ensures HidersIn(discoveries[..i + 1]) == HidersIn(discoveries[..i]) + {discoveries[i].hider}
    ensures discoveries[i].hider in HidersIn(discoveries[..i]) ==> !HidersDiffer(discoveries)
    ensures HidersDiffer(discoveries[..i]) && discoveries[i].hider !in HidersIn(discoveries[..i]) ==>
              HidersDiffer(discoveries[..i + 1])
  {
    var shorter, longer := discoveries[..i], discoveries[..i + 1];
    forall h | h in HidersIn(shorter) ensures h in HidersIn(longer) {
      var k :| 0 <= k < i && shorter[k].hider == h;
      assert longer[k].hider == h;
    }
    assert longer[i].hider in HidersIn(longer);
    if discoveries[i].hider in HidersIn(shorter) {
      var k :| 0 <= k < i && shorter[k].hider == discoveries[i].hider;
      assert discoveries[k].hider == discoveries[i].hider;
    }
  }

  /** The check as it runs: one pass that collects hiders and numbers, then one over the sorted numbers. */
  method ValidateDiscoveries(roles: map<string, Role>, discoveries: seq<Discovery>) returns (ok: bool)
    ensures ok == DiscoveriesPass(roles, discoveries)
  {
    var hiders: set<string> := {};
    var sequences: seq<nat> := [];
    var i := 0;
    while i < |discoveries|
      invariant i <= |discoveries| && sequences == Sequences(discoveries[..i])
      invariant forall k :: 0 <= k < i ==> DiscoveryPasses(roles, discoveries[k])
      invariant hiders == HidersIn(discoveries[..i]) && HidersDiffer(discoveries[..i])
    {
      var d := discoveries[i];
      if !HasRole(roles, d.hunter, Hunter) || !HasRole(roles, d.hider, Hider) || d.hunter == d.hider
         || d.sequence == 0 {
        assert !DiscoveryPasses(roles, discoveries[i]);
        return false;
      }
      HidersGrow(discoveries, i);
      if d.hider in hiders {
        return false;
      }
      hiders := hiders + {d.hider};
      sequences := sequences + [d.sequence];
      i := i + 1;
    }
    assert discoveries[..i] == discoveries;
    ok := IsNumbering(sequences);
  }

  method CountsUp(sorted: seq<nat>) returns (ok: bool)
    ensures ok == (sorted == Slots(|sorted|))
  {
    var index := 0;
    while index < |sorted|
      invariant index <= |sorted| && forall k :: 0 <= k < index ==> sorted[k] == k + 1
    {
      if sorted[index] != index + 1 {
        assert Slots(|sorted|)[index] == index + 1;
        return false;
      }
      index := index + 1;
    }
    return true;
  }

  /** One pass over the sorted numbers: they have to be 1, 2 and so on. */
  method IsNumbering(sequences: seq<nat>) returns (ok: bool)
    ensures ok == (SortNats(sequences) == Slots(|sequences|))
  {
    Sorting.SortPermutes(NatLeq, sequences);
    ok := CountsUp(SortNats(sequences));
  }

  function RolesOf(round: Round): map<string, Role> {
    map p | p in round.assignments :: round.assignments[p].role
  }

  /** One discovery per found hider: were one found twice, there would be fewer hiders than discoveries. */
  lemma DiscoveriesAreDistinct(round: Round, i: nat, j: nat)
    requires DiscoveriesAgree(round) && i < j < |round.discoveries|
    ensures round.discoveries[i].hider != round.discoveries[j].hider
  {
    assert DiscoveryFits(round, i) && DiscoveryFits(round, j);
  }

  lemma NumberedIsSorted(s: seq<nat>)
    requires forall i :: 0 <= i < |s| ==> s[i] == i + 1
    ensures SortNats(s) == Slots(|s|)
  {
    Sorting.SortedStays(NatLeq, s);
    assert s == Slots(|s|);
  }

  /** Whatever happened in the round, its discoveries pass the terminal check. */
  lemma RunPassesTerminalCheck(round: Round, limit: int, events: seq<Event>)
    requires Invariant(round, limit)
    ensures DiscoveriesPass(RolesOf(Run(round, events)), Run(round, events).discoveries)
  {
    RunKeeps(round, limit, events);
    var after := Run(round, events);
    forall i | 0 <= i < |after.discoveries| ensures DiscoveryPasses(RolesOf(after), after.discoveries[i]) {
      assert DiscoveryFits(after, i);
    }
    forall i, j | 0 <= i < j < |after.discoveries|
      ensures after.discoveries[i].hider != after.discoveries[j].hider
    {
      DiscoveriesAreDistinct(after, i, j);
    }
    forall i | 0 <= i < |after.discoveries| ensures Sequences(after.discoveries)[i] == i + 1 {
      assert DiscoveryFits(after, i);
    }
    NumberedIsSorted(Sequences(after.discoveries));
  }
}
