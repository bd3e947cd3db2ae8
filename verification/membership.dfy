/**
 Voters of the metadata group: one conf change per tick towards 1, 3 or 5
 voters, depending on how many nodes are eligible.
 */
module Membership {
  import opened Bytes

  /** Node ids start at 1; 0 stands for "none". */
  type NodeId = n: nat | n > 0 witness 1

  function VoterTarget(eligible: nat): (want: nat)
    ensures want in {0, 1, 3, 5} && want <= eligible
    ensures (want >= 1 <==> eligible >= 1) && (want >= 3 <==> eligible >= 3) && (want >= 5 <==> eligible >= 8)
  {
    if eligible >= 8 then 5 else if eligible >= 3 then 3 else if eligible >= 1 then 1 else 0
  }

  predicate Distinct(members: seq<NodeId>) {
    forall i, j :: 0 <= i < j < |members| ==> members[i] != members[j]
  }

  /** The lowest eligible node that has no seat. */
  ghost predicate Seats(eligible: set<NodeId>, members: seq<NodeId>, p: NodeId) {
    p in eligible && p !in members && forall q :: q in eligible && q !in members ==> p <= q
  }

  /** A dead voter leaves before a healthy one, then the highest id; never the leader. */
  predicate LeavesBefore(eligible: set<NodeId>, p: NodeId, q: NodeId) {
    if (p !in eligible) != (q !in eligible) then p !in eligible else p >= q
  }

  ghost predicate Unseats(eligible: set<NodeId>, leader: NodeId, members: seq<NodeId>, p: NodeId) {
    p in members && p != leader && forall q :: q in members && q != leader ==> LeavesBefore(eligible, p, q)
  }

  function Without(members: seq<NodeId>, p: NodeId): seq<NodeId>
    decreases |members|
  {
    if members == [] then []
    else
      var rest, m := Without(members[..|members| - 1], p), members[|members| - 1];
      if m == p then rest else rest + [m]
  }

  /** One tick: fill a seat, free a seat, or leave the voters alone. */
  ghost predicate IsTick(eligible: set<NodeId>, leader: NodeId, before: seq<NodeId>, after: seq<NodeId>) {
    var want := VoterTarget(|eligible|);
    if |before| < want then exists p :: Seats(eligible, before, p) && after == before + [p]
    else if |before| > want && want > 0 then exists p :: Unseats(eligible, leader, before, p) && after == Without(before, p)
    else after == before
  }

  // --- the two picks -----------------------------------------------------------------------------

  method PickSeat(eligible: set<NodeId>, members: seq<NodeId>) returns (pick: nat)
    ensures pick == 0 ==> forall q :: q in eligible ==> q in members
    ensures pick > 0 ==> Seats(eligible, members, pick)
  {
    pick := 0;
    var todo := eligible;
    while todo != {}
      invariant todo <= eligible
      invariant pick == 0 ==> forall q :: q in eligible && q !in todo ==> q in members
      invariant pick > 0 ==> pick in eligible && pick !in members && forall q :: q in eligible && q !in todo && q !in members ==> pick <= q
    {
      var id: NodeId :| id in todo;
      if id !in members && (pick == 0 || id < pick) { pick := id; }
      todo := todo - {id};
    }
  }

  method PickLeaver(eligible: set<NodeId>, leader: NodeId, members: seq<NodeId>) returns (pick: nat)
    ensures pick == 0 ==> forall q :: q in members ==> q == leader
    ensures pick > 0 ==> Unseats(eligible, leader, members, pick)
  {
    pick := 0;
    var pickDead := false;
    for i := 0 to |members|
      invariant pick == 0 ==> forall j :: 0 <= j < i ==> members[j] == leader
      invariant pick > 0 ==> pick in members && pick != leader && pickDead == (pick !in eligible)
      invariant pick > 0 ==> forall j :: 0 <= j < i && members[j] != leader ==> LeavesBefore(eligible, pick, members[j])
    {
      var m := members[i];
      if m == leader { continue; }
      var alive := m in eligible;
      var better := if pick == 0 then true else if !alive != pickDead then !alive else m > pick;
      if better { pick, pickDead := m, !alive; }
    }
  }

  /** The metadata group's share of one reconcile pass. */
  method Tick(eligible: set<NodeId>, leader: NodeId, members: seq<NodeId>) returns (after: seq<NodeId>, changed: bool)
    requires Distinct(members) && leader in members
    ensures IsTick(eligible, leader, members, after)
    ensures changed <==> after != members
  {
    var want := VoterTarget(|eligible|);
    after, changed := members, false;
    if |members| < want {
      Unlisted(eligible, members);
      var pick := PickSeat(eligible, members);
      after, changed := members + [pick], true;
    } else if |members| > want && want > 0 {
      NotAlone(members, leader);
      var pick := PickLeaver(eligible, leader, members);
      after, changed := Without(members, pick), true;
      WithoutOne(members, pick);
    }
  }

  lemma NotAlone(members: seq<NodeId>, leader: NodeId)
    requires Distinct(members) && |members| > 1
    ensures exists q :: q in members && q != leader
  {
    assert members[0] in members && members[1] in members;
  }

  lemma {:induction false} WithoutAbsent(members: seq<NodeId>, p: NodeId)
    requires p !in members
    ensures Without(members, p) == members
    decreases |members|
  {
    if members != [] { WithoutAbsent(members[..|members| - 1], p); }
  }

  /** Removing a voter removes that voter alone. */
  lemma {:induction false} WithoutOne(members: seq<NodeId>, p: NodeId)
    requires Distinct(members) && p in members
    ensures |Without(members, p)| == |members| - 1 && Distinct(Without(members, p))
    ensures forall q :: q in Without(members, p) <==> q in members && q != p
    decreases |members|
  {
    var init, m := members[..|members| - 1], members[|members| - 1];
    assert members == init + [m];
    assert forall i :: 0 <= i < |init| ==> init[i] == members[i] != m;
    if m == p {
      WithoutAbsent(init, p);
    } else {
      WithoutOne(init, p);
      var rest := Without(init, p);
      forall i | 0 <= i < |rest| ensures rest[i] != m { assert rest[i] in rest; }
    }
  }

  // --- convergence ----------------------------------------------------------------------------------

  function Distance(a: nat, b: nat): nat {
    if a < b then b - a else a - b
  }

  lemma TickCloser(eligible: set<NodeId>, leader: NodeId, before: seq<NodeId>, after: seq<NodeId>)
    requires eligible != {} && Distinct(before) && leader in before && IsTick(eligible, leader, before, after)
    ensures Distinct(after) && leader in after
    ensures var want := VoterTarget(|eligible|);
            && (|before| == want ==> after == before)
            && (|before| < want ==> |after| == |before| + 1)
            && (|before| > want ==> |after| == |before| - 1)
  {
    var want := VoterTarget(|eligible|);
    if |before| < want {
      var p :| Seats(eligible, before, p) && after == before + [p];
    } else if |before| > want {
      var p :| Unseats(eligible, leader, before, p) && after == Without(before, p);
      WithoutOne(before, p);
    }
  }

  ghost predicate IsRun(eligible: set<NodeId>, leader: NodeId, run: seq<seq<NodeId>>) {
    run != [] && forall i :: 0 <= i < |run| - 1 ==> IsTick(eligible, leader, run[i], run[i + 1])
  }

  /**
   With a fixed eligible set every tick closes the gap by one voter until the
   target is met and nothing moves any more; the leader always keeps its seat.
   */
  lemma {:induction false} Converges(eligible: set<NodeId>, leader: NodeId, run: seq<seq<NodeId>>, i: nat)
    requires eligible != {} && IsRun(eligible, leader, run) && i < |run| && Distinct(run[0]) && leader in run[0]
    ensures Distinct(run[i]) && leader in run[i]
    ensures var want, gap := VoterTarget(|eligible|), Distance(|run[0]|, VoterTarget(|eligible|));
            && Distance(|run[i]|, want) == (if i < gap then gap - i else 0)
            && (|run[0]| <= want ==> |run[i]| <= want) && (|run[0]| >= want ==> |run[i]| >= want)
            && (i > 0 && gap < i ==> run[i] == run[i - 1])
  {
    if i > 0 {
      Converges(eligible, leader, run, i - 1);
      TickCloser(eligible, leader, run[i - 1], run[i]);
    }
  }

  /** A new voter is the lowest eligible node without a seat, and joins only below the target. */
  lemma SeatedIsLowest(eligible: set<NodeId>, leader: NodeId, before: seq<NodeId>, after: seq<NodeId>, p: NodeId)
    requires Distinct(before) && leader in before && IsTick(eligible, leader, before, after)
    requires p in after && p !in before
    ensures p in eligible && (forall q :: q in eligible && q < p ==> q in before) && after == before + [p]
  {
    var want := VoterTarget(|eligible|);
    if |before| < want {
      var s :| Seats(eligible, before, s) && after == before + [s];
    } else if |before| > want && want > 0 {
      var s :| Unseats(eligible, leader, before, s) && after == Without(before, s);
      WithoutOne(before, s);
    }
  }

  /** A dead voter that leaves has the highest id among the dead. */
  lemma DeadLeaveHighest(eligible: set<NodeId>, leader: NodeId, before: seq<NodeId>, after: seq<NodeId>, q: NodeId)
    requires Distinct(before) && leader in before && IsTick(eligible, leader, before, after)
    requires q in before && q !in eligible && q !in after
    ensures q != leader && forall m :: m in before && m != leader && m !in eligible ==> m <= q
  {
    var want := VoterTarget(|eligible|);
    if |before| > want && want > 0 {
      var p :| Unseats(eligible, leader, before, p) && after == Without(before, p);
      WithoutOne(before, p);
    }
  }

  /** A healthy voter loses its seat only when no dead one but the leader is left. */
  lemma HealthyLeaveLast(eligible: set<NodeId>, leader: NodeId, before: seq<NodeId>, after: seq<NodeId>, q: NodeId)
    requires Distinct(before) && leader in before && IsTick(eligible, leader, before, after)
    requires q in before && q in eligible && q !in after
    ensures q != leader && forall m :: m in before && m != leader ==> m in eligible && m <= q
  {
    var want := VoterTarget(|eligible|);
    if |before| > want && want > 0 {
      var p :| Unseats(eligible, leader, before, p) && after == Without(before, p);
      WithoutOne(before, p);
    }
  }
}
