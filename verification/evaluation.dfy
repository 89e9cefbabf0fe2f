/**
 * What a pool worker does with one candidate allocation: it clears every
 * host/offload link, applies the allocation to a copy of the fleet, and
 * scores the copy by simulating a horizon of ticks.  The score modelled here
 * is the missed-chances cost: the squared difference between charging and
 * operating robots, summed over the horizon.
 */
module Evaluation {
  import opened Wrappers
  import opened Tasks
  import opened Robots
  import opened Topology
  import opened Fleet
  import opened AllocationRules

  // ---------------------------------------------------------------------------
  // applying an allocation in the worker

  /** Every robot with its links cleared: hosting nothing and running its own task. */
  function Cleared(states: seq<RobotState>): (r: seq<RobotState>)
    ensures |r| == |states|
    ensures forall j :: 0 <= j < |states| ==> r[j] == states[j].(hosted := None, offloaded := false)
  {
    seq(|states|, j requires 0 <= j < |states| => states[j].(hosted := None, offloaded := false))
  }

  /** Every entry of the allocation names a robot of the fleet. */
  predicate Targets(allocation: seq<int>, n: nat) {
    |allocation| <= n && forall i :: 0 <= i < |allocation| ==> 0 <= allocation[i] < n
  }

  /** The first `k` iterations of the worker's application loop after the clearing: robot
      `i` offloads, and robot `allocation[i]` hosts robot i's own task if it hosts nothing
      yet. */
  function AppliedPrefix(states: seq<RobotState>, allocation: seq<int>, k: nat): (r: seq<RobotState>)
    requires k <= |allocation| && Targets(allocation, |states|)
    ensures |r| == |states|
  {
    if k == 0 then Cleared(states)
    else
      var st := AppliedPrefix(states, allocation, k - 1);
      var i := k - 1;
      var st1 := st[i := WithOffload(st[i], true)];
      var h := allocation[i];
      st1[h := Hosted(st1[h], st1[i].selfTask).0]
  }

  /** The first of the first `k` robots that the allocation sends to robot `h`. */
  function FirstOwner(allocation: seq<int>, h: nat, k: nat): (r: Option<nat>)
    requires k <= |allocation|
    ensures r.Some? ==> r.value < k && allocation[r.value] == h && forall i :: 0 <= i < r.value ==> allocation[i] != h
    ensures r.None? ==> forall i :: 0 <= i < k ==> allocation[i] != h
  {
    if k == 0 then None
    else
      var f := FirstOwner(allocation, h, k - 1);
      if f.Some? then f else if allocation[k - 1] == h then Some(k - 1) else None
  }

  /** Robot `j` after the first `k` iterations: offloaded exactly when it is among the first
      `k`, hosting the own task of the first robot sent to it (later ones are refused), and
      with battery and status unchanged. */
  function Linked(states: seq<RobotState>, allocation: seq<int>, j: nat, k: nat): RobotState
    requires j < |states| && k <= |allocation| && Targets(allocation, |states|)
  {
    states[j].(
      offloaded := j < k,
      hosted := match FirstOwner(allocation, j, k)
                case None => None
                case Some(i) => Some(states[i].selfTask))
  }

  lemma {:induction false} AppliedShape(states: seq<RobotState>, allocation: seq<int>, k: nat)
    requires k <= |allocation| && Targets(allocation, |states|)
    ensures forall j :: 0 <= j < |states| ==> AppliedPrefix(states, allocation, k)[j] == Linked(states, allocation, j, k)
  {
    if k > 0 {
      AppliedShape(states, allocation, k - 1);
      ApplyStepShape(states, allocation, AppliedPrefix(states, allocation, k - 1), k);
    }
  }

  /** One iteration of the application loop takes the shape after `k - 1` iterations to
      the shape after `k`. */
  lemma ApplyStepShape(states: seq<RobotState>, allocation: seq<int>, st: seq<RobotState>, k: nat)
    requires 0 < k <= |allocation| && Targets(allocation, |states|) && |st| == |states|
    requires forall j :: 0 <= j < |states| ==> st[j] == Linked(states, allocation, j, k - 1)
    ensures var i := k - 1;
      var st1 := st[i := WithOffload(st[i], true)];
      var h := allocation[i];
      forall j :: 0 <= j < |states| ==> st1[h := Hosted(st1[h], st1[i].selfTask).0][j] == Linked(states, allocation, j, k)
  {
    var i := k - 1;
    var st1 := st[i := WithOffload(st[i], true)];
    var h := allocation[i];
    assert st1[i].selfTask == states[i].selfTask;
    forall j | 0 <= j < |states|
      ensures st1[h := Hosted(st1[h], st1[i].selfTask).0][j] == Linked(states, allocation, j, k)
    {
      assert st1[j] == Linked(states, allocation, j, k - 1).(offloaded := j < k);
    }
  }

  /** The worker links even a robot allocated to itself: under the identity every robot ends
      up offloaded and hosting its own task. */
  lemma IdentityApplied(states: seq<RobotState>)
    ensures forall j :: 0 <= j < |states| ==>
      AppliedPrefix(states, Identity(|states|), |states|)[j] == states[j].(offloaded := true, hosted := Some(states[j].selfTask))
  {
    var n := |states|;
    AppliedShape(states, Identity(n), n);
    forall j | 0 <= j < n ensures FirstOwner(Identity(n), j, n) == Some(j) {
      assert Identity(n)[j] == j;
    }
  }

  /** The application loop of the pool's `work`. */
  method ApplyAllocation(robots: seq<Robot>, allocation: seq<int>)
    requires Distinct(robots) && AllValid(robots) && Targets(allocation, |robots|)
    modifies robots
    ensures AllValid(robots)
    ensures Views(robots) == AppliedPrefix(old(Views(robots)), allocation, |allocation|)
  {
    ghost var start := Views(robots);
    ClearLinks(robots);
    for i := 0 to |allocation|
      invariant AllValid(robots)
      invariant Views(robots) == AppliedPrefix(start, allocation, i)
    {
      ApplyEntry(robots, i, allocation[i]);
    }
  }

  /** The first loop of the worker: every robot stops hosting and runs its own task. */
  method ClearLinks(robots: seq<Robot>)
    requires Distinct(robots) && AllValid(robots)
    modifies robots
    ensures AllValid(robots)
    ensures Views(robots) == Cleared(old(Views(robots)))
  {
    ghost var start := Views(robots);
    for j := 0 to |robots|
      invariant AllValid(robots)
      invariant forall x :: 0 <= x < j ==> robots[x].View() == Cleared(start)[x]
      invariant forall x :: j <= x < |robots| ==> robots[x].View() == start[x]
    {
      robots[j].Unhost();
      robots[j].Unoffload();
    }
  }

  /** One iteration: robot `i` offloads and robot `id` hosts its task if it hosts nothing. */
  method ApplyEntry(robots: seq<Robot>, i: nat, id: nat)
    requires Distinct(robots) && AllValid(robots) && i < |robots| && id < |robots|
    modifies robots
    ensures AllValid(robots)
    ensures var st1 := old(Views(robots))[i := WithOffload(old(Views(robots))[i], true)];
      Views(robots) == st1[id := Hosted(st1[id], st1[i].selfTask).0]
  {
    ghost var before := Views(robots);
    ghost var st1 := before[i := WithOffload(before[i], true)];
    var robot := robots[i];
    var host := robots[id];
    robot.Offload();
    assert Views(robots) == st1;
    var _ := host.Host(robot.selfTask);
  }

  // ---------------------------------------------------------------------------
  // simulating a horizon: optimize_missed_chanches and optimize_operation_time

  /** The robots among the first `k` whose status is `st`. */
  function StatusCount(states: seq<RobotState>, st: Status, k: nat): (c: nat)
    requires k <= |states|
    ensures c <= k
  {
    if k == 0 then 0 else StatusCount(states, st, k - 1) + if states[k - 1].status == st then 1 else 0
  }

  /** Every robot is either charging or operating, so the two counts split the fleet. */
  lemma {:induction false} CountsSplit(states: seq<RobotState>, k: nat)
    requires k <= |states|
    ensures StatusCount(states, Charging, k) + StatusCount(states, Operating, k) == k
  {
    if k > 0 {
      CountsSplit(states, k - 1);
    }
  }

  /** Charging robots minus operating robots. */
  function Imbalance(states: seq<RobotState>): int {
    StatusCount(states, Charging, |states|) - StatusCount(states, Operating, |states|)
  }

  lemma ImbalanceBounds(states: seq<RobotState>)
    ensures -|states| <= Imbalance(states) <= |states|
  {
    CountsSplit(states, |states|);
  }

  /** A square is positive unless its root is zero, and grows with the root's magnitude. */
  lemma SquareFacts(x: int, n: nat)
    requires -(n as int) <= x <= n
    ensures 0 <= x * x <= n * n
    ensures x * x == 0 <==> x == 0
  {
    var m: nat := if x < 0 then -x else x;
    assert x * x == m * m;
    MulMono(m, n, m);
    MulMono(m, n, n);
    if m > 0 {
      MulMono(1, m, m);
    }
  }

  lemma MulMono(a: nat, b: nat, c: nat)
    requires a <= b
    ensures a * c <= b * c
  {
    var i := 0;
    while i < c
      invariant 0 <= i <= c && a * i <= b * i
    {
      i := i + 1;
    }
  }

  /** The squared imbalance of one instant: at most the square of the fleet size, and zero
      exactly when the fleet is balanced. */
  function SquaredImbalance(states: seq<RobotState>): (r: nat)
    ensures r <= |states| * |states|
    ensures r == 0 <==> Imbalance(states) == 0
  {
    var x := Imbalance(states);
    ImbalanceBounds(states);
    SquareFacts(x, |states|);
    x * x
  }

  /** The available robots listed by a tick are robots of the fleet. */
  lemma TickAvailableIn(states: seq<RobotState>, ot: real, ct: real, delay: bool)
    requires AllWellFormed(states)
    ensures AllIn(TickOutcome(states, ot, ct, delay).available, |states|)
  {
    var r := TickOutcome(states, ot, ct, delay);
    TickOutcomeShape(states, ot, ct, delay);
    forall a | 0 <= a < |r.available| ensures r.available[a] < |states| {
      assert r.available[a] in r.available;
    }
  }

  /** One simulated instant: a tick without delay, then a migration round when enabled
      (the call passes no tie-break, which is taken as none). */
  ghost function NextInstant(states: seq<RobotState>, ot: real, ct: real, move: bool, adj: seq<seq<int>>): (r: seq<RobotState>)
    requires AllWellFormed(states) && Square(adj) && |adj| == |states|
    ensures |r| == |states| && AllWellFormed(r)
  {
    TickOutcomeShape(states, ot, ct, false);
    TickAvailableIn(states, ot, ct, false);
    var t := TickOutcome(states, ot, ct, false);
    if move then MoveAll(t.states, t.available, adj, NoTieBreak, |t.available|).0 else t.states
  }

  /** The fleet after `t` simulated instants. */
  ghost function Trajectory(states: seq<RobotState>, ot: real, ct: real, move: bool, adj: seq<seq<int>>, t: nat): (r: seq<RobotState>)
    requires AllWellFormed(states) && Square(adj) && |adj| == |states|
    ensures |r| == |states| && AllWellFormed(r)
  {
    if t == 0 then states else NextInstant(Trajectory(states, ot, ct, move, adj, t - 1), ot, ct, move, adj)
  }

  /** The squared imbalance of the first `t` instants of the trajectory, summed. */
  ghost function MissedChancesCost(states: seq<RobotState>, ot: real, ct: real, move: bool, adj: seq<seq<int>>, t: nat): nat
    requires AllWellFormed(states) && Square(adj) && |adj| == |states|
  {
    if t == 0 then 0
    else
      MissedChancesCost(states, ot, ct, move, adj, t - 1) + SquaredImbalance(Trajectory(states, ot, ct, move, adj, t - 1))
  }

  /** The cost is never negative and is at most `t` times the square of the fleet size. */
  lemma {:induction false} MissedChancesCostBounds(states: seq<RobotState>, ot: real, ct: real, move: bool, adj: seq<seq<int>>, t: nat)
    requires AllWellFormed(states) && Square(adj) && |adj| == |states|
    ensures 0 <= MissedChancesCost(states, ot, ct, move, adj, t) <= t * (|states| * |states|)
  {
    if t > 0 {
      MissedChancesCostBounds(states, ot, ct, move, adj, t - 1);
      SumBound(MissedChancesCost(states, ot, ct, move, adj, t - 1),
               SquaredImbalance(Trajectory(states, ot, ct, move, adj, t - 1)), t, |states| * |states|);
    }
  }

  /** `t` terms, each at most `m`, sum to at most `t * m`: the step from `t - 1` terms. */
  lemma SumBound(prev: nat, add: nat, t: nat, m: nat)
    requires t > 0 && prev <= (t - 1) * m && add <= m
    ensures prev + add <= t * m
  {
    assert t * m == (t - 1) * m + m;
  }

  /** As many robots charge as operate at each of the first `t` simulated instants. */
  ghost predicate BalancedUpTo(states: seq<RobotState>, ot: real, ct: real, move: bool, adj: seq<seq<int>>, t: nat)
    requires AllWellFormed(states) && Square(adj) && |adj| == |states|
  {
    forall s :: 0 <= s < t ==> Imbalance(Trajectory(states, ot, ct, move, adj, s)) == 0
  }

  /** The cost is zero exactly when the fleet is balanced at every simulated instant. */
  lemma {:induction false} MissedChancesCostZero(states: seq<RobotState>, ot: real, ct: real, move: bool, adj: seq<seq<int>>, t: nat)
    requires AllWellFormed(states) && Square(adj) && |adj| == |states|
    ensures MissedChancesCost(states, ot, ct, move, adj, t) == 0 <==> BalancedUpTo(states, ot, ct, move, adj, t)
  {
    if t > 0 {
      MissedChancesCostZero(states, ot, ct, move, adj, t - 1);
      BalancedStep(states, ot, ct, move, adj, t);
    }
  }

  /** Balance up to `t` is balance up to `t - 1` and at instant `t - 1`. */
  lemma BalancedStep(states: seq<RobotState>, ot: real, ct: real, move: bool, adj: seq<seq<int>>, t: nat)
    requires AllWellFormed(states) && Square(adj) && |adj| == |states| && t > 0
    ensures BalancedUpTo(states, ot, ct, move, adj, t) <==>
      BalancedUpTo(states, ot, ct, move, adj, t - 1) && Imbalance(Trajectory(states, ot, ct, move, adj, t - 1)) == 0
  {
  }

  /** The operating robots of the first `t` instants of the trajectory, summed. */
  ghost function OperatingTime(states: seq<RobotState>, ot: real, ct: real, move: bool, adj: seq<seq<int>>, t: nat): (total: nat)
    requires AllWellFormed(states) && Square(adj) && |adj| == |states|
    ensures total <= t * |states|
  {
    if t == 0 then 0
    else
      var tr := Trajectory(states, ot, ct, move, adj, t - 1);
      OperatingTime(states, ot, ct, move, adj, t - 1) + StatusCount(tr, Operating, |tr|)
  }

  /** The reciprocal of the operating time; `None` stands for the division by zero (numpy's
      infinity) when no robot operates during the horizon. */
  ghost function OperationTimeCost(states: seq<RobotState>, ot: real, ct: real, move: bool, adj: seq<seq<int>>, t: nat): Option<real>
    requires AllWellFormed(states) && Square(adj) && |adj| == |states|
  {
    var total := OperatingTime(states, ot, ct, move, adj, t);
    if total == 0 then None else Some(1.0 / total as real)
  }

  /** A lower cost is exactly a longer operating time: minimising the cost maximises it. */
  lemma OperationTimeCostOrder(a: nat, b: nat)
    requires a > 0 && b > 0
    ensures 1.0 / a as real <= 1.0 / b as real <==> b <= a
  {
    var x, y := a as real, b as real;
    assert 1.0 / x == y / (x * y) && 1.0 / y == x / (x * y);
    assert x * y > 0.0;
  }

  /** The loop over the fleet that counts charging and operating robots. */
  method CountStatuses(robots: seq<Robot>) returns (charging: nat, operating: nat)
    ensures charging == StatusCount(Views(robots), Charging, |robots|)
    ensures operating == StatusCount(Views(robots), Operating, |robots|)
  {
    charging, operating := 0, 0;
    for k := 0 to |robots|
      invariant charging == StatusCount(Views(robots), Charging, k)
      invariant operating == StatusCount(Views(robots), Operating, k)
    {
      if robots[k].status == Charging {
        charging := charging + 1;
      } else if robots[k].status == Operating {
        operating := operating + 1;
      }
    }
  }

  /** One simulated instant on the fleet itself. */
  method Advance(robots: seq<Robot>, ot: real, ct: real, move: bool, adj: seq<seq<int>>)
    requires Distinct(robots) && AllValid(robots) && Square(adj) && |adj| == |robots|
    modifies robots
    ensures AllValid(robots) && AllWellFormed(old(Views(robots)))
    ensures Views(robots) == NextInstant(old(Views(robots)), ot, ct, move, adj)
  {
    ValidStates(robots);
    TickAvailableIn(Views(robots), ot, ct, false);
    var available, _ := Tick(robots, ot, ct, false);
    if move {
      MoveComputation(available, robots, adj, NoTieBreak);
    }
  }

  /** `optimize_missed_chanches`: the squared imbalance summed over the horizon. */
  method OptimizeMissedChances(robots: seq<Robot>, ct: real, ot: real, move: bool, adj: seq<seq<int>>, timeInstants: nat)
    returns (cost: int)
    requires Distinct(robots) && AllValid(robots) && Square(adj) && |adj| == |robots|
    modifies robots
    ensures AllValid(robots) && AllWellFormed(old(Views(robots)))
    ensures cost == MissedChancesCost(old(Views(robots)), ot, ct, move, adj, timeInstants)
    ensures Views(robots) == Trajectory(old(Views(robots)), ot, ct, move, adj, timeInstants)
  {
    ValidStates(robots);
    ghost var start := Views(robots);
    cost := 0;
    for t := 0 to timeInstants
      invariant AllValid(robots)
      invariant Views(robots) == Trajectory(start, ot, ct, move, adj, t)
      invariant cost == MissedChancesCost(start, ot, ct, move, adj, t)
    {
      cost := MissedChancesInstant(robots, start, ct, ot, move, adj, t, cost);
    }
  }

  /** One iteration of `optimize_missed_chanches`: the squared imbalance of the current
      instant is added, then the fleet advances one instant. */
  method MissedChancesInstant(robots: seq<Robot>, ghost start: seq<RobotState>, ct: real, ot: real, move: bool,
                              adj: seq<seq<int>>, t: nat, cost: int) returns (cost': int)
    requires Distinct(robots) && AllValid(robots) && Square(adj) && |adj| == |robots|
    requires AllWellFormed(start) && |start| == |robots|
    requires Views(robots) == Trajectory(start, ot, ct, move, adj, t)
    requires cost == MissedChancesCost(start, ot, ct, move, adj, t)
    modifies robots
    ensures AllValid(robots)
    ensures Views(robots) == Trajectory(start, ot, ct, move, adj, t + 1)
    ensures cost' == MissedChancesCost(start, ot, ct, move, adj, t + 1)
  {
    var charging, operating := CountStatuses(robots);
    var x := charging as int - operating as int;
    assert x * x == SquaredImbalance(Views(robots));
    cost' := cost + x * x;
    Advance(robots, ot, ct, move, adj);
  }

  /** `optimize_operation_time`: the reciprocal of the operating robots summed over the
      horizon. */
  method OptimizeOperationTime(robots: seq<Robot>, ct: real, ot: real, move: bool, adj: seq<seq<int>>, timeInstants: nat)
    returns (cost: Option<real>)
    requires Distinct(robots) && AllValid(robots) && Square(adj) && |adj| == |robots|
    modifies robots
    ensures AllValid(robots) && AllWellFormed(old(Views(robots)))
    ensures cost == OperationTimeCost(old(Views(robots)), ot, ct, move, adj, timeInstants)
    ensures Views(robots) == Trajectory(old(Views(robots)), ot, ct, move, adj, timeInstants)
  {
    ValidStates(robots);
    ghost var start := Views(robots);
    var total := 0;
    for t := 0 to timeInstants
      invariant AllValid(robots)
      invariant Views(robots) == Trajectory(start, ot, ct, move, adj, t)
      invariant total == OperatingTime(start, ot, ct, move, adj, t)
    {
      total := OperatingInstant(robots, start, ct, ot, move, adj, t, total);
    }
    cost := if total == 0 then None else Some(1.0 / total as real);
  }

  /** One iteration of `optimize_operation_time`: the operating robots of the current
      instant are added, then the fleet advances one instant. */
  method OperatingInstant(robots: seq<Robot>, ghost start: seq<RobotState>, ct: real, ot: real, move: bool,
                          adj: seq<seq<int>>, t: nat, total: nat) returns (total': nat)
    requires Distinct(robots) && AllValid(robots) && Square(adj) && |adj| == |robots|
    requires AllWellFormed(start) && |start| == |robots|
    requires Views(robots) == Trajectory(start, ot, ct, move, adj, t)
    requires total == OperatingTime(start, ot, ct, move, adj, t)
    modifies robots
    ensures AllValid(robots)
    ensures Views(robots) == Trajectory(start, ot, ct, move, adj, t + 1)
    ensures total' == OperatingTime(start, ot, ct, move, adj, t + 1)
  {
    var _, operating := CountStatuses(robots);
    total' := total + operating;
    Advance(robots, ot, ct, move, adj);
  }

  /** One item of the pool's `work` loop: apply the allocation to the fleet copy and score
      it with `optimize_operation_time`. */
  method Work(robots: seq<Robot>, ct: real, ot: real, move: bool, adj: seq<seq<int>>, allocation: seq<int>, timeInstants: nat)
    returns (cost: Option<real>)
    requires Distinct(robots) && AllValid(robots) && Square(adj) && |adj| == |robots| && Targets(allocation, |robots|)
    modifies robots
    ensures AllValid(robots) && AllWellFormed(AppliedPrefix(old(Views(robots)), allocation, |allocation|))
    ensures cost == OperationTimeCost(AppliedPrefix(old(Views(robots)), allocation, |allocation|), ot, ct, move, adj, timeInstants)
  {
    ApplyAllocation(robots, allocation);
    cost := OptimizeOperationTime(robots, ct, ot, move, adj, timeInstants);
  }
}
