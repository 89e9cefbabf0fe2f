/**
 * The simulator that drives the fleet epoch by epoch: each robot ticks and is
 * classified, idle charging robots take over tasks nearby, every few epochs
 * the allocator's decision replaces all host/offload links, and the wasted
 * robot-instants are counted.
 */
module Simulation {
  import opened Wrappers
  import opened Tasks
  import opened Robots
  import opened Topology
  import opened Fleet
  import opened AllocationRules
  import opened Evaluation

  // ---------------------------------------------------------------------------
  // the fleet's numbering

  /** Robot `i` of the fleet is named `i`, as the simulator creates them. */
  predicate Named(states: seq<RobotState>) {
    forall i :: 0 <= i < |states| ==> states[i].name == i
  }

  /** Every hosted task belongs to a robot of the fleet. */
  predicate OwnersInFleet(states: seq<RobotState>) {
    forall i :: 0 <= i < |states| && states[i].hosted.Some? ==> states[i].hosted.value.GetFrom() < |states|
  }

  predicate Numbered(states: seq<RobotState>) {
    Named(states) && OwnersInFleet(states)
  }

  /** A tick changes no name and either keeps or drops each hosted task. */
  lemma TickKeepsNumbering(states: seq<RobotState>, ot: real, ct: real, delay: bool)
    requires AllWellFormed(states) && Numbered(states)
    ensures Numbered(TickOutcome(states, ot, ct, delay).states)
  {
    TickStates(states, ot, ct, delay, |states|);
  }

  /** A migration makes a robot host the own task of another robot of the fleet. */
  lemma {:induction false} MoveKeepsNumbering(states: seq<RobotState>, available: seq<nat>, adj: seq<seq<int>>, policy: TieBreak, k: nat)
    requires AllWellFormed(states) && Square(adj) && |adj| == |states| && k <= |available| && AllIn(available, |states|)
    requires Numbered(states)
    ensures Numbered(MoveAll(states, available, adj, policy, k).0)
  {
    if k > 0 {
      MoveKeepsNumbering(states, available, adj, policy, k - 1);
      var st := MoveAll(states, available, adj, policy, k - 1).0;
      StepKeepsNumbering(st, available[k - 1], adj, policy);
      assert MoveAll(states, available, adj, policy, k).0 == MoveStep(st, available[k - 1], adj, policy).0;
    }
  }

  /** One migration keeps the numbering. */
  lemma StepKeepsNumbering(states: seq<RobotState>, i: nat, adj: seq<seq<int>>, policy: TieBreak)
    requires AllWellFormed(states) && Square(adj) && |adj| == |states| && i < |states| && Numbered(states)
    ensures Numbered(MoveStep(states, i, adj, policy).0)
  {
    MoveStepShape(states, i, adj, policy);
    var (st, d) := MoveStep(states, i, adj, policy);
    if d.Some? {
      assert states[d.value].selfTask.GetFrom() == d.value;
    }
  }

  /** A simulated instant keeps the numbering. */
  lemma NextKeepsNumbering(states: seq<RobotState>, ot: real, ct: real, move: bool, adj: seq<seq<int>>)
    requires AllWellFormed(states) && Square(adj) && |adj| == |states| && Numbered(states)
    ensures Numbered(NextInstant(states, ot, ct, move, adj))
  {
    TickKeepsNumbering(states, ot, ct, false);
    TickOutcomeShape(states, ot, ct, false);
    TickAvailableIn(states, ot, ct, false);
    var t := TickOutcome(states, ot, ct, false);
    MoveKeepsNumbering(t.states, t.available, adj, NoTieBreak, |t.available|);
  }

  // ---------------------------------------------------------------------------
  // constraints for the allocator

  /** Robot `i` is charging and hosts the task of robot `j`. */
  predicate HostsFor(states: seq<RobotState>, i: nat, j: nat)
    requires i < |states|
  {
    states[i].status == Charging && states[i].hosted.Some? && states[i].hosted.value.GetFrom() == j
  }

  /** The constraint vector after the first `k` robots: every robot starts unconstrained
      (-1), and a charging robot that hosts a task pins that task's owner to itself. */
  function ConstraintsPrefix(states: seq<RobotState>, k: nat): (c: seq<int>)
    requires k <= |states| && OwnersInFleet(states)
    ensures |c| == |states|
    ensures forall j :: 0 <= j < |c| ==> -1 <= c[j] < k
  {
    if k == 0 then seq(|states|, _ => -1)
    else
      var c := ConstraintsPrefix(states, k - 1);
      var s := states[k - 1];
      if s.status == Charging && s.hosted.Some? then c[s.hosted.value.GetFrom() := k - 1] else c
  }

  /** Robot `j` is unconstrained in `c` exactly when none of the first `k` robots charges
      and hosts its task; otherwise it is pinned to the last of them that does. */
  predicate PinnedAsHosted(states: seq<RobotState>, c: seq<int>, k: nat, j: nat)
    requires k <= |states| && j < |c|
  {
    && (c[j] == -1 <==> forall i :: 0 <= i < k ==> !HostsFor(states, i, j))
    && (c[j] != -1 ==> 0 <= c[j] < k && HostsFor(states, c[j], j) && forall i :: c[j] < i < k ==> !HostsFor(states, i, j))
  }

  /** Robot `j` is unconstrained exactly when no charging robot hosts its task; otherwise it
      is pinned to the last charging robot that does. */
  lemma {:induction false} ConstraintsMeaning(states: seq<RobotState>, k: nat)
    requires k <= |states| && OwnersInFleet(states)
    ensures forall j :: 0 <= j < |states| ==> PinnedAsHosted(states, ConstraintsPrefix(states, k), k, j)
  {
    if k > 0 {
      ConstraintsMeaning(states, k - 1);
      var prev, c := ConstraintsPrefix(states, k - 1), ConstraintsPrefix(states, k);
      forall j | 0 <= j < |states| ensures PinnedAsHosted(states, c, k, j) {
        assert PinnedAsHosted(states, prev, k - 1, j);
        if HostsFor(states, k - 1, j) {
          assert c[j] == k - 1;
        } else {
          assert c[j] == prev[j];
        }
      }
    }
  }

  // ---------------------------------------------------------------------------
  // applying the allocator's decision

  /** The first of the first `k` robots other than `h` that the decision sends to `h`. */
  function FirstForeignOwner(decision: seq<int>, h: nat, k: nat): (r: Option<nat>)
    requires k <= |decision|
    ensures r.Some? ==> r.value < k && r.value != h && decision[r.value] == h
    ensures r.Some? ==> forall i :: 0 <= i < r.value && i != h ==> decision[i] != h
    ensures r.None? ==> forall i :: 0 <= i < k && i != h ==> decision[i] != h
  {
    if k == 0 then None
    else
      var f := FirstForeignOwner(decision, h, k - 1);
      if f.Some? then f else if decision[k - 1] == h && k - 1 != h then Some(k - 1) else None
  }

  /** The first `k` iterations of the simulator's application loop after the clearing: a
      robot allocated to itself is skipped, any other robot offloads and its target hosts
      its task if it hosts nothing yet. */
  function DecidedPrefix(states: seq<RobotState>, decision: seq<int>, k: nat): (r: seq<RobotState>)
    requires k <= |decision| && Targets(decision, |states|)
    ensures |r| == |states|
  {
    if k == 0 then Cleared(states)
    else
      var st := DecidedPrefix(states, decision, k - 1);
      var i, h := k - 1, decision[k - 1];
      if h == i then st
      else
        var st1 := st[i := WithOffload(st[i], true)];
        st1[h := Hosted(st1[h], st1[i].selfTask).0]
  }

  /** After the first `k` iterations: a robot is offloaded exactly when it is among them
      and sent elsewhere, and hosts the own task of the first other robot sent to it. */
  lemma {:induction false} DecidedShape(states: seq<RobotState>, decision: seq<int>, k: nat)
    requires k <= |decision| && Targets(decision, |states|)
    ensures forall j :: 0 <= j < |states| ==>
      DecidedPrefix(states, decision, k)[j] == states[j].(
        offloaded := j < k && decision[j] != j,
        hosted := match FirstForeignOwner(decision, j, k)
                  case None => None
                  case Some(i) => Some(states[i].selfTask))
  {
    if k > 0 {
      DecidedShape(states, decision, k - 1);
      var i, h := k - 1, decision[k - 1];
      if h != i {
        var st := DecidedPrefix(states, decision, k - 1);
        var st1 := st[i := WithOffload(st[i], true)];
        assert st1[i].selfTask == states[i].selfTask;
        assert IsHosting(st1[h]) <==> FirstForeignOwner(decision, h, k - 1).Some?;
      }
    }
  }

  /** Unlike the pool's worker, the simulator creates no link for a robot allocated to
      itself: the identity decision leaves the fleet cleared. */
  lemma IdentityDecisionClears(states: seq<RobotState>)
    ensures DecidedPrefix(states, Identity(|states|), |states|) == Cleared(states)
  {
    DecidedShape(states, Identity(|states|), |states|);
  }

  /** The outcome of applying a decision: `None` clears the links and then fails. */
  function Decided(states: seq<RobotState>, decision: Option<seq<int>>): (r: seq<RobotState>)
    requires decision.Some? ==> Targets(decision.value, |states|)
    ensures |r| == |states|
  {
    if decision.None? then Cleared(states) else DecidedPrefix(states, decision.value, |decision.value|)
  }

  /** Applying a decision keeps names and hosts only tasks of the fleet's robots. */
  lemma DecidedKeepsNumbering(states: seq<RobotState>, decision: Option<seq<int>>)
    requires AllWellFormed(states) && Numbered(states)
    requires decision.Some? ==> Targets(decision.value, |states|)
    ensures AllWellFormed(Decided(states, decision)) && Numbered(Decided(states, decision))
  {
    if decision.Some? {
      DecidedShape(states, decision.value, |decision.value|);
    }
  }

  /** The application loop of `optimize_computation`, on cleared links. */
  method DecideLinks(robots: seq<Robot>, decision: seq<int>, ghost start: seq<RobotState>)
    requires Distinct(robots) && AllValid(robots) && Targets(decision, |robots|)
    requires |start| == |robots| && Views(robots) == Cleared(start)
    modifies robots
    ensures AllValid(robots)
    ensures Views(robots) == DecidedPrefix(start, decision, |decision|)
  {
    for i := 0 to |decision|
      invariant AllValid(robots)
      invariant Views(robots) == DecidedPrefix(start, decision, i)
    {
      DecideEntry(robots, decision, start, i);
    }
  }

  /** One iteration of the application loop: robot `i` is skipped when the decision keeps
      it on itself, and otherwise offloads to its target. */
  method DecideEntry(robots: seq<Robot>, decision: seq<int>, ghost start: seq<RobotState>, i: nat)
    requires Distinct(robots) && AllValid(robots) && Targets(decision, |robots|) && i < |decision|
    requires |start| == |robots| && Views(robots) == DecidedPrefix(start, decision, i)
    modifies robots
    ensures AllValid(robots)
    ensures Views(robots) == DecidedPrefix(start, decision, i + 1)
  {
    var id := decision[i];
    if robots[id] != robots[i] {
      ApplyEntry(robots, i, id);
    }
  }

  // ---------------------------------------------------------------------------
  // statistics and the infrastructure check

  predicate WastesCharging(s: RobotState) {
    s.status == Charging && !IsHosting(s)
  }

  predicate WastesOperating(s: RobotState) {
    s.status == Operating && !s.offloaded
  }

  /** Charging robots among the first `k` that host nothing. */
  function WastedCharging(states: seq<RobotState>, k: nat): nat
    requires k <= |states|
  {
    if k == 0 then 0 else WastedCharging(states, k - 1) + if WastesCharging(states[k - 1]) then 1 else 0
  }

  /** Operating robots among the first `k` that still run their own task. */
  function WastedOperating(states: seq<RobotState>, k: nat): nat
    requires k <= |states|
  {
    if k == 0 then 0 else WastedOperating(states, k - 1) + if WastesOperating(states[k - 1]) then 1 else 0
  }

  /** Each count is bounded by the robots in that status, and a robot wastes in at most one
      way, so together they never exceed the fleet. */
  lemma {:induction false} WastedBounds(states: seq<RobotState>, k: nat)
    requires k <= |states|
    ensures WastedCharging(states, k) <= StatusCount(states, Charging, k)
    ensures WastedOperating(states, k) <= StatusCount(states, Operating, k)
    ensures WastedCharging(states, k) + WastedOperating(states, k) <= k
  {
    if k > 0 {
      WastedBounds(states, k - 1);
    }
  }

  function Sum(counters: seq<int>): int {
    if |counters| == 0 then 0 else Sum(counters[..|counters| - 1]) + counters[|counters| - 1]
  }

  /** The fleet's total computation is a whole number of rounds. */
  predicate InfrastructureConsistent(counters: seq<int>)
    requires |counters| > 0
  {
    Sum(counters) % |counters| == 0
  }

  /** `check_infrastructure`: the sum of the robots' computation counters is a multiple of
      the fleet size.  The counters are kept by the robots outside this model, so they are
      passed in. */
  method CheckInfrastructure(counters: seq<int>) returns (ok: bool)
    requires |counters| > 0
    ensures ok <==> InfrastructureConsistent(counters)
  {
    var count := 0;
    for k := 0 to |counters|
      invariant count == Sum(counters[..k])
    {
      assert counters[..k + 1][..k] == counters[..k];
      count := count + counters[k];
    }
    assert counters[..|counters|] == counters;
    ok := count % |counters| == 0;
  }

  // ---------------------------------------------------------------------------
  // one epoch

  /** The allocator's decisions only name robots of the fleet. */
  ghost predicate DecidesInFleet(decide: seq<int> -> Option<seq<int>>, n: nat) {
    forall c :: decide(c).Some? ==> Targets(decide(c).value, n)
  }

  /** One epoch on values: the simulated instant, then, when an optimisation is due, the
      allocator's decision for the current constraints.  The flag is false when the
      decision is missing, which ends the run. */
  ghost function Epoch(states: seq<RobotState>, ot: real, ct: real, move: bool, adj: seq<seq<int>>,
                       due: bool, decide: seq<int> -> Option<seq<int>>): (r: (seq<RobotState>, bool))
    requires AllWellFormed(states) && Square(adj) && |adj| == |states| && Numbered(states)
    requires DecidesInFleet(decide, |states|)
    ensures |r.0| == |states| && AllWellFormed(r.0) && Numbered(r.0)
  {
    NextKeepsNumbering(states, ot, ct, move, adj);
    var m := NextInstant(states, ot, ct, move, adj);
    if !due then (m, true)
    else
      var d := decide(ConstraintsPrefix(m, |m|));
      DecidedKeepsNumbering(m, d);
      (Decided(m, d), d.Some?)
  }

  class Simulator {
    const robots: seq<Robot>
    const adj: seq<seq<int>>
    const ct: real
    const ot: real
    const move: bool
    const frequency: Option<nat>
    var wastedCharging: nat
    var wastedOperating: nat

    ghost predicate Valid()
      reads this, robots
    {
      && Distinct(robots) && AllValid(robots) && Square(adj) && |adj| == |robots|
      && Numbered(Views(robots))
      && (frequency.Some? ==> frequency.value > 0)
    }

    /** The fleet and its topology are given; the statistics start at zero. */
    constructor (robots: seq<Robot>, adj: seq<seq<int>>, ct: real, ot: real, move: bool, frequency: Option<nat>)
      requires Distinct(robots) && AllValid(robots) && Square(adj) && |adj| == |robots|
      requires Numbered(Views(robots)) && (frequency.Some? ==> frequency.value > 0)
      ensures Valid()
      ensures this.robots == robots && this.adj == adj && this.ct == ct && this.ot == ot
      ensures this.move == move && this.frequency == frequency
      ensures wastedCharging == 0 && wastedOperating == 0
    {
      this.robots := robots;
      this.adj := adj;
      this.ct := ct;
      this.ot := ot;
      this.move := move;
      this.frequency := frequency;
      wastedCharging := 0;
      wastedOperating := 0;
    }

    method InitializeStats()
      modifies this
      ensures wastedCharging == 0 && wastedOperating == 0
    {
      wastedCharging := 0;
      wastedOperating := 0;
    }

    /** `update_stats`: one more wasted instant for each charging robot hosting nothing and
        each operating robot running its own task. */
    method UpdateStats()
      modifies this
      ensures wastedCharging == old(wastedCharging) + WastedCharging(Views(robots), |robots|)
      ensures wastedOperating == old(wastedOperating) + WastedOperating(Views(robots), |robots|)
    {
      ghost var st := Views(robots);
      var k := 0;
      while k < |robots|
        invariant k <= |robots|
        invariant wastedCharging == old(wastedCharging) + WastedCharging(st, k)
        invariant wastedOperating == old(wastedOperating) + WastedOperating(st, k)
      {
        var robot := robots[k];
        if robot.status == Charging && robot.hosted.None? {
          wastedCharging := wastedCharging + 1;
        } else if robot.status == Operating && !robot.offloaded {
          wastedOperating := wastedOperating + 1;
        }
        k := k + 1;
      }
    }

    /** The simulator's `move_computation`: first fit by distance group, groups scanned in
        the order the distance map yields them, with no tie-break. */
    method MoveComputation(available: seq<nat>)
      requires Valid() && AllIn(available, |robots|)
      modifies robots
      ensures Valid()
      ensures Views(robots) == MoveAll(old(Views(robots)), available, adj, NoTieBreak, |available|).0
    {
      ValidStates(robots);
      MoveKeepsNumbering(Views(robots), available, adj, NoTieBreak, |available|);
      Fleet.MoveComputation(available, robots, adj, NoTieBreak);
    }

    /** The start of an epoch of `run`: every robot ticks and is classified as `tick` does
        without delay, then the available robots take over tasks when migration is on. */
    method ClassifyAndMove()
      requires Valid()
      modifies robots
      ensures Valid() && AllWellFormed(old(Views(robots)))
      ensures Views(robots) == NextInstant(old(Views(robots)), ot, ct, move, adj)
    {
      ghost var start := Views(robots);
      ValidStates(robots);
      TickKeepsNumbering(start, ot, ct, false);
      TickAvailableIn(start, ot, ct, false);
      var available, _ := Tick(robots, ot, ct, false);
      if move {
        MoveComputation(available);
      }
    }

    /** The constraint vector built at the start of `optimize_computation`. */
    method Constraints() returns (c: seq<int>)
      requires Valid()
      ensures c == ConstraintsPrefix(Views(robots), |robots|)
    {
      ghost var st := Views(robots);
      c := seq(|robots|, _ => -1);
      for id := 0 to |robots|
        invariant c == ConstraintsPrefix(st, id)
      {
        var r := robots[id];
        if r.status == Charging && r.hosted.Some? {
          c := c[r.hosted.value.GetFrom() := id];
        }
      }
    }

    /** The rest of `optimize_computation`: every link is cleared and the decision applied,
        skipping robots allocated to themselves; a missing decision fails after the
        clearing. */
    method ApplyDecision(decision: Option<seq<int>>) returns (ok: bool)
      requires Valid() && (decision.Some? ==> Targets(decision.value, |robots|))
      modifies robots
      ensures Valid()
      ensures ok == decision.Some?
      ensures Views(robots) == Decided(old(Views(robots)), decision)
    {
      ValidStates(robots);
      ghost var start := Views(robots);
      ClearLinks(robots);
      if decision.None? {
        DecidedKeepsNumbering(start, decision);
        return false;
      }
      DecideLinks(robots, decision.value, start);
      DecidedKeepsNumbering(start, decision);
      ok := true;
    }

    /** One epoch of `run`, with the allocator's decision as a function of the constraints.
        A missing decision ends the epoch after the links are cleared, before the counters
        are updated. */
    method RunEpoch(ep: nat, decide: seq<int> -> Option<seq<int>>) returns (ok: bool)
      requires Valid() && DecidesInFleet(decide, |robots|)
      modifies this, robots
      ensures Valid()
      ensures AllWellFormed(old(Views(robots)))
      ensures var due := frequency.Some? && ep % frequency.value == 0;
        (Views(robots), ok) == Epoch(old(Views(robots)), ot, ct, move, adj, due, decide)
      ensures ok ==> wastedCharging == old(wastedCharging) + WastedCharging(Views(robots), |robots|)
      ensures ok ==> wastedOperating == old(wastedOperating) + WastedOperating(Views(robots), |robots|)
      ensures !ok ==> wastedCharging == old(wastedCharging) && wastedOperating == old(wastedOperating)
    {
      ok := AdvanceEpoch(frequency.Some? && ep % frequency.value == 0, decide);
      if ok {
        UpdateStats();
      }
    }

    /** The fleet's part of an epoch of `run`: the simulated instant, then the decision
        when an optimisation is `due`. */
    method AdvanceEpoch(due: bool, decide: seq<int> -> Option<seq<int>>) returns (ok: bool)
      requires Valid() && DecidesInFleet(decide, |robots|)
      modifies robots
      ensures Valid()
      ensures AllWellFormed(old(Views(robots)))
      ensures (Views(robots), ok) == Epoch(old(Views(robots)), ot, ct, move, adj, due, decide)
    {
      ghost var start := Views(robots);
      ClassifyAndMove();
      ghost var m := Views(robots);
      assert m == NextInstant(start, ot, ct, move, adj);
      ok := true;
      if due {
        var c := Constraints();
        ok := ApplyDecision(decide(c));
      }
    }

    /** `run`: epochs until the horizon or until a decision is missing.  The wasted
        counters grow by at most the fleet size per epoch. */
    method Run(epochs: nat, decide: seq<int> -> Option<seq<int>>)
      requires Valid() && DecidesInFleet(decide, |robots|)
      modifies this, robots
      ensures Valid()
      ensures old(wastedCharging) <= wastedCharging && old(wastedOperating) <= wastedOperating
      ensures wastedCharging + wastedOperating <= old(wastedCharging) + old(wastedOperating) + epochs * |robots|
    {
      for ep := 0 to epochs
        invariant Valid()
        invariant old(wastedCharging) <= wastedCharging && old(wastedOperating) <= wastedOperating
        invariant wastedCharging + wastedOperating <= old(wastedCharging) + old(wastedOperating) + ep * |robots|
      {
        var ok := RunEpoch(ep, decide);
        WastedBounds(Views(robots), |robots|);
        assert (ep + 1) * |robots| == ep * |robots| + |robots|;
        if !ok {
          MulMono(ep + 1, epochs, |robots|);
          return;
        }
      }
    }
  }
}
