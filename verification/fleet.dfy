/**
 * The fleet-level steps of one time instant: the threshold state machine that
 * ticks every robot and collects the robots free to host, the migration of
 * tasks to those robots, the tie-break that orders candidate donors, and the
 * missed-offload counter.
 *
 * The fleet is a sequence of distinct `Robot` objects; each step is specified
 * by a function on the sequence of their states (`Views`).
 */
module Fleet {
  import opened Wrappers
  import opened Tasks
  import opened Robots
  import opened Topology

  /** No robot object appears twice in the fleet. */
  predicate Distinct(robots: seq<Robot>) {
    forall i, j :: 0 <= i < j < |robots| ==> robots[i] != robots[j]
  }

  ghost predicate AllValid(robots: seq<Robot>)
    reads robots
  {
    forall i :: 0 <= i < |robots| ==> robots[i].Valid()
  }

  /** The states of the fleet's robots, in order. */
  function Views(robots: seq<Robot>): (r: seq<RobotState>)
    reads robots
    ensures |r| == |robots|
    ensures forall i :: 0 <= i < |robots| ==> r[i] == robots[i].View()
  {
    seq(|robots|, i reads robots requires 0 <= i < |robots| => robots[i].View())
  }

  predicate AllWellFormed(states: seq<RobotState>) {
    forall i :: 0 <= i < |states| ==> WellFormed(states[i])
  }

  // ---------------------------------------------------------------------------
  // tick

  /** After its battery tick the robot is at or below the charging threshold while operating. */
  predicate EntersCharging(s: RobotState, ct: real)
    requires s.total > 0
  {
    s.status == Operating && Fraction(Ticked(s)) <= ct
  }

  /** After its battery tick the robot is at or above the operating threshold while charging. */
  predicate EntersOperating(s: RobotState, ot: real, ct: real)
    requires s.total > 0
  {
    s.status == Charging && Fraction(Ticked(s)) >= ot
  }

  /** A charging robot that stays below the operating threshold and hosts nothing. */
  predicate StaysAvailable(s: RobotState, ot: real)
    requires s.total > 0
  {
    s.status == Charging && Fraction(Ticked(s)) < ot && !IsHosting(s)
  }

  /** What the if/elif/else of one loop iteration does to a robot already ticked:
      its new state, whether it is available, whether it is deferred as the operating target. */
  datatype StepOutcome = StepOutcome(state: RobotState, available: bool, target: bool)

  function Step(t: RobotState, ot: real, ct: real, mayDefer: bool): StepOutcome
    requires t.total > 0
  {
    var f := Fraction(t);
    if f <= ct && t.status != Charging then StepOutcome(Charged(t), true, false)
    else if f >= ot && t.status != Operating then
      if mayDefer then StepOutcome(t, false, true) else StepOutcome(Operated(t), false, false)
    else StepOutcome(t, !IsHosting(t) && t.status == Charging, false)
  }

  datatype TickResult = TickResult(states: seq<RobotState>, available: seq<nat>, targets: seq<nat>)

  /** The first `k` iterations of `tick`'s loop: robots before `k` have been ticked and
      classified, the rest are untouched. */
  function TickPrefix(states: seq<RobotState>, ot: real, ct: real, delay: bool, k: nat): (r: TickResult)
    requires k <= |states| && AllWellFormed(states)
    ensures |r.states| == |states|
  {
    if k == 0 then TickResult(states, [], [])
    else
      var r := TickPrefix(states, ot, ct, delay, k - 1);
      var o := Step(Ticked(states[k - 1]), ot, ct, delay && |r.targets| < 1);
      TickResult(
        r.states[k - 1 := o.state],
        r.available + (if o.available then [k - 1] else []),
        r.targets + (if o.target then [k - 1] else []))
  }

  function TickOutcome(states: seq<RobotState>, ot: real, ct: real, delay: bool): TickResult
    requires AllWellFormed(states)
  {
    TickPrefix(states, ot, ct, delay, |states|)
  }

  predicate StrictlyIncreasing(s: seq<nat>) {
    forall a, b :: 0 <= a < b < |s| ==> s[a] < s[b]
  }

  /** No robot among the first `i` enters operating. */
  predicate NoEarlierOperating(states: seq<RobotState>, ot: real, ct: real, i: nat)
    requires i <= |states| && AllWellFormed(states)
  {
    forall j :: 0 <= j < i ==> !EntersOperating(states[j], ot, ct)
  }

  /** The robot `tick` defers as operating target: the first that enters operating, and
      only with the delay enabled. */
  predicate Deferred(states: seq<RobotState>, ot: real, ct: real, delay: bool, i: nat)
    requires i < |states| && AllWellFormed(states)
  {
    delay && EntersOperating(states[i], ot, ct) && NoEarlierOperating(states, ot, ct, i)
  }

  /** The new state of robot `i` after `tick`: charging when it enters charging,
      operating (hosting nothing) when it enters operating and is not deferred, and only
      its battery advanced otherwise. */
  function TickedState(states: seq<RobotState>, ot: real, ct: real, delay: bool, i: nat): RobotState
    requires i < |states| && AllWellFormed(states)
  {
    var t := Ticked(states[i]);
    if EntersCharging(states[i], ct) then Charged(t)
    else if EntersOperating(states[i], ot, ct) && !Deferred(states, ot, ct, delay, i) then Operated(t)
    else t
  }

  /** Robots from `k` on are untouched by the first `k` iterations. */
  lemma {:induction false} TickUntouched(states: seq<RobotState>, ot: real, ct: real, delay: bool, k: nat)
    requires k <= |states| && AllWellFormed(states)
    ensures forall i :: k <= i < |states| ==> TickPrefix(states, ot, ct, delay, k).states[i] == states[i]
  {
    if k > 0 {
      TickUntouched(states, ot, ct, delay, k - 1);
    }
  }

  /** The deferred list `tg` after `k` iterations: empty without the delay, at most one
      robot, exactly the first robot that enters operating. */
  ghost predicate TargetsList(states: seq<RobotState>, ot: real, ct: real, delay: bool, tg: seq<nat>, k: nat)
    requires k <= |states| && AllWellFormed(states)
  {
    && |tg| <= 1
    && (!delay ==> tg == [])
    && (forall i :: i in tg <==> 0 <= i < k && Deferred(states, ot, ct, delay, i))
    && (|tg| < 1 <==> !delay || NoEarlierOperating(states, ot, ct, k))
  }

  lemma {:induction false} TickTargets(states: seq<RobotState>, ot: real, ct: real, delay: bool, k: nat)
    requires k <= |states| && AllWellFormed(states)
    ensures TargetsList(states, ot, ct, delay, TickPrefix(states, ot, ct, delay, k).targets, k)
  {
    if k > 0 {
      TickTargets(states, ot, ct, delay, k - 1);
      var r := TickPrefix(states, ot, ct, delay, k - 1);
      var o := Step(Ticked(states[k - 1]), ot, ct, delay && |r.targets| < 1);
      StepFlags(states[k - 1], ot, ct, delay && |r.targets| < 1);
      TargetsStep(states, ot, ct, delay, r.targets, k - 1, o.target);
      assert TickPrefix(states, ot, ct, delay, k).targets == r.targets + (if o.target then [k - 1] else []);
    }
  }

  /** One more iteration defers its robot exactly when deferral is still open and the
      robot enters operating. */
  lemma TargetsStep(states: seq<RobotState>, ot: real, ct: real, delay: bool, tg: seq<nat>, k: nat, add: bool)
    requires k < |states| && AllWellFormed(states)
    requires TargetsList(states, ot, ct, delay, tg, k)
    requires add == (delay && |tg| < 1 && EntersOperating(states[k], ot, ct))
    ensures TargetsList(states, ot, ct, delay, tg + (if add then [k] else []), k + 1)
  {
    var tg' := tg + (if add then [k] else []);
    forall i ensures i in tg' <==> 0 <= i < k + 1 && Deferred(states, ot, ct, delay, i) {
      if i == k {
        assert k !in tg;
      }
    }
  }

  /** The state every robot reaches in the first `k` iterations. */
  lemma {:induction false} TickStates(states: seq<RobotState>, ot: real, ct: real, delay: bool, k: nat)
    requires k <= |states| && AllWellFormed(states)
    ensures forall i :: 0 <= i < k ==> TickPrefix(states, ot, ct, delay, k).states[i] == TickedState(states, ot, ct, delay, i)
  {
    if k > 0 {
      TickStates(states, ot, ct, delay, k - 1);
      TickTargets(states, ot, ct, delay, k - 1);
      var r := TickPrefix(states, ot, ct, delay, k - 1);
      var o := Step(Ticked(states[k - 1]), ot, ct, delay && |r.targets| < 1);
      StepState(states, ot, ct, delay, k - 1, delay && |r.targets| < 1);
      assert TickPrefix(states, ot, ct, delay, k).states == r.states[k - 1 := o.state];
    }
  }

  /** The state one iteration gives its robot, once deferral is open exactly while no
      earlier robot entered operating. */
  lemma StepState(states: seq<RobotState>, ot: real, ct: real, delay: bool, k: nat, mayDefer: bool)
    requires k < |states| && AllWellFormed(states)
    requires mayDefer == (delay && NoEarlierOperating(states, ot, ct, k))
    ensures Step(Ticked(states[k]), ot, ct, mayDefer).state == TickedState(states, ot, ct, delay, k)
  {
    assert Ticked(states[k]).status == states[k].status;
  }

  /** One iteration reports the robot available exactly when it enters charging or stays
      available, and defers it exactly when deferral is open and it enters operating. */
  lemma StepFlags(s: RobotState, ot: real, ct: real, mayDefer: bool)
    requires WellFormed(s)
    ensures Step(Ticked(s), ot, ct, mayDefer).available <==> EntersCharging(s, ct) || StaysAvailable(s, ot)
    ensures Step(Ticked(s), ot, ct, mayDefer).target <==> mayDefer && EntersOperating(s, ot, ct)
  {
    assert Ticked(s).status == s.status && Ticked(s).hosted == s.hosted;
  }

  /** The available list: in index order, exactly the robots that enter charging or stay
      available. */
  /** Robot `s` is reported available by its iteration of `tick`'s loop. */
  predicate ReportedAvailable(s: RobotState, ot: real, ct: real)
    requires s.total > 0
  {
    EntersCharging(s, ct) || StaysAvailable(s, ot)
  }

  /** `av` lists, in increasing order, exactly the robots before `k` reported available. */
  ghost predicate AvailableList(states: seq<RobotState>, ot: real, ct: real, av: seq<nat>, k: nat)
    requires k <= |states| && AllWellFormed(states)
  {
    && StrictlyIncreasing(av)
    && (forall i :: i in av <==> 0 <= i < k && ReportedAvailable(states[i], ot, ct))
  }

  /** The available list: in index order, exactly the robots that enter charging or stay
      available. */
  lemma {:induction false} TickAvailable(states: seq<RobotState>, ot: real, ct: real, delay: bool, k: nat)
    requires k <= |states| && AllWellFormed(states)
    ensures AvailableList(states, ot, ct, TickPrefix(states, ot, ct, delay, k).available, k)
  {
    TickAvailableIsReported(states, ot, ct, delay, k);
    ReportedInOrder(states, ot, ct, k);
  }

  /** The robots among the first `k` reported available, in index order. */
  function Reported(states: seq<RobotState>, ot: real, ct: real, k: nat): seq<nat>
    requires k <= |states| && AllWellFormed(states)
  {
    if k == 0 then []
    else Reported(states, ot, ct, k - 1) + (if ReportedAvailable(states[k - 1], ot, ct) then [k - 1] else [])
  }

  /** The available list of the loop does not depend on the deferral. */
  lemma {:induction false} TickAvailableIsReported(states: seq<RobotState>, ot: real, ct: real, delay: bool, k: nat)
    requires k <= |states| && AllWellFormed(states)
    ensures TickPrefix(states, ot, ct, delay, k).available == Reported(states, ot, ct, k)
  {
    if k > 0 {
      TickAvailableIsReported(states, ot, ct, delay, k - 1);
      var r := TickPrefix(states, ot, ct, delay, k - 1);
      StepFlags(states[k - 1], ot, ct, delay && |r.targets| < 1);
    }
  }

  lemma {:induction false} ReportedInOrder(states: seq<RobotState>, ot: real, ct: real, k: nat)
    requires k <= |states| && AllWellFormed(states)
    ensures AvailableList(states, ot, ct, Reported(states, ot, ct, k), k)
  {
    if k > 0 {
      ReportedInOrder(states, ot, ct, k - 1);
      AvailableStep(states, ot, ct, Reported(states, ot, ct, k - 1), k - 1, ReportedAvailable(states[k - 1], ot, ct));
    }
  }

  /** One more iteration extends the available list by its robot exactly when it is
      reported available. */
  lemma AvailableStep(states: seq<RobotState>, ot: real, ct: real, av: seq<nat>, k: nat, add: bool)
    requires k < |states| && AllWellFormed(states)
    requires AvailableList(states, ot, ct, av, k)
    requires add == ReportedAvailable(states[k], ot, ct)
    ensures AvailableList(states, ot, ct, av + (if add then [k] else []), k + 1)
  {
    assert forall a :: 0 <= a < |av| ==> av[a] in av;
  }

  /** The whole of `tick`: no robot both enters charging and enters operating, the
      available robots are charging afterwards, and a deferred robot keeps its status. */
  lemma TickOutcomeShape(states: seq<RobotState>, ot: real, ct: real, delay: bool)
    requires AllWellFormed(states)
    ensures var r := TickOutcome(states, ot, ct, delay);
      && (forall i :: 0 <= i < |states| ==> !(EntersCharging(states[i], ct) && EntersOperating(states[i], ot, ct)))
      && (forall i :: i in r.available ==> 0 <= i < |states| && r.states[i].status == Charging)
      && (forall i :: i in r.targets ==> 0 <= i < |states| && r.states[i].status == states[i].status)
      && AllWellFormed(r.states)
  {
    var r := TickOutcome(states, ot, ct, delay);
    TickStates(states, ot, ct, delay, |states|);
    TickTargets(states, ot, ct, delay, |states|);
    TickAvailable(states, ot, ct, delay, |states|);
    forall i | 0 <= i < |states|
      ensures WellFormed(r.states[i])
      ensures i in r.available ==> r.states[i].status == Charging
      ensures i in r.targets ==> r.states[i].status == states[i].status
    {
      TickedStateFacts(states, ot, ct, delay, i);
    }
  }

  /** The state `tick` gives one robot is well formed, charging when the robot is reported
      available, and of unchanged status when the robot is deferred. */
  lemma TickedStateFacts(states: seq<RobotState>, ot: real, ct: real, delay: bool, i: nat)
    requires i < |states| && AllWellFormed(states)
    ensures var t := TickedState(states, ot, ct, delay, i);
      && WellFormed(t)
      && (ReportedAvailable(states[i], ot, ct) ==> t.status == Charging)
      && (Deferred(states, ot, ct, delay, i) ==> t.status == states[i].status)
  {
    assert Ticked(states[i]).status == states[i].status;
  }

  /** `tick`: advances every robot's battery, applies the threshold rule and returns the
      robots free to host and the robot deferred as operating target.  The battery log
      `res` is not modelled. */
  method Tick(robots: seq<Robot>, ot: real, ct: real, delay: bool) returns (available: seq<nat>, targets: seq<nat>)
    requires Distinct(robots) && AllValid(robots)
    modifies robots
    ensures AllValid(robots)
    ensures var r := TickOutcome(old(Views(robots)), ot, ct, delay);
      Views(robots) == r.states && available == r.available && targets == r.targets
  {
    ghost var start := Views(robots);
    ValidStates(robots);
    available := [];
    targets := [];
    for id := 0 to |robots|
      invariant AllValid(robots)
      invariant TickedUpTo(robots, start, ot, ct, delay, id, available, targets)
    {
      available, targets := TickNext(robots, start, ot, ct, delay, id, available, targets);
    }
  }

  /** The fleet, the available list and the target list are those of the first `k`
      iterations of `tick`'s loop from `start`. */
  ghost predicate TickedUpTo(robots: seq<Robot>, start: seq<RobotState>, ot: real, ct: real, delay: bool, k: nat,
                             available: seq<nat>, targets: seq<nat>)
    reads robots
  {
    && k <= |start| && AllWellFormed(start)
    && var r := TickPrefix(start, ot, ct, delay, k);
      Views(robots) == r.states && available == r.available && targets == r.targets
  }

  /** Runs iteration `id` of `tick`'s loop: robot `id` is ticked and classified, the
      others keep their state. */
  method TickNext(robots: seq<Robot>, ghost start: seq<RobotState>, ot: real, ct: real, delay: bool, id: nat,
                  available: seq<nat>, targets: seq<nat>) returns (available': seq<nat>, targets': seq<nat>)
    requires Distinct(robots) && AllValid(robots) && id < |robots|
    requires TickedUpTo(robots, start, ot, ct, delay, id, available, targets)
    modifies robots
    ensures AllValid(robots)
    ensures TickedUpTo(robots, start, ot, ct, delay, id + 1, available', targets')
  {
    TickUntouched(start, ot, ct, delay, id);
    ghost var before := Views(robots);
    var robot := robots[id];
    var isAvailable, isTarget := TickRobot(robot, ot, ct, |targets| < 1 && delay);
    assert forall j :: 0 <= j < |robots| && j != id ==> robots[j].View() == before[j];
    assert Views(robots) == before[id := robot.View()];
    available' := available + (if isAvailable then [id] else []);
    targets' := targets + (if isTarget then [id] else []);
  }

  /** One iteration of `tick`'s loop on one robot; `mayDefer` is true while no target has
      been chosen and the delay is enabled. */
  method TickRobot(robot: Robot, ot: real, ct: real, mayDefer: bool) returns (isAvailable: bool, isTarget: bool)
    requires robot.Valid()
    modifies robot
    ensures robot.Valid()
    ensures StepOutcome(robot.View(), isAvailable, isTarget) == Step(Ticked(old(robot.View())), ot, ct, mayDefer)
  {
    isAvailable, isTarget := false, false;
    var fraction := robot.Tick();
    var status := robot.status;
    if fraction <= ct && status != Charging {
      robot.Charge();
      isAvailable := true;
    } else if fraction >= ot && status != Operating {
      if mayDefer {
        isTarget := true;
      } else {
        robot.Operate();
      }
    } else {
      var hosting := robot.IsHostingNow();
      if !hosting && status == Charging {
        isAvailable := true;
      }
    }
  }

  // ---------------------------------------------------------------------------
  // sort_ids

  /** The tie-break among robots at the same distance (the random shuffle is not modelled). */
  datatype TieBreak = NoTieBreak | LargestBattery | SmallestBattery

  /** Python's `list.insert(index, x)` for a non-negative index: past the end it appends. */
  function InsertAt(s: seq<nat>, index: nat, x: nat): (r: seq<nat>)
    ensures |r| == |s| + 1 && multiset(r) == multiset(s) + multiset{x}
    ensures forall y :: y in r <==> y in s || y == x
    ensures index < |s| ==> r[index] == x && r[..index] == s[..index] && r[index + 1..] == s[index..]
    ensures index >= |s| ==> r == s + [x]
  {
    if index >= |s| then s + [x]
    else
      assert s == s[..index] + s[index..];
      s[..index] + [x] + s[index..]
  }

  /** The battery fraction of robot `id`. */
  function FractionOf(states: seq<RobotState>, id: nat): real
    requires id < |states| && WellFormed(states[id])
  {
    Fraction(states[id])
  }

  predicate IdsIn(ids: seq<nat>, states: seq<RobotState>) {
    forall a :: 0 <= a < |ids| ==> ids[a] < |states|
  }

  /** The first robot of `sorted` whose fraction is at least that of `id`. */
  function FirstNotBelow(sorted: seq<nat>, states: seq<RobotState>, id: nat): (r: Option<nat>)
    requires id < |states| && IdsIn(sorted, states) && AllWellFormed(states)
    ensures r.Some? ==> r.value in sorted && FractionOf(states, id) <= FractionOf(states, r.value)
    ensures r.None? ==> forall a :: 0 <= a < |sorted| ==> FractionOf(states, id) > FractionOf(states, sorted[a])
  {
    if |sorted| == 0 then None
    else if FractionOf(states, id) <= FractionOf(states, sorted[0]) then Some(sorted[0])
    else FirstNotBelow(sorted[1..], states, id)
  }

  /** One iteration of the insertion loop of `sort_ids`: `id` goes in front of the list
      position named by the first robot whose fraction is not below its own, or at the end
      when there is none. */
  function InsertId(sorted: seq<nat>, states: seq<RobotState>, id: nat): (r: seq<nat>)
    requires id < |states| && IdsIn(sorted, states) && AllWellFormed(states)
    ensures IdsIn(r, states)
    ensures multiset(r) == multiset(sorted) + multiset{id}
  {
    if |sorted| == 0 then [id]
    else
      match FirstNotBelow(sorted, states, id)
      case Some(target) => InsertAt(sorted, target, id)
      case None => sorted + [id]
  }

  /** The insertion loop of `sort_ids` over the first `k` ids. */
  function InsertionOrder(ids: seq<nat>, states: seq<RobotState>, k: nat): (r: seq<nat>)
    requires k <= |ids| && IdsIn(ids, states) && AllWellFormed(states)
    ensures IdsIn(r, states)
  {
    if k == 0 then []
    else InsertId(InsertionOrder(ids, states, k - 1), states, ids[k - 1])
  }

  lemma {:induction false} InsertionOrderIds(ids: seq<nat>, states: seq<RobotState>, k: nat)
    requires k <= |ids| && IdsIn(ids, states) && AllWellFormed(states)
    ensures multiset(InsertionOrder(ids, states, k)) == multiset(ids[..k])
  {
    if k > 0 {
      InsertionOrderIds(ids, states, k - 1);
      PrefixMultiset(ids, k);
    }
  }

  lemma PrefixMultiset(s: seq<nat>, k: nat)
    requires 0 < k <= |s|
    ensures multiset(s[..k]) == multiset(s[..k - 1]) + multiset{s[k - 1]}
  {
    assert s[..k] == s[..k - 1] + [s[k - 1]];
  }

  function Reverse(s: seq<nat>): (r: seq<nat>)
    ensures |r| == |s| && forall a :: 0 <= a < |s| ==> r[a] == s[|s| - 1 - a]
  {
    seq(|s|, a requires 0 <= a < |s| => s[|s| - 1 - a])
  }

  /** `sort_ids`: the ids unchanged without a tie-break, the insertion order for the
      smallest battery first, and its reverse for the largest battery first. */
  function SortedIds(ids: seq<nat>, states: seq<RobotState>, policy: TieBreak): seq<nat>
    requires IdsIn(ids, states) && AllWellFormed(states)
  {
    match policy
    case NoTieBreak => ids
    case SmallestBattery => InsertionOrder(ids, states, |ids|)
    case LargestBattery => Reverse(InsertionOrder(ids, states, |ids|))
  }

  lemma ReversePermutes(s: seq<nat>)
    ensures multiset(Reverse(s)) == multiset(s)
    decreases |s|
  {
    if |s| > 0 {
      var r := Reverse(s);
      ReversePermutes(s[1..]);
      assert r == Reverse(s[1..]) + [s[0]];
      assert s == [s[0]] + s[1..];
    }
  }

  /** Every policy returns a permutation of the ids. */
  lemma SortedIdsPermutes(ids: seq<nat>, states: seq<RobotState>, policy: TieBreak)
    requires IdsIn(ids, states) && AllWellFormed(states)
    ensures multiset(SortedIds(ids, states, policy)) == multiset(ids)
    ensures IdsIn(SortedIds(ids, states, policy), states)
  {
    InsertionOrderIds(ids, states, |ids|);
    assert ids[..|ids|] == ids;
    var o := InsertionOrder(ids, states, |ids|);
    ReversePermutes(o);
    assert forall a :: 0 <= a < |Reverse(o)| ==> Reverse(o)[a] in multiset(o);
  }

  /** Two robots with fractions 0.2 (robot 0) and 0.5 (robot 1). */
  function TwoRobots(): (states: seq<RobotState>)
    ensures |states| == 2 && AllWellFormed(states)
    ensures FractionOf(states, 0) == 0.2 && FractionOf(states, 1) == 0.5
  {
    [NewRobot(0, 2, 10, Charging, 0, 0), NewRobot(1, 5, 10, Charging, 0, 0)]
  }

  /** The insertion uses a robot id as a list position, so the smallest-battery order is not
      sorted: robot 0 goes at position 1, past the end, behind the fuller robot 1. */
  lemma SmallestFirstNotSorted()
    ensures SortedIds([1, 0], TwoRobots(), SmallestBattery) == [1, 0]
    ensures FractionOf(TwoRobots(), 1) > FractionOf(TwoRobots(), 0)
  {
    var states := TwoRobots();
    assert InsertionOrder([1, 0], states, 1) == [1];
    assert FirstNotBelow([1], states, 0) == Some(1);
  }

  /** `sort_ids` on the robots' current states. */
  method SortIds(ids: seq<nat>, robots: seq<Robot>, policy: TieBreak) returns (sorted: seq<nat>)
    requires IdsIn(ids, Views(robots)) && AllValid(robots)
    ensures sorted == SortedIds(ids, Views(robots), policy)
    ensures multiset(sorted) == multiset(ids)
  {
    ValidStates(robots);
    SortedIdsPermutes(ids, Views(robots), policy);
    if policy == NoTieBreak {
      return ids;
    }
    sorted := InsertAll(ids, robots);
    if policy == LargestBattery {
      sorted := ReverseList(sorted);
    }
  }

  /** The insertion loop of `sort_ids`. */
  method InsertAll(ids: seq<nat>, robots: seq<Robot>) returns (sorted: seq<nat>)
    requires IdsIn(ids, Views(robots)) && AllValid(robots)
    ensures AllWellFormed(Views(robots)) && sorted == InsertionOrder(ids, Views(robots), |ids|)
  {
    ghost var states := Views(robots);
    ValidStates(robots);
    sorted := [];
    for k := 0 to |ids|
      invariant sorted == InsertionOrder(ids, states, k)
    {
      sorted := InsertIdAmong(sorted, robots, ids[k]);
    }
  }

  /** One iteration of the insertion loop of `sort_ids`. */
  method InsertIdAmong(sorted: seq<nat>, robots: seq<Robot>, id: nat) returns (r: seq<nat>)
    requires id < |robots| && IdsIn(sorted, Views(robots)) && AllValid(robots)
    ensures AllWellFormed(Views(robots)) && r == InsertId(sorted, Views(robots), id)
  {
    ValidStates(robots);
    if |sorted| == 0 {
      r := [id];
    } else {
      var target := FindTarget(sorted, robots, id);
      if target.Some? {
        r := InsertAt(sorted, target.value, id);
      } else {
        r := sorted + [id];
      }
    }
  }

  /** The inner search of `sort_ids`: the first robot of `sorted` whose fraction is at
      least that of `id`. */
  method FindTarget(sorted: seq<nat>, robots: seq<Robot>, id: nat) returns (target: Option<nat>)
    requires id < |robots| && IdsIn(sorted, Views(robots)) && AllValid(robots)
    ensures target == FirstNotBelow(sorted, Views(robots), id)
  {
    ghost var states := Views(robots);
    target := None;
    var fraction := robots[id].battery as real / robots[id].total as real;
    assert fraction == FractionOf(states, id);
    for j := 0 to |sorted|
      invariant target.None?
      invariant FirstNotBelow(sorted, states, id) == FirstNotBelow(sorted[j..], states, id)
    {
      var id2 := sorted[j];
      assert states[id2] == robots[id2].View();
      if fraction <= robots[id2].battery as real / robots[id2].total as real {
        target := Some(id2);
        break;
      }
      assert sorted[j..][1..] == sorted[j + 1..];
    }
  }

  /** `list.reverse()`. */
  method ReverseList(s: seq<nat>) returns (r: seq<nat>)
    ensures r == Reverse(s)
  {
    r := [];
    for a := 0 to |s|
      invariant r == Reverse(s[..a])
    {
      r := [s[a]] + r;
    }
    assert s[..|s|] == s;
  }

  // ---------------------------------------------------------------------------
  // move_computation

  /** A robot that can give its own task away: operating and not yet offloaded. */
  predicate Eligible(s: RobotState) {
    !s.offloaded && s.status == Operating
  }

  /** The first eligible robot of `ids`. */
  function FirstEligible(states: seq<RobotState>, ids: seq<nat>): (r: Option<nat>)
    requires IdsIn(ids, states)
    ensures r.Some? ==> r.value in ids && Eligible(states[r.value])
    ensures r.None? ==> NoneEligible(states, ids)
  {
    if |ids| == 0 then None
    else if Eligible(states[ids[0]]) then Some(ids[0])
    else FirstEligible(states, ids[1..])
  }

  /** No robot listed in `ids` is eligible. */
  predicate NoneEligible(states: seq<RobotState>, ids: seq<nat>)
    requires IdsIn(ids, states)
  {
    forall a :: 0 <= a < |ids| ==> !Eligible(states[ids[a]])
  }

  /** The robot found is the first eligible one: every robot listed before it is not. */
  lemma {:induction false} FirstEligibleIsFirst(states: seq<RobotState>, ids: seq<nat>)
    requires IdsIn(ids, states)
    ensures var r := FirstEligible(states, ids);
      r.Some? ==> exists a :: 0 <= a < |ids| && ids[a] == r.value && NoneEligible(states, ids[..a])
  {
    if |ids| > 0 && !Eligible(states[ids[0]]) {
      var r := FirstEligible(states, ids[1..]);
      FirstEligibleIsFirst(states, ids[1..]);
      if r.Some? {
        var a :| 0 <= a < |ids| - 1 && ids[1..][a] == r.value && NoneEligible(states, ids[1..][..a]);
        assert ids[..a + 1] == [ids[0]] + ids[1..][..a];
        assert ids[a + 1] == r.value && NoneEligible(states, ids[..a + 1]);
      }
    } else if |ids| > 0 {
      assert NoneEligible(states, ids[..0]);
    }
  }

  predicate GroupsIn(groups: seq<seq<nat>>, states: seq<RobotState>) {
    forall a :: 0 <= a < |groups| ==> IdsIn(groups[a], states)
  }

  /** The donor the search finds: the first eligible robot of the first group, in tie-break
      order, that has one. */
  function FirstDonor(states: seq<RobotState>, groups: seq<seq<nat>>, policy: TieBreak): (r: Option<nat>)
    requires AllWellFormed(states) && GroupsIn(groups, states)
    ensures r.Some? ==> r.value < |states| && Eligible(states[r.value])
    ensures r.Some? ==> exists a :: 0 <= a < |groups| && r.value in groups[a]
    ensures r.None? ==> forall a, x :: 0 <= a < |groups| && 0 <= x < |groups[a]| ==> !Eligible(states[groups[a][x]])
  {
    if |groups| == 0 then None
    else
      SortedIdsPermutes(groups[0], states, policy);
      var sorted := SortedIds(groups[0], states, policy);
      var d := FirstEligible(states, sorted);
      if d.Some? then
        assert d.value in multiset(groups[0]);
        d
      else
        NoneEligiblePermuted(states, sorted, groups[0]);
        assert forall a :: 1 <= a < |groups| ==> groups[1..][a - 1] == groups[a];
        FirstDonor(states, groups[1..], policy)
  }

  /** The donor found is in the first group that has an eligible robot, and it is the first
      eligible robot of that group in tie-break order. */
  lemma {:induction false} FirstDonorIsFirst(states: seq<RobotState>, groups: seq<seq<nat>>, policy: TieBreak)
    requires AllWellFormed(states) && GroupsIn(groups, states)
    ensures var r := FirstDonor(states, groups, policy);
      r.Some? ==> exists a :: 0 <= a < |groups| && DonorGroup(states, groups, policy, a) && r == FirstEligible(states, SortedIds(groups[a], states, policy))
  {
    if |groups| > 0 {
      SortedIdsPermutes(groups[0], states, policy);
      var sorted := SortedIds(groups[0], states, policy);
      if FirstEligible(states, sorted).Some? {
        assert DonorGroup(states, groups, policy, 0);
      } else {
        NoneEligiblePermuted(states, sorted, groups[0]);
        assert GroupsIn(groups[1..], states);
        var r := FirstDonor(states, groups[1..], policy);
        FirstDonorIsFirst(states, groups[1..], policy);
        if r.Some? {
          var a :| 0 <= a < |groups| - 1 && DonorGroup(states, groups[1..], policy, a) && r == FirstEligible(states, SortedIds(groups[1..][a], states, policy));
          DonorGroupShift(states, groups, policy, a);
        }
      }
    }
  }

  /** A list with the same robots as one where none is eligible has none eligible either. */
  lemma NoneEligiblePermuted(states: seq<RobotState>, sorted: seq<nat>, ids: seq<nat>)
    requires IdsIn(sorted, states) && IdsIn(ids, states) && multiset(sorted) == multiset(ids)
    requires NoneEligible(states, sorted)
    ensures NoneEligible(states, ids)
  {
    forall x | 0 <= x < |ids|
      ensures !Eligible(states[ids[x]])
    {
      assert ids[x] in multiset(sorted);
    }
  }

  /** When the first group has no eligible robot, the group where the search of the later
      groups stops is where the search of all of them stops. */
  lemma DonorGroupShift(states: seq<RobotState>, groups: seq<seq<nat>>, policy: TieBreak, a: nat)
    requires AllWellFormed(states) && GroupsIn(groups, states) && 0 < |groups| && a + 1 < |groups|
    requires NoneEligible(states, groups[0]) && GroupsIn(groups[1..], states)
    requires DonorGroup(states, groups[1..], policy, a)
    ensures groups[a + 1] == groups[1..][a] && DonorGroup(states, groups, policy, a + 1)
  {
    assert groups[a + 1] == groups[1..][a];
    forall b, x | 0 <= b < a + 1 && 0 <= x < |groups[b]|
      ensures !Eligible(states[groups[b][x]])
    {
      if b > 0 {
        assert groups[b] == groups[1..][b - 1];
      }
    }
  }

  /** Group `a` is where the search stops: no robot of an earlier group is eligible, and the
      group's robots come in tie-break order. */
  predicate DonorGroup(states: seq<RobotState>, groups: seq<seq<nat>>, policy: TieBreak, a: nat)
    requires AllWellFormed(states) && GroupsIn(groups, states) && a < |groups|
  {
    && (forall b, x :: 0 <= b < a && 0 <= x < |groups[b]| ==> !Eligible(states[groups[b][x]]))
    && IdsIn(SortedIds(groups[a], states, policy), states)
  }

  /** The donor gives its task away and robot `i` hosts it. */
  function Migrated(states: seq<RobotState>, i: nat, d: nat): (r: seq<RobotState>)
    requires i < |states| && d < |states|
    ensures |r| == |states|
  {
    var st := states[d := WithOffload(states[d], true)];
    st[i := Hosted(st[i], st[d].selfTask).0]
  }

  /** The groups `dijkstra` yields from robot `i`, in order. */
  ghost function GroupsFrom(adj: seq<seq<int>>, i: nat): (groups: seq<seq<nat>>)
    requires Square(adj) && i < |adj|
    ensures forall a, x :: 0 <= a < |groups| && 0 <= x < |groups[a]| ==> groups[a][x] < |adj| && groups[a][x] != i
  {
    DijkstraKeys(adj, i);
    DistanceGroups(adj, i).Items()
  }

  /** One iteration of `move_computation` for available robot `i`: nothing when it hosts
      already or no donor is found, else the migration from the donor found. */
  ghost function MoveStep(states: seq<RobotState>, i: nat, adj: seq<seq<int>>, policy: TieBreak): (r: (seq<RobotState>, Option<nat>))
    requires AllWellFormed(states) && Square(adj) && |adj| == |states| && i < |states|
    ensures |r.0| == |states|
  {
    if IsHosting(states[i]) then (states, None)
    else
      var d := FirstDonor(states, GroupsFrom(adj, i), policy);
      if d.None? then (states, None) else (Migrated(states, i, d.value), d)
  }

  /** A task moved from `donor` to `host`. */
  datatype Migration = Migration(host: nat, donor: nat)

  predicate AllIn(available: seq<nat>, n: nat) {
    forall a :: 0 <= a < |available| ==> available[a] < n
  }

  /** The first `k` iterations of `move_computation`: the states and the migrations made. */
  ghost function MoveAll(states: seq<RobotState>, available: seq<nat>, adj: seq<seq<int>>, policy: TieBreak, k: nat)
    : (r: (seq<RobotState>, seq<Migration>))
    requires AllWellFormed(states) && Square(adj) && |adj| == |states| && k <= |available| && AllIn(available, |states|)
    ensures |r.0| == |states| && AllWellFormed(r.0)
  {
    if k == 0 then (states, [])
    else
      var (st, ms) := MoveAll(states, available, adj, policy, k - 1);
      var (st2, d) := MoveStep(st, available[k - 1], adj, policy);
      (st2, ms + if d.Some? then [Migration(available[k - 1], d.value)] else [])
  }

  /** One iteration: a robot that hosts already is skipped; otherwise the donor found is
      another robot, eligible, reachable from the host, and the only robots that change are
      the donor (now offloaded) and the host (now hosting the donor's own task). */
  lemma MoveStepShape(states: seq<RobotState>, i: nat, adj: seq<seq<int>>, policy: TieBreak)
    requires AllWellFormed(states) && Square(adj) && |adj| == |states| && i < |states|
    ensures var (st, d) := MoveStep(states, i, adj, policy);
      && (IsHosting(states[i]) ==> d.None?)
      && (d.None? ==> st == states)
      && (d.Some? ==>
            && d.value < |states| && d.value != i && !IsHosting(states[i])
            && Eligible(states[d.value]) && HopDistance(adj, i, d.value).Finite?
            && st[d.value] == states[d.value].(offloaded := true)
            && st[i] == states[i].(hosted := Some(states[d.value].selfTask))
            && forall j :: 0 <= j < |states| && j != i && j != d.value ==> st[j] == states[j])
  {
    var (st, d) := MoveStep(states, i, adj, policy);
    if d.Some? {
      var groups := GroupsFrom(adj, i);
      var a :| 0 <= a < |groups| && d.value in groups[a];
      GroupMemberReachable(adj, i, a, d.value);
    }
  }

  /** Every robot in a group `dijkstra` yields is reachable from the source. */
  lemma GroupMemberReachable(adj: seq<seq<int>>, i: nat, a: nat, v: nat)
    requires Square(adj) && i < |adj|
    requires a < |GroupsFrom(adj, i)| && v in GroupsFrom(adj, i)[a]
    ensures v < |adj| && HopDistance(adj, i, v).Finite?
  {
    DijkstraKeys(adj, i);
    DijkstraResult(adj, i);
    var g := DistanceGroups(adj, i);
    var members := g.members[g.order[a]];
    assert GroupsFrom(adj, i)[a] == members;
    var x :| 0 <= x < |members| && members[x] == v;
  }

  /** What `move_computation` never undoes: status, battery and own task stay, an offload
      flag once set stays set, and a hosted task stays hosted. */
  predicate Persists(s: RobotState, t: RobotState) {
    && t == s.(offloaded := t.offloaded, hosted := t.hosted)
    && (s.offloaded ==> t.offloaded)
    && (IsHosting(s) ==> t.hosted == s.hosted)
  }

  /** A migration of the pass: its host was available and hosted nothing, its donor was
      another robot, eligible and reachable from the host; at the end the donor is offloaded
      and the host hosts the donor's own task. */
  ghost predicate MigrationHolds(states: seq<RobotState>, final: seq<RobotState>, adj: seq<seq<int>>,
                                 available: seq<nat>, k: nat, m: Migration)
    requires Square(adj) && |adj| == |states| == |final| && k <= |available|
  {
    && m.host < |states| && m.donor < |states| && m.host != m.donor
    && m.host in available[..k]
    && !IsHosting(states[m.host]) && Eligible(states[m.donor])
    && HopDistance(adj, m.host, m.donor).Finite?
    && final[m.donor].offloaded
    && final[m.host].hosted == Some(states[m.donor].selfTask)
  }

  ghost predicate MigrationsHold(states: seq<RobotState>, final: seq<RobotState>, adj: seq<seq<int>>,
                                  available: seq<nat>, k: nat, ms: seq<Migration>)
    requires Square(adj) && |adj| == |states| == |final| && k <= |available|
  {
    forall a :: 0 <= a < |ms| ==> MigrationHolds(states, final, adj, available, k, ms[a])
  }

  /** No robot is donor of two migrations or host of two migrations. */
  predicate DistinctMigrations(ms: seq<Migration>) {
    forall a, b :: 0 <= a < b < |ms| ==> ms[a].donor != ms[b].donor && ms[a].host != ms[b].host
  }

  /** Robot `j` is neither host nor donor of any migration. */
  predicate Untouched(ms: seq<Migration>, j: nat) {
    forall a :: 0 <= a < |ms| ==> ms[a].host != j && ms[a].donor != j
  }

  lemma PersistsTransitive(s: RobotState, t: RobotState, u: RobotState)
    requires Persists(s, t) && Persists(t, u)
    ensures Persists(s, u)
  {
  }

  /** `move_computation` never undoes anything. */
  lemma {:induction false} MovePersists(states: seq<RobotState>, available: seq<nat>, adj: seq<seq<int>>, policy: TieBreak, k: nat)
    requires AllWellFormed(states) && Square(adj) && |adj| == |states| && k <= |available| && AllIn(available, |states|)
    ensures forall j :: 0 <= j < |states| ==> Persists(states[j], MoveAll(states, available, adj, policy, k).0[j])
  {
    if k > 0 {
      MovePersists(states, available, adj, policy, k - 1);
      var st := MoveAll(states, available, adj, policy, k - 1).0;
      MoveStepShape(st, available[k - 1], adj, policy);
      var st2 := MoveAll(states, available, adj, policy, k).0;
      forall j | 0 <= j < |states| ensures Persists(states[j], st2[j]) {
        PersistsTransitive(states[j], st[j], st2[j]);
      }
    }
  }

  /** Robots that are neither host nor donor of a migration keep their state. */
  lemma {:induction false} MoveUntouched(states: seq<RobotState>, available: seq<nat>, adj: seq<seq<int>>, policy: TieBreak, k: nat)
    requires AllWellFormed(states) && Square(adj) && |adj| == |states| && k <= |available| && AllIn(available, |states|)
    ensures forall j :: 0 <= j < |states| && Untouched(MoveAll(states, available, adj, policy, k).1, j) ==>
      MoveAll(states, available, adj, policy, k).0[j] == states[j]
  {
    if k > 0 {
      MoveUntouched(states, available, adj, policy, k - 1);
      var r := MoveAll(states, available, adj, policy, k - 1);
      var st, ms := r.0, r.1;
      var i := available[k - 1];
      MoveStepShape(st, i, adj, policy);
      var step := MoveStep(st, i, adj, policy);
      var final, d := step.0, step.1;
      var ms2 := ms + if d.Some? then [Migration(i, d.value)] else [];
      assert MoveAll(states, available, adj, policy, k) == (final, ms2);
      forall j | 0 <= j < |states| && Untouched(ms2, j) ensures final[j] == states[j] {
        assert Untouched(ms, j) by {
          forall a | 0 <= a < |ms| ensures ms[a].host != j && ms[a].donor != j {
            assert ms2[a] == ms[a];
          }
        }
        if d.Some? {
          assert ms2[|ms|] == Migration(i, d.value);
        }
      }
    }
  }

  /** `move_computation` over the first `k` available robots: every migration holds, and no
      robot is used twice as donor or twice as host. */
  lemma {:induction false} MoveMigrations(states: seq<RobotState>, available: seq<nat>, adj: seq<seq<int>>, policy: TieBreak, k: nat)
    requires AllWellFormed(states) && Square(adj) && |adj| == |states| && k <= |available| && AllIn(available, |states|)
    ensures MigrationsHold(states, MoveAll(states, available, adj, policy, k).0, adj, available, k,
                           MoveAll(states, available, adj, policy, k).1)
    ensures DistinctMigrations(MoveAll(states, available, adj, policy, k).1)
  {
    if k > 0 {
      MoveMigrations(states, available, adj, policy, k - 1);
      MovePersists(states, available, adj, policy, k - 1);
      var r := MoveAll(states, available, adj, policy, k - 1);
      var st, ms := r.0, r.1;
      var i := available[k - 1];
      var step := MoveStep(st, i, adj, policy);
      var st2, d := step.0, step.1;
      MoveStepShape(st, i, adj, policy);
      var ms2 := ms + if d.Some? then [Migration(i, d.value)] else [];
      assert MoveAll(states, available, adj, policy, k) == (st2, ms2);
      assert available[..k - 1] <= available[..k];
      forall a | 0 <= a < |ms2| ensures MigrationHolds(states, st2, adj, available, k, ms2[a]) {
        if a < |ms| {
          assert ms2[a] == ms[a];
          OldMigrationHolds(states, st, st2, adj, available, k, ms[a], i, d);
        } else {
          assert available[..k][k - 1] == i;
        }
      }
      forall a, b | 0 <= a < b < |ms2| ensures ms2[a].donor != ms2[b].donor && ms2[a].host != ms2[b].host {
        if b == |ms| {
          assert MigrationHolds(states, st, adj, available, k - 1, ms[a]);
        }
      }
    }
  }

  /** A migration made earlier still holds after the next iteration. */
  lemma OldMigrationHolds(states: seq<RobotState>, st: seq<RobotState>, st2: seq<RobotState>, adj: seq<seq<int>>,
                          available: seq<nat>, k: nat, m: Migration, i: nat, d: Option<nat>)
    requires Square(adj) && |adj| == |states| == |st| == |st2| && 0 < k <= |available|
    requires MigrationHolds(states, st, adj, available, k - 1, m)
    requires i < |st| && (IsHosting(st[i]) ==> d.None?)
    requires d.None? ==> st2 == st
    requires d.Some? ==>
      && d.value < |st| && d.value != i
      && st2[d.value] == st[d.value].(offloaded := true)
      && st2[i] == st[i].(hosted := st2[i].hosted)
      && forall j :: 0 <= j < |st| && j != i && j != d.value ==> st2[j] == st[j]
    ensures MigrationHolds(states, st2, adj, available, k, m)
  {
    assert available[..k - 1] <= available[..k];
  }

  lemma ValidStates(robots: seq<Robot>)
    requires AllValid(robots)
    ensures AllWellFormed(Views(robots))
  {
  }

  /** `move_computation`: each available robot that hosts nothing takes the own task of
      the first eligible robot found by distance group, in tie-break order. */
  method MoveComputation(available: seq<nat>, robots: seq<Robot>, adj: seq<seq<int>>, policy: TieBreak)
    requires Distinct(robots) && AllValid(robots) && Square(adj) && |adj| == |robots| && AllIn(available, |robots|)
    modifies robots
    ensures AllValid(robots)
    ensures AllWellFormed(old(Views(robots)))
    ensures Views(robots) == MoveAll(old(Views(robots)), available, adj, policy, |available|).0
  {
    ValidStates(robots);
    ghost var start := Views(robots);
    for k := 0 to |available|
      invariant AllValid(robots)
      invariant Views(robots) == MoveAll(start, available, adj, policy, k).0
    {
      ValidStates(robots);
      MigrateTo(robots, available[k], adj, policy);
    }
  }

  /** One iteration of `move_computation` for available robot `i`. */
  method MigrateTo(robots: seq<Robot>, i: nat, adj: seq<seq<int>>, policy: TieBreak)
    requires Distinct(robots) && AllValid(robots) && Square(adj) && |adj| == |robots| && i < |robots|
    modifies robots
    ensures AllValid(robots)
    ensures AllWellFormed(old(Views(robots)))
    ensures Views(robots) == MoveStep(old(Views(robots)), i, adj, policy).0
  {
    ValidStates(robots);
    ghost var start := Views(robots);
    var robot := robots[i];
    var hosting := robot.IsHostingNow();
    if hosting {
      return;
    }
    var g := Dijkstra(adj, i);
    ghost var groups := GroupsFrom(adj, i);
    DijkstraKeys(adj, i);
    assert groups == g.Items();
    var found := false;
    for a := 0 to |g.order|
      invariant AllValid(robots)
      invariant !found ==> Views(robots) == start && FirstDonor(start, groups, policy) == FirstDonor(start, groups[a..], policy)
      invariant found ==> Views(robots) == MoveStep(start, i, adj, policy).0
    {
      if found {
        break;
      }
      var ids := g.members[g.order[a]];
      assert ids == groups[a];
      found := TryDistanceGroup(robots, i, groups[a..], ids, policy);
      DropFirst(groups, a);
    }
  }

  lemma DropFirst<T>(s: seq<T>, a: nat)
    requires a < |s|
    ensures s[a..][1..] == s[a + 1..]
  {
  }

  /** The search of one distance group, the first of `rest`: its robots in tie-break
      order, then the scan for a donor. */
  method TryDistanceGroup(robots: seq<Robot>, i: nat, ghost rest: seq<seq<nat>>, ids: seq<nat>, policy: TieBreak)
    returns (found: bool)
    requires Distinct(robots) && AllValid(robots) && i < |robots| && !IsHosting(robots[i].View())
    requires |rest| > 0 && ids == rest[0] && GroupsIn(rest, Views(robots))
    requires forall x :: 0 <= x < |ids| ==> ids[x] != i
    modifies robots
    ensures AllValid(robots) && AllWellFormed(old(Views(robots)))
    ensures var d := FirstDonor(old(Views(robots)), rest, policy);
      && (found ==> d.Some? && Views(robots) == Migrated(old(Views(robots)), i, d.value))
      && (!found ==> Views(robots) == old(Views(robots)) && d == FirstDonor(old(Views(robots)), rest[1..], policy))
  {
    ghost var start := Views(robots);
    ValidStates(robots);
    var sorted := SortIds(ids, robots, policy);
    SortedIdsPermutes(ids, start, policy);
    assert forall x :: x in sorted ==> x in multiset(ids);
    found := TryGroup(robots, i, sorted);
  }

  /** The scan of one sorted group: the first eligible robot gives its task to robot `i`. */
  method TryGroup(robots: seq<Robot>, i: nat, sorted: seq<nat>) returns (found: bool)
    requires Distinct(robots) && AllValid(robots) && i < |robots| && IdsIn(sorted, Views(robots)) && i !in sorted
    requires !IsHosting(robots[i].View())
    modifies robots
    ensures AllValid(robots)
    ensures var d := FirstEligible(old(Views(robots)), sorted);
      && found == d.Some?
      && Views(robots) == if d.Some? then Migrated(old(Views(robots)), i, d.value) else old(Views(robots))
  {
    ghost var start := Views(robots);
    var robot := robots[i];
    found := false;
    for b := 0 to |sorted|
      invariant Views(robots) == start
      invariant FirstEligible(start, sorted) == FirstEligible(start, sorted[b..])
    {
      var id := sorted[b];
      if !robots[id].offloaded && robots[id].status == Operating {
        var donor := robots[id];
        donor.Offload();
        var ok := robot.Host(donor.selfTask);
        assert ok;
        found := true;
        assert forall j :: 0 <= j < |robots| && j != i && j != id ==> robots[j].View() == start[j];
        assert Views(robots) == Migrated(start, i, id);
        return;
      }
      assert sorted[b..][1..] == sorted[b + 1..];
    }
  }

  // ---------------------------------------------------------------------------
  // count_missed_offload

  /** `zip` stops at the shortest of its arguments. */
  function ZipLength(a: nat, b: nat, c: nat): (m: nat)
    ensures m <= a && m <= b && m <= c && (m == a || m == b || m == c)
  {
    if a <= b && a <= c then a else if b <= c then b else c
  }

  /** Position `i` is a missed offload: allocated 1, battery exhausted, still operating. */
  predicate Missed(allocation: seq<int>, battery: seq<real>, status: seq<Status>, i: nat)
    requires i < |allocation| && i < |battery| && i < |status|
  {
    allocation[i] == 1 && battery[i] <= 0.0 && status[i] == Operating
  }

  /** The missed offloads among the first `k` zipped positions. */
  function MissedCount(allocation: seq<int>, battery: seq<real>, status: seq<Status>, k: nat): nat
    requires k <= |allocation| && k <= |battery| && k <= |status|
  {
    if k == 0 then 0
    else MissedCount(allocation, battery, status, k - 1) + if Missed(allocation, battery, status, k - 1) then 1 else 0
  }

  /** The count is at most the number of zipped positions, zero exactly when no position is
      missed, and equal to it exactly when every position is. */
  lemma {:induction false} MissedCountBounds(allocation: seq<int>, battery: seq<real>, status: seq<Status>, k: nat)
    requires k <= |allocation| && k <= |battery| && k <= |status|
    ensures MissedCount(allocation, battery, status, k) <= k
    ensures MissedCount(allocation, battery, status, k) == 0 <==>
      forall i :: 0 <= i < k ==> !Missed(allocation, battery, status, i)
    ensures MissedCount(allocation, battery, status, k) == k <==>
      forall i :: 0 <= i < k ==> Missed(allocation, battery, status, i)
  {
    if k > 0 {
      MissedCountBounds(allocation, battery, status, k - 1);
    }
  }

  /** `count_missed_offload` over the zipped allocation, battery levels and statuses. */
  method CountMissedOffload(allocation: seq<int>, battery: seq<real>, status: seq<Status>) returns (missed: nat)
    ensures missed == MissedCount(allocation, battery, status, ZipLength(|allocation|, |battery|, |status|))
  {
    var n := ZipLength(|allocation|, |battery|, |status|);
    missed := 0;
    for i := 0 to n
      invariant missed == MissedCount(allocation, battery, status, i)
    {
      if allocation[i] == 1 && battery[i] <= 0.0 && status[i] == Operating {
        missed := missed + 1;
      }
    }
  }
}
