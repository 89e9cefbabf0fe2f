/**
 * One robot of the fleet: a battery that charges or discharges once per tick,
 * a charging/operating status, at most one hosted foreign task and a flag
 * saying whether its own task runs elsewhere.
 *
 * The record `RobotState` is the value a robot holds at one moment; the pure
 * functions below say how each operation changes it, and class `Robot` is the
 * mutable object whose methods are proved to follow them.
 */
module Robots {
  import opened Wrappers
  import opened Tasks

  datatype Status = Charging | Operating

  /** Every robot's own task costs one unit of battery per operating tick. */
  const SelfConsumption: int := 1

  datatype RobotState = RobotState(
    name: nat,
    battery: int,
    total: int,
    chargeRate: int,
    dischargeRate: int,
    status: Status,
    hosted: Option<Task>,
    offloaded: bool,
    selfTask: Task)

  /** What every robot keeps true: a positive capacity and its own task. */
  predicate WellFormed(s: RobotState) {
    s.total > 0 && s.selfTask == Task(s.name, SelfConsumption)
  }

  /** A freshly built robot. */
  function NewRobot(name: nat, battery: int, total: int, status: Status, chargeRate: int, dischargeRate: int): (s: RobotState)
    ensures s.hosted == None && !s.offloaded
    ensures s.selfTask.GetFrom() == name && s.selfTask.GetConsumption() == 1
    ensures s.battery == battery && s.total == total && s.status == status
    ensures total > 0 ==> WellFormed(s)
  {
    RobotState(name, battery, total, chargeRate, dischargeRate, status, None, false, NewTask(name, SelfConsumption))
  }

  predicate IsHosting(s: RobotState) {
    s.hosted.Some?
  }

  /** The battery level as a fraction of the capacity. */
  function Fraction(s: RobotState): real
    requires s.total > 0
  {
    s.battery as real / s.total as real
  }

  /** Battery spent in one charging tick on the hosted task, if any. */
  function HostedConsumption(s: RobotState): int {
    if s.hosted.Some? then s.hosted.value.GetConsumption() else 0
  }

  /** Battery spent in one operating tick on the robot's own task, unless it was offloaded. */
  function SelfTaskConsumption(s: RobotState): int {
    if s.offloaded then 0 else s.selfTask.GetConsumption()
  }

  function Min(a: int, b: int): int { if a <= b then a else b }

  /** One tick of the battery: charging adds the charge rate less the hosted task and
      is capped at the capacity; operating subtracts the discharge rate and the own
      task, with no lower cap.  Nothing but the battery changes. */
  function Ticked(s: RobotState): (r: RobotState)
    ensures r == s.(battery := r.battery)
    ensures s.status == Charging ==> r.battery <= s.total
    ensures s.status == Charging ==>
      r.battery == Min(s.total, s.battery + s.chargeRate - HostedConsumption(s))
    ensures s.status == Operating ==>
      r.battery == s.battery - s.dischargeRate - SelfTaskConsumption(s)
    ensures WellFormed(s) ==> WellFormed(r)
  {
    match s.status
    case Charging =>
      var b := s.battery + s.chargeRate - HostedConsumption(s);
      s.(battery := if b > s.total then s.total else b)
    case Operating =>
      s.(battery := s.battery - s.dischargeRate - SelfTaskConsumption(s))
  }

  /** Entering charging changes the status only. */
  function Charged(s: RobotState): (r: RobotState)
    ensures r.status == Charging
    ensures r.hosted == s.hosted && r.offloaded == s.offloaded && r.battery == s.battery
    ensures r == s.(status := Charging)
  {
    s.(status := Charging)
  }

  /** Entering operating releases any hosted task. */
  function Operated(s: RobotState): (r: RobotState)
    ensures r.status == Operating && !IsHosting(r)
    ensures r.offloaded == s.offloaded && r.battery == s.battery
    ensures r == s.(status := Operating, hosted := None)
  {
    s.(status := Operating, hosted := None)
  }

  /** Hosting succeeds only on a robot that hosts nothing; on failure nothing changes. */
  function Hosted(s: RobotState, t: Task): (r: (RobotState, bool))
    ensures r.1 <==> !IsHosting(s)
    ensures r.1 ==> r.0 == s.(hosted := Some(t))
    ensures !r.1 ==> r.0 == s
  {
    if s.hosted.Some? then (s, false) else (s.(hosted := Some(t)), true)
  }

  function Unhosted(s: RobotState): (r: RobotState)
    ensures !IsHosting(r) && r == s.(hosted := None)
  {
    s.(hosted := None)
  }

  /** Setting the offload flag (true for `offload`, false for `unoffload`). */
  function WithOffload(s: RobotState, flag: bool): (r: RobotState)
    ensures r.offloaded == flag && r == s.(offloaded := flag)
  {
    s.(offloaded := flag)
  }

  /** `offload` and `unoffload` are idempotent, and the later of two settings wins. */
  lemma OffloadIdempotent(s: RobotState, a: bool, b: bool)
    ensures WithOffload(WithOffload(s, a), b) == WithOffload(s, b)
    ensures WithOffload(WithOffload(s, a), a) == WithOffload(s, a)
  {
  }

  /** A charging tick never leaves the battery above capacity, and lands exactly on
      the capacity when the gain would overshoot it. */
  lemma ChargingTickClamped(s: RobotState)
    requires s.status == Charging
    ensures Ticked(s).battery <= s.total
    ensures s.battery + s.chargeRate - HostedConsumption(s) >= s.total ==> Ticked(s).battery == s.total
  {
  }

  class Robot {
    const name: nat
    var battery: int
    const total: int
    var status: Status
    const chargeRate: int
    const dischargeRate: int
    var hosted: Option<Task>
    const selfTask: Task
    var offloaded: bool

    /** The robot's current state as a value. */
    function View(): RobotState
      reads this
    {
      RobotState(name, battery, total, chargeRate, dischargeRate, status, hosted, offloaded, selfTask)
    }

    ghost predicate Valid()
      reads this
    {
      WellFormed(View())
    }

    constructor (name: nat, battery: int, total: int, status: Status, chargeRate: int, dischargeRate: int)
      requires total > 0
      ensures Valid()
      ensures View() == NewRobot(name, battery, total, status, chargeRate, dischargeRate)
    {
      this.name := name;
      this.battery := battery;
      this.total := total;
      this.status := status;
      this.chargeRate := chargeRate;
      this.dischargeRate := dischargeRate;
      this.hosted := None;
      this.selfTask := NewTask(name, SelfConsumption);
      this.offloaded := false;
    }

    method Host(t: Task) returns (ok: bool)
      modifies this
      ensures (View(), ok) == Hosted(old(View()), t)
    {
      if hosted.Some? {
        return false;
      }
      hosted := Some(t);
      return true;
    }

    function IsHostingNow(): (b: bool)
      reads this
      ensures b <==> IsHosting(View())
    {
      hosted.Some?
    }

    method Charge()
      modifies this
      ensures View() == Charged(old(View()))
    {
      status := Charging;
    }

    method Operate()
      modifies this
      ensures View() == Operated(old(View()))
    {
      status := Operating;
      hosted := None;
    }

    method Offload()
      modifies this
      ensures View() == WithOffload(old(View()), true)
    {
      offloaded := true;
    }

    method Unoffload()
      modifies this
      ensures View() == WithOffload(old(View()), false)
    {
      offloaded := false;
    }

    method Unhost()
      modifies this
      ensures View() == Unhosted(old(View()))
    {
      hosted := None;
    }

    /** Advances the battery by one tick and reports the new fraction of capacity. */
    method Tick() returns (fraction: real)
      requires Valid()
      modifies this
      ensures Valid()
      ensures View() == Ticked(old(View()))
      ensures fraction == Fraction(View())
    {
      if status == Charging {
        battery := battery + chargeRate;
        if hosted.Some? {
          battery := battery - hosted.value.GetConsumption();
        }
        if battery > total {
          battery := total;
        }
      } else {
        battery := battery - dischargeRate;
        if !offloaded {
          battery := battery - selfTask.GetConsumption();
        }
      }
      fraction := battery as real / total as real;
    }
  }
}
