/**
 * A task: the recurring computation owned by one robot.  The record is
 * immutable; its owner and its per-tick consumption are fixed when it is made.
 */
module Tasks {

  /** The owning robot is named by its id (its index in the fleet). */
  datatype Task = Task(fromRobot: nat, consumption: int)
  {
    /** The consumption the task was built with. */
    function GetConsumption(): int { consumption }

    /** The robot that owns the task. */
    function GetFrom(): nat { fromRobot }
  }

  /** Building a task and reading it back gives the values it was built with. */
  function NewTask(owner: nat, consumption: int): (t: Task)
    ensures t.GetFrom() == owner
    ensures t.GetConsumption() == consumption
  {
    Task(owner, consumption)
  }
}
