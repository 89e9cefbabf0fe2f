# Robot fleet task scheduler — a Dafny model

The system decides which robot of a fleet runs which robot's recurring task.
A robot's battery charges or discharges every tick. A robot that goes to
charge can host one foreign task. An operating robot can hand its own task
over ("offload" it).

The model covers the core of the scheduler:

- **Robots and tasks** (`task.dfy`, `robot.dfy`).
  - A `Task` is an immutable record.
  - A `Robot` is a class whose methods update battery, status, hosted task and offload flag.
  - Each method is proved to follow a pure transition function on the `RobotState` record.
- **Topology** (`topology.dfy`).
  - `dijkstra` is modelled with its heap, `distances` and `visited` state.
  - It is proved to compute least hop counts.
  - It is proved to group the reachable nodes by distance, in the order the grouping loop produces.
- **Allocation rules and search** (`rules.dfy`, `mpc.dfy`).
  - The count, loop and constraint validators are loop methods proved equal to predicates.
  - The two backtracking generators work in place on an `array<int>`, and each undoes its trial.
  - The exhaustive generator is proved sound and complete for the prefix-checked vectors.
  - The bounded-move generator is proved sound for its move budget.
  - The result pool's first-minimum reduction and `find_best_allocation` are modelled too.
- **Tick engine and migration** (`fleet.dfy`).
  - `tick`'s classification loop and `move_computation`'s first-fit search by distance group.
  - `sort_ids` and `count_missed_offload`.
- **Evaluation** (`evaluation.dfy`).
  - The worker's application of a candidate allocation.
  - The two horizon scorers, `optimize_missed_chanches` and `optimize_operation_time`.
- **Simulator bookkeeping** (`simulator.dfy`).
  - The epoch loop.
  - The constraint vector and the application of a decision.
  - The waste counters and the infrastructure check.

State the source mutates is modelled as mutable state. Robots are objects. A
fleet is a `seq<Robot>` of distinct objects whose `View()`s are the states.
The generators' shared `current` vector is an array. Each method that changes
state is specified by a ghost or pure function over the states before the call.

Battery fractions and thresholds are `real`, so the division in `tick`
(src/robot.py:64) is exact.

Where the code and the design description of the repository disagree, the
model follows the code:

- The single-hop rule (no chains) is not enforced. Its check (src/mpc.py:194-201) is switched off at src/mpc.py:178.
  - `AllocationRules.ChainsAreAccepted` exhibits an accepted chain.
- Entering charging does not take back an offloaded task. `charge` only sets the status (src/robot.py:30-31).
- The operating battery has no lower clamp (src/robot.py:55-61).
- The battery-ordered tie-breaks do not sort: `insert(target, id)` uses a robot id as a list position (src/utils.py:143-144).
  - `Fleet.SmallestFirstNotSorted` exhibits an unsorted result.
  - The model keeps the behaviour as written.
- The bounded-move search applies no cycle check.
  - `Mpc.MoveModeAdmitsSwap` shows a two-robot swap it yields that the exhaustive search rejects.
- The groups of `dijkstra` come in order of their smallest node, not of their distance.
  - `Topology.GroupsNotByDistance` exhibits it.
- The constraint vector does not pin charging robots to themselves.
  - Entry `j` is set only when a charging robot hosts robot `j`'s task, and then to that host (src/simulator.py:124-126).
  - `Simulation.ConstraintsMeaning` states this.
- A missing allocator decision does not keep the current assignment.
  - The simulator first clears every link (src/simulator.py:130-132). It then fails on `enumerate(None)` (src/simulator.py:134) before `update_stats` runs.
  - `Simulation.Simulator.ApplyDecision` and `Simulation.Simulator.RunEpoch` return `false` in that case. The links stay cleared and the counters are left unchanged, and `Run` stops.

The callers use robot methods that src/robot.py does not define, or defines
differently: `unhost`, `has_offloaded`, `get_self_task`,
`get_battery_percentage`, and a one-argument `offload`. They are given their
evident meaning on the record:
- `unhost` clears the hosted task;
- `offload(other)` sets the flag and ignores its argument;
- the battery percentage is `Fraction`;
- `get_hosted_task().get_from().get_name()` (src/simulator.py:126) is the owner's index, i.e. the task's `GetFrom()`. `get_from()` holds the owner's name, an integer (src/robot.py:12), and has no `get_name`.

`Mpc` calls `move_computation` with three arguments (src/mpc.py:292). That call is taken with no tie-break.

## Model

| member | source | states |
|---|---|---|
| Tasks.NewTask | src/task.py:2-13 | the getters return the owner and consumption the task was built with |
| Robots.NewRobot | src/robot.py:4-13 | a new robot hosts nothing, has not offloaded, and its own task has owner = name and consumption 1 |
| Robots.Ticked | src/robot.py:43-61 | charging: battery becomes min(total, battery + charge rate − hosted consumption); operating: battery − discharge rate − own consumption unless offloaded, no lower clamp; nothing else changes |
| Robots.ChargingTickClamped | src/robot.py:44-54 | a charging tick never leaves the battery above capacity and lands on it when the gain would overshoot |
| Robots.Charged | src/robot.py:30-31 | `charge` sets the status to charging and keeps hosted task, offload flag and battery |
| Robots.Operated | src/robot.py:33-35 | `operate` sets the status to operating and drops the hosted task |
| Robots.Hosted | src/robot.py:18-22 | `host` succeeds exactly when nothing is hosted, then stores the task; on failure nothing changes |
| Robots.Unhosted | src/mpc.py:72-73 | `unhost` leaves the robot hosting nothing and changes nothing else |
| Robots.WithOffload | src/robot.py:37-41 | `offload`/`unoffload` set the flag to true/false and change nothing else |
| Robots.OffloadIdempotent | src/robot.py:37-41 | setting the flag twice equals setting it once; the later setting wins |
| Robots.Robot.constructor | src/robot.py:4-13 | the new object's state is `NewRobot` of its arguments |
| Robots.Robot.Host | src/robot.py:18-22 | the object's new state and the result are those of `Hosted` |
| Robots.Robot.IsHostingNow | src/robot.py:24-25 | true exactly when a task is hosted |
| Robots.Robot.Charge | src/robot.py:30-31 | the new state is `Charged` of the old one |
| Robots.Robot.Operate | src/robot.py:33-35 | the new state is `Operated` of the old one |
| Robots.Robot.Offload | src/robot.py:37-38 | the new state has the flag set |
| Robots.Robot.Unoffload | src/robot.py:40-41 | the new state has the flag cleared |
| Robots.Robot.Unhost | src/mpc.py:72-73 | the new state hosts nothing |
| Robots.Robot.Tick | src/robot.py:43-64 | the new state is `Ticked` of the old one and the result is battery / total of the new state |
| Topology.HopDistance | src/utils.py:29-40 | a finite distance is the least number of hops reaching the node; infinity means no number of hops reaches it |
| Topology.AwayFromSource | src/utils.py:24-25 | only the source lies at distance 0 |
| Topology.PopIndex | src/utils.py:30 | `heappop` removes an entry least in (distance, node) order |
| Topology.PoppedIsShortest | src/utils.py:30-33 | the node popped first (not yet visited) has its least hop count as its distance |
| Topology.RelaxFrom | src/utils.py:35-40 | relaxing a visited node's neighbours keeps the distances sound and every visited node settled |
| Topology.ShortestHops | src/utils.py:22-40 | the distance computed for every node is its hop distance from the source |
| Topology.GroupByDistance | src/utils.py:42-47 | the grouping loop yields the groups of `Grouping` |
| Topology.GroupingShape | src/utils.py:42-47 | groups hold the non-source nodes at finite distance, each once, in increasing order, keyed by their distance, groups in order of first node |
| Topology.Dijkstra | src/utils.py:22-49 | the result is the grouping by hop distance of the whole graph |
| Topology.DijkstraResult | src/utils.py:42-49 | the source is in no group, all keys are at least 1, every reachable node is in exactly one group of its own distance, nodes increase within a group, groups are ordered by first node |
| Topology.DijkstraKeys | src/utils.py:42-49 | the listed keys are distinct keys of the map and every member is a node other than the source |
| Topology.PathDistances | src/utils.py:29-40 | on the path 0-1-2-3-4 node v lies v hops from node 0 |
| Topology.PathOfFiveGroups | src/utils.py:22-49 | on the path 0-1-2-3-4 from node 0 the result is {1:[1], 2:[2], 3:[3], 4:[4]} |
| Topology.GroupsNotByDistance | src/utils.py:43-47 | with node 1 at distance 2 and node 2 at distance 1, the group of distance 2 comes first |
| AllocationRules.ValidateCount | src/mpc.py:220-244 | true exactly when no id occurs more than twice in the prefix and an id occurring twice has position id in the prefix mapping to itself |
| AllocationRules.OneForeignTaskPerHost | src/mpc.py:220-238 | in an accepted full vector two robots share a host only if one of them is the host itself |
| AllocationRules.CheckForLoop | src/mpc.py:203-218 | true exactly when no walk from a prefix position that is not a self-mapping returns to its start (fuel n) |
| AllocationRules.NoCycleButSelf | src/mpc.py:203-218 | in an accepted full vector the only cycles are self-loops |
| AllocationRules.ChainsAreAccepted | src/mpc.py:177-178 | the chain [1, 2, 2] passes the count and loop checks |
| AllocationRules.IdentityConsistent | src/mpc.py:177-178 | every prefix of the identity passes the count and loop checks |
| AllocationRules.ValidateWithConstraints | src/mpc.py:180-192 | true for no constraints; otherwise true exactly when every constrained entry of the zipped, index-limited prefix matches the allocation |
| Mpc.IsConsistent | src/mpc.py:177-178 | true exactly when both the count and the loop check accept the prefix |
| Mpc.IsAllowed | src/mpc.py:139-154 | true exactly when the constraints before `index` hold, the count check accepts `index + 1` entries, and at most the budget of entries differ from the identity |
| Mpc.MoveModeAdmitsSwap | src/mpc.py:138-164 | the swap [1, 0] is a sound bounded-move result yet fails the loop check |
| Mpc.ProcessPool.Submit | src/mpc.py:36-38 | the submission count grows by one and the result is queued |
| Mpc.ProcessPool.GetBestResult | src/mpc.py:40-52 | starting from an infinite best cost and keeping a result only when strictly cheaper, returns the allocation of the first least finite cost (none when every submitted cost is infinite, or nothing was submitted) and resets the pool |
| Mpc.FirstMinimum | src/mpc.py:41-48 | none exactly when every cost is infinite; otherwise a finite cost that no result undercuts and strictly below every earlier one |
| Mpc.BestOfScored | src/mpc.py:40-52 | the best of scored candidates is none exactly when every candidate's cost is infinite, else the first candidate of least finite cost |
| Mpc.AcceptedMembers | src/mpc.py:262-264 | the accepted options are exactly the stored options that agree with the constraints |
| Mpc.IdentityAccepted | src/mpc.py:166-178 | the identity passes every prefix check of the exhaustive search |
| Mpc.IdentityAllowed | src/mpc.py:139-154 | with no constraint pinning a robot elsewhere, the identity passes `is_allowed` at every position |
| Mpc.Allocator.constructor | src/mpc.py:87-106 | brute force stores every prefix-checked vector including the identity; other policies store nothing |
| Mpc.Allocator.CustomPowerset | src/mpc.py:125-129 | every result has length n, ids in range, and passes the count and loop checks; every prefix-checked vector and the identity are among the results |
| Mpc.Allocator.RecCustomPowerset | src/mpc.py:166-175 | restores `current`, only appends, appends only sound vectors, and appends every prefix-checked vector extending the current prefix |
| Mpc.Allocator.MoveNPowerset | src/mpc.py:111-123 | every result has ids in range, passes the count check, meets the constraints on every position but the last, and moves at most n + (constrained moves) robots; the identity is a result when no constraint pins a robot elsewhere |
| Mpc.Allocator.RecMoveNPowerset | src/mpc.py:138-164 | keeps the prefix, only appends sound vectors, and appends the current vector when it is allowed from `index` on |
| Mpc.Allocator.TryMove | src/mpc.py:160-164 | one trial sets `current[index]`, recurses when allowed and resets the entry to `index` |
| Mpc.Allocator.TryRobotAt | src/mpc.py:171-175 | one trial sets `current[index]` to `i`, recurses when the prefix is consistent and resets the entry; it restores `current`, only appends sound vectors, and appends every accepted vector with that prefix and entry |
| Mpc.Allocator.SubmitAccepted | src/mpc.py:262-266 | exactly the options agreeing with the constraints are submitted, in order |
| Mpc.Allocator.FindBestAllocation | src/mpc.py:246-273 | the result is the first candidate of least finite cost (none when all costs are infinite); candidates agree with the constraints, are the stored options under brute force, and are sound bounded-move vectors otherwise |
| Fleet.TickRobot | src/utils.py:67-89 | one robot's battery tick and its if/elif classification |
| Fleet.StepFlags | src/utils.py:74-89 | a robot is listed available exactly when it enters charging or stays charging without hosting; it is deferred exactly when deferral is possible and it enters operating |
| Fleet.TickStates | src/utils.py:67-89 | each robot ends charging when it enters charging, operating (hosting nothing) when it enters operating and is not deferred, and otherwise only its battery changes |
| Fleet.TickAvailable | src/utils.py:67-89 | the available list is strictly increasing and holds exactly the robots entering charging or charging without a hosted task |
| Fleet.TickTargets | src/utils.py:79-85 | the deferred list is empty without delay, holds at most one robot, and exactly the first robot entering operating |
| Fleet.TickOutcomeShape | src/utils.py:74-85 | no robot both enters charging and enters operating; available robots end charging; a deferred robot keeps its status |
| Fleet.Tick | src/utils.py:62-91 | the fleet's new states and both lists are those of `TickOutcome` |
| Fleet.TickNext | src/utils.py:67-89 | one iteration of the loop over the robots keeps the loop invariant: robots before `id+1` are ticked and classified, both lists are those of that prefix, later robots are untouched |
| Fleet.InsertAt | src/utils.py:143-146 | `list.insert` puts the id at the position when it is in range and appends otherwise |
| Fleet.FindTarget | src/utils.py:138-142 | finds the first listed robot whose fraction is at least that of `id`, or none |
| Fleet.InsertId | src/utils.py:134-146 | inserting one id keeps the list within the fleet and adds exactly that id to its multiset |
| Fleet.SortedIdsPermutes | src/utils.py:124-150 | every tie-break returns a permutation of the ids, all robots of the fleet |
| Fleet.SortIds | src/utils.py:124-150 | none returns the ids unchanged; smallest builds by insertion; largest reverses that construction; the result is a permutation |
| Fleet.InsertIdAmong | src/utils.py:137-146 | the scan over the sorted list computes `InsertId` and leaves the fleet unchanged |
| Fleet.InsertAll | src/utils.py:134-146 | the loop over the ids builds the insertion order of all of them |
| Fleet.ReverseList | src/utils.py:148-149 | the in-place reversal yields the ids in reverse order |
| Fleet.SmallestFirstNotSorted | src/utils.py:132-146 | ids [1, 0] with fractions 0.5 and 0.2 stay in that order under the smallest-battery tie-break |
| Fleet.FirstEligible | src/utils.py:117-118 | a listed robot that is operating and has not offloaded; none exactly when no listed robot is |
| Fleet.FirstEligibleIsFirst | src/utils.py:117-122 | no robot listed before the one found is eligible |
| Fleet.FirstDonor | src/utils.py:111-122 | the donor is an eligible member of a group; none exactly when no group member is eligible |
| Fleet.FirstDonorIsFirst | src/utils.py:111-122 | the donor is the first eligible robot, in tie-break order, of a group such that no earlier group has an eligible robot |
| Fleet.MoveStepShape | src/utils.py:100-122 | a hosting robot is skipped; a migration offloads an eligible reachable donor other than the host, makes the host hold the donor's task, and touches nothing else |
| Fleet.MovePersists | src/utils.py:100-122 | a pass only sets offload flags and hosted tasks, never clears a flag, and never replaces a hosted task |
| Fleet.MoveMigrations | src/utils.py:100-122 | every migration's host was available and idle, its donor eligible and reachable and now offloaded; no donor and no host is used twice |
| Fleet.MoveUntouched | src/utils.py:100-122 | a robot that is neither host nor donor of a migration is unchanged |
| Fleet.TryGroup | src/utils.py:117-122 | the scan migrates the first eligible robot of the sorted group to the host, or changes nothing |
| Fleet.TryDistanceGroup | src/utils.py:109-122 | scanning one distance group migrates the first donor of the remaining groups when it lies in this group, and otherwise changes nothing and leaves that donor in the later groups |
| Fleet.MigrateTo | src/utils.py:100-122 | the new states are one step of the pass for robot i |
| Fleet.MoveComputation | src/utils.py:93-122 | the new states are those of the whole pass over the available robots |
| Fleet.MissedCountBounds | src/utils.py:55-60 | the count is at most the zipped length, zero exactly when no position is a missed offload, and full exactly when all are |
| Fleet.CountMissedOffload | src/utils.py:55-60 | counts the positions, up to the shortest input, allocated 1 with a battery at or below 0 while operating |
| Evaluation.ClearLinks | src/mpc.py:71-73 | every robot ends hosting nothing and not offloaded, nothing else changes |
| Evaluation.ApplyEntry | src/mpc.py:75-78 | robot i offloads and robot id hosts i's own task if it hosts nothing |
| Evaluation.ApplyAllocation | src/mpc.py:71-78 | the new states are those of clearing and then the whole application loop |
| Evaluation.AppliedShape | src/mpc.py:75-78 | after the loop the first k robots are offloaded and each robot hosts the own task of the first robot allocated to it, later ones refused |
| Evaluation.IdentityApplied | src/mpc.py:75-78 | the worker links even a robot allocated to itself: under the identity every robot is offloaded and hosts its own task |
| Evaluation.CountsSplit | src/mpc.py:280-287 | the charging and operating counts add up to the fleet size |
| Evaluation.CountStatuses | src/mpc.py:280-287 | the counting loop returns the numbers of charging and of operating robots |
| Evaluation.Advance | src/mpc.py:289-292 | one instant: a tick without delay, then a migration pass with no tie-break when enabled |
| Evaluation.MissedChancesCostBounds | src/mpc.py:276-294 | the cost is non-negative and at most `time_instants` × n² |
| Evaluation.MissedChancesCostZero | src/mpc.py:276-294 | the cost is zero exactly when as many robots charge as operate before each of the ticks |
| Evaluation.OptimizeMissedChances | src/mpc.py:276-294 | the result is the squared imbalance summed over exactly `time_instants` instants, counted before each tick, and the fleet ends on that trajectory |
| Evaluation.MissedChancesInstant | src/mpc.py:281-292 | one instant adds that instant's squared imbalance and advances the fleet one step of the trajectory |
| Evaluation.OptimizeOperationTime | src/mpc.py:297-315 | the result is the reciprocal of the operating robot-instants over the horizon (none for the division by zero) and the fleet ends on the trajectory |
| Evaluation.OperatingInstant | src/mpc.py:302-313 | one instant adds that instant's operating count and advances the fleet one step of the trajectory |
| Evaluation.OperationTimeCostOrder | src/mpc.py:315 | a lower reciprocal cost is exactly a longer operating time |
| Evaluation.Work | src/mpc.py:63-84 | the cost is that of the horizon simulated from the fleet with the allocation applied |
| Simulation.TickKeepsNumbering | src/simulator.py:64-86 | a tick keeps robot i named i and hosted tasks owned by robots of the fleet |
| Simulation.MoveKeepsNumbering | src/simulator.py:145-172 | a migration pass keeps the same numbering |
| Simulation.ConstraintsMeaning | src/simulator.py:122-126 | an entry is -1 exactly when no charging robot hosts that robot's task, and otherwise the last charging robot that hosts it |
| Simulation.Simulator.Constraints | src/simulator.py:122-126 | the loop builds the constraint vector of the current fleet |
| Simulation.DecidedShape | src/simulator.py:130-137 | after applying a decision a robot is offloaded exactly when it is sent elsewhere, and hosts the own task of the first other robot sent to it |
| Simulation.IdentityDecisionClears | src/simulator.py:134-137 | the identity decision leaves every link cleared |
| Simulation.DecidedKeepsNumbering | src/simulator.py:130-137 | applying a decision keeps the numbering and well-formedness |
| Simulation.DecideLinks | src/simulator.py:134-137 | the application loop skips self-allocations and otherwise offloads and hosts |
| Simulation.DecideEntry | src/simulator.py:134-137 | one entry of the decision extends the decided prefix by that robot's offload and host links |
| Simulation.Simulator.ApplyDecision | src/simulator.py:130-137 | the links are cleared; a present decision is then applied; a missing one fails |
| Simulation.Simulator.InitializeStats | src/simulator.py:42-48 | both waste counters are zero |
| Simulation.WastedBounds | src/simulator.py:174-182 | wasted charging is at most the charging robots, wasted operating at most the operating ones, together at most the fleet |
| Simulation.Simulator.UpdateStats | src/simulator.py:174-182 | each counter grows by the robots charging without hosting / operating without offloading |
| Simulation.Simulator.CheckInfrastructure | src/simulator.py:104-108 | true exactly when the sum of the computation counters is a multiple of the fleet size |
| Simulation.Simulator.constructor | src/simulator.py:13-48 | the simulator holds the given fleet, topology and settings with both counters at zero |
| Simulation.Simulator.MoveComputation | src/simulator.py:145-172 | the pass is the utilities' pass with no tie-break |
| Simulation.Simulator.ClassifyAndMove | src/simulator.py:63-90 | the classification is `tick` without delay, followed by migration when enabled |
| Simulation.Simulator.RunEpoch | src/simulator.py:63-99 | the fleet ends in the `Epoch` outcome (optimisation only when `ep % frequency == 0`); the counters grow by that state's waste when the epoch completes, and are unchanged when the decision is missing |
| Simulation.Simulator.AdvanceEpoch | src/simulator.py:63-93 | the fleet and the success flag are those of `Epoch`: tick and classification, the move pass when enabled, then the allocator's decision when re-optimisation is due |
| Simulation.Simulator.Run | src/simulator.py:50-99 | the fleet stays numbered; counters never decrease and grow by at most n per epoch |

## Left out

- Multiprocessing: the worker processes, the two queues, the shutdown sentinel and `terminate` (src/mpc.py:14-38, 54-61, 108-109). The pool keeps its results as a list of (allocation, cost) pairs in submission order.
- Mpc.Allocator.FindBestAllocation: scores the candidates with a function passed as a parameter, not with the worker's simulation. The worker and both scorers are modelled in `Evaluation`. `Evaluation.Work` connects them to one allocation, and its cost has the pool's cost type, with `None` for infinity. Under a bounded-move policy it requires a constraint vector. With `None` the source fails on `enumerate(None)` (src/mpc.py:116). The simulator always passes a vector.
- Evaluation.OptimizeOperationTime: the floating-point reciprocal is modelled as exact real division. numpy's infinity for a zero sum is `None`.
- The random tie-break of `sort_ids`, `compute_adjacency_matrix`, and the random robots of the simulator's constructor. The topology and the fleet are parameters (`Simulation.Simulator.constructor`).
- The battery log `res` filled by `tick` and `run`, and `print_infrastructure`, `dump_report`, `plot_results`, the progress bar and the `print_powerset*` helpers: output only.
- The unused chain check `__check_chain`, which the code switches off.
- Statuses other than charging and operating. `tick` leaves the battery unchanged for any other status string.
- Simulation.Simulator.CheckInfrastructure: the robots' computation counters and `update_computation` are not part of this model (src/robot.py defines neither), so the counters are a parameter.
- Simulation.Simulator.Run: does not evaluate the infrastructure assertion between epochs, for the same reason. It states bounds on the counters rather than the full trajectory, which `RunEpoch` gives epoch by epoch.
- Simulation.Simulator.RunEpoch: the allocator's decision is a function of the constraint vector passed in. The call in src/simulator.py:128 targets an allocator interface that src/mpc.py does not provide (`BruteForceAllocation`).
- The simulator requires a positive optimisation frequency. With frequency 0 the source fails on its first modulo.
- main.py and tmp.py are not part of this model.
