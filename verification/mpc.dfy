/**
 * The allocation search: the two backtracking generators over a shared
 * `current` vector (exhaustive, and bounded by a number of moves), the result
 * pool's first-minimum reduction, and the allocator that ties them together.
 */
module Mpc {
  import opened Wrappers
  import opened AllocationRules

  datatype AllocationPolicy = BruteForce | Move1 | Move2 | Move3

  /** What every vector the exhaustive search yields satisfies. */
  predicate ExhaustiveSound(v: seq<int>, n: nat) {
    |v| == n && PrefixIds(v, n, n) && Consistent(v, n, n)
  }

  /** A complete vector each of whose prefixes passes the checks, padded with -1 as the
      search holds it: exactly the vectors the exhaustive search reaches. */
  ghost predicate SearchAccepts(v: seq<int>, n: nat) {
    |v| == n && PrefixIds(v, n, n) &&
    forall k :: 1 <= k <= n ==> Consistent(Pad(v[..k], n), k, n)
  }

  /** How many of the first `k` entries differ from the identity. */
  function Moved(v: seq<int>, k: nat): (m: nat)
    requires k <= |v|
    ensures m <= k
  {
    if k == 0 then 0 else Moved(v, k - 1) + (if v[k - 1] != k - 1 then 1 else 0)
  }

  /** How many of the first `k` constraints pin a robot somewhere other than itself. */
  function ConstrainedMoves(c: seq<int>, k: nat): (m: nat)
    requires k <= |c|
    ensures m <= k
  {
    if k == 0 then 0 else ConstrainedMoves(c, k - 1) + (if c[k - 1] != -1 && c[k - 1] != k - 1 then 1 else 0)
  }

  /** `is_allowed` in `_rec_move_n_powerset`: the constraints hold on the positions
      before `index` (not on `index` itself), the first `index + 1` entries pass
      `_validate_count`, and the whole vector differs from the identity in at most
      `budget` positions. */
  predicate Allowed(current: seq<int>, index: nat, budget: nat, c: seq<int>)
    requires index < |current| && |c| == |current|
  {
    && (forall i :: 0 <= i < index ==> c[i] == -1 || c[i] == current[i])
    && ValidCount(current, index + 1, |current|)
    && Moved(current, |current|) <= budget
  }

  /** What every vector the bounded-move search yields satisfies.  The cycle check is
      not applied in this mode, and the last position is never compared with its
      constraint. */
  predicate MoveSound(v: seq<int>, n: nat, budget: nat, c: seq<int>)
    requires |c| == n
  {
    && |v| == n && PrefixIds(v, n, n)
    && ValidCount(v, n, n)
    && Moved(v, n) <= budget
    && (forall i :: 0 <= i < n - 1 ==> c[i] == -1 || c[i] == v[i])
  }

  /** The bounded-move mode admits a two-robot swap, a cycle the exhaustive mode rejects. */
  lemma MoveModeAdmitsSwap()
    ensures MoveSound([1, 0], 2, 2, [-1, -1])
    ensures !Consistent([1, 0], 2, 2)
  {
    var v := [1, 0];
    assert v[..2] == v && v[..1] == [1] && [1][..0] == [];
    assert Count(v, 0) == 1 && Count(v, 1) == 1;
    assert Moved(v, 2) == 2;
    assert Returns(v, 0, 1, 2);
  }

  /** `_is_consistent`: `_validate_count` first, and the loop check only if it passed. */
  method IsConsistent(current: seq<int>, index: nat, n: nat) returns (ok: bool)
    requires |current| == n && index <= n && PrefixIds(current, index, n) && InRange(current, n)
    ensures ok == Consistent(current, index, n)
  {
    ok := ValidateCount(current, index, n);
    if ok {
      ok := CheckForLoop(current, index);
    }
  }

  method IsAllowed(current: seq<int>, index: nat, budget: nat, c: seq<int>) returns (ok: bool)
    requires index < |current| && |c| == |current| && PrefixIds(current, |current|, |current|)
    ensures ok == Allowed(current, index, budget, c)
  {
    var n := |current|;
    for i := 0 to index
      invariant forall k :: 0 <= k < i ==> c[k] == -1 || c[k] == current[k]
    {
      if c[i] != -1 && c[i] != current[i] {
        return false;
      }
    }
    ok := ValidateCount(current, index + 1, n);
    if !ok {
      return false;
    }
    var count := 0;
    for i := 0 to n
      invariant count == Moved(current, i)
    {
      if current[i] != i {
        count := count + 1;
      }
    }
    if count > budget {
      return false;
    }
    return true;
  }

  /** A worker's cost: `Some(c)` is the finite cost `c`, `None` is numpy's infinity
      (the reciprocal of a zero operating time). */
  type Cost = Option<real>

  /** Python's `a < b` on costs: infinity is below nothing, every finite cost is below it. */
  predicate Cheaper(a: Cost, b: Cost) {
    a.Some? && (b.None? || a.value < b.value)
  }

  /** A pool of evaluated candidates: the result queue, drained in submission order. */
  class ProcessPool {
    var results: seq<(seq<int>, Cost)>
    var nSubmitted: nat

    ghost predicate Valid()
      reads this
    {
      nSubmitted == |results|
    }

    constructor ()
      ensures Valid() && results == []
    {
      results := [];
      nSubmitted := 0;
    }

    /** Queues a candidate together with the cost its evaluation reports. */
    method Submit(alloc: seq<int>, cost: Cost)
      requires Valid()
      modifies this
      ensures Valid() && results == old(results) + [(alloc, cost)]
    {
      nSubmitted := nSubmitted + 1;
      results := results + [(alloc, cost)];
    }

    /** `get_best_result`: drains every submitted result, starting from an infinite best
        cost and keeping a result only when its cost is strictly lower, and leaves the pool
        empty. */
    method GetBestResult() returns (best: Option<seq<int>>)
      requires Valid()
      modifies this
      ensures Valid() && results == [] && nSubmitted == 0
      ensures best == BestOf(old(results))
    {
      var bestIndex: Option<nat> := None;
      var bestCost: Cost := None;
      best := None;
      for i := 0 to nSubmitted
        invariant bestIndex == FirstMinimum(results[..i])
        invariant bestIndex.Some? ==> bestIndex.value < i && bestCost == results[bestIndex.value].1 && best == Some(results[bestIndex.value].0)
        invariant bestIndex.None? ==> bestCost.None? && best.None?
      {
        assert results[..i + 1][..i] == results[..i];
        var (alloc, cost) := results[i];
        if Cheaper(cost, bestCost) {
          bestCost := cost;
          best := Some(alloc);
          bestIndex := Some(i);
        }
      }
      assert results[..nSubmitted] == results;
      nSubmitted := 0;
      results := [];
    }
  }

  /** The position of the first result of least finite cost; none when every cost is
      infinite, in particular for no results. */
  function FirstMinimum(rs: seq<(seq<int>, Cost)>): (k: Option<nat>)
    ensures k.None? <==> forall j :: 0 <= j < |rs| ==> rs[j].1.None?
    ensures k.Some? ==> k.value < |rs| && rs[k.value].1.Some?
    ensures k.Some? ==> forall j :: 0 <= j < |rs| ==> !Cheaper(rs[j].1, rs[k.value].1)
    ensures k.Some? ==> forall j :: 0 <= j < k.value ==> Cheaper(rs[k.value].1, rs[j].1)
  {
    if |rs| == 0 then None
    else
      var before := FirstMinimum(rs[..|rs| - 1]);
      var bestCost := if before.None? then None else rs[before.value].1;
      if Cheaper(rs[|rs| - 1].1, bestCost) then Some(|rs| - 1) else before
  }

  /** The allocation of the first result of least finite cost. */
  function BestOf(rs: seq<(seq<int>, Cost)>): Option<seq<int>> {
    var k := FirstMinimum(rs);
    if k.None? then None else Some(rs[k.value].0)
  }

  /** Pairs each candidate with its cost. */
  function Scored(candidates: seq<seq<int>>, evaluate: seq<int> -> Cost): (rs: seq<(seq<int>, Cost)>)
    ensures |rs| == |candidates|
    ensures forall j :: 0 <= j < |rs| ==> rs[j] == (candidates[j], evaluate(candidates[j]))
  {
    seq(|candidates|, j requires 0 <= j < |candidates| => (candidates[j], evaluate(candidates[j])))
  }

  /** Candidate `k` has a finite cost, no candidate is cheaper, and it is cheaper than every
      candidate before it. */
  predicate FirstOfLeastCost(candidates: seq<seq<int>>, k: nat, evaluate: seq<int> -> Cost)
    requires k < |candidates|
  {
    && evaluate(candidates[k]).Some?
    && (forall j :: 0 <= j < |candidates| ==> !Cheaper(evaluate(candidates[j]), evaluate(candidates[k])))
    && (forall j :: 0 <= j < k ==> Cheaper(evaluate(candidates[k]), evaluate(candidates[j])))
  }

  /** The best of the scored candidates is one of them, of finite cost, with no candidate
      cheaper and every candidate before it dearer; none exactly when every candidate's cost
      is infinite (in particular for no candidates). */
  lemma BestOfScored(candidates: seq<seq<int>>, evaluate: seq<int> -> Cost)
    ensures var best := BestOf(Scored(candidates, evaluate));
      && (best.None? <==> forall j :: 0 <= j < |candidates| ==> evaluate(candidates[j]).None?)
      && (best.Some? ==> exists k :: 0 <= k < |candidates| && FirstOfLeastCost(candidates, k, evaluate) && candidates[k] == best.value)
  {
    var rs := Scored(candidates, evaluate);
    var k := FirstMinimum(rs);
    if k.Some? {
      assert candidates[k.value] == BestOf(rs).value;
    }
  }

  /** The candidates `find_best_allocation` submits: those that agree with the constraints. */
  function Accepted(options: seq<seq<int>>, c: Option<seq<int>>): (r: seq<seq<int>>)
    ensures |r| <= |options|
  {
    if |options| == 0 then []
    else
      var last := options[|options| - 1];
      Accepted(options[..|options| - 1], c) + (if AgreesWith(last, c, None) then [last] else [])
  }

  /** The submitted candidates are exactly the options that agree with the constraints. */
  lemma {:induction false} AcceptedMembers(options: seq<seq<int>>, c: Option<seq<int>>)
    ensures forall v :: v in Accepted(options, c) <==> v in options && AgreesWith(v, c, None)
  {
    if |options| > 0 {
      var init := options[..|options| - 1];
      AcceptedMembers(init, c);
      assert options == init + [options[|options| - 1]];
    }
  }

  lemma ScoredAppend(candidates: seq<seq<int>>, v: seq<int>, evaluate: seq<int> -> Cost)
    ensures Scored(candidates + [v], evaluate) == Scored(candidates, evaluate) + [(v, evaluate(v))]
  {
  }

  /** The number of moves a bounded-move policy allows beyond those the constraints force. */
  function Moves(policy: AllocationPolicy): (m: nat)
    requires policy != BruteForce
    ensures 1 <= m <= 3
  {
    match policy
    case Move1 => 1
    case Move2 => 2
    case Move3 => 3
  }

  lemma MovedIdentity(n: nat, k: nat)
    requires k <= n
    ensures Moved(Identity(n), k) == 0
  {
  }

  /** The identity passes every step of the bounded-move search whose constraints pin no
      robot to another. */
  lemma IdentityAllowed(n: nat, k: nat, budget: nat, c: seq<int>)
    requires k < n && |c| == n
    requires forall p :: 0 <= p < n ==> c[p] == -1 || c[p] == p
    ensures Allowed(Identity(n), k, budget, c)
  {
    var m := k + 1;
    forall id | 0 <= id < n ensures Count(Identity(n)[..m], id) <= 1 {
      CountIdentity(n, m, id);
    }
    MovedIdentity(n, n);
  }

  /** The identity is reached by the exhaustive search. */
  lemma IdentityAccepted(n: nat)
    ensures SearchAccepts(Identity(n), n)
  {
    forall k | 1 <= k <= n ensures Consistent(Pad(Identity(n)[..k], n), k, n) {
      IdentityConsistent(n, k);
    }
  }

  /** `out` holds `result` unchanged at its front. */
  predicate Extends<T(==)>(out: seq<T>, result: seq<T>) {
    |result| <= |out| && out[..|result|] == result
  }

  lemma ExtendsTransitive<T>(out: seq<T>, middle: seq<T>, result: seq<T>)
    requires Extends(out, middle) && Extends(middle, result)
    ensures Extends(out, result)
    ensures forall v :: v in middle ==> v in out
  {
    assert out[..|result|] == out[..|middle|][..|result|];
    forall v | v in middle ensures v in out {
      var k :| 0 <= k < |middle| && middle[k] == v;
      assert out[k] == v;
    }
  }

  /** Every entry from position `from` on is a sound result of the exhaustive search. */
  predicate ExhaustiveFrom(out: seq<seq<int>>, from: nat, n: nat) {
    forall j :: from <= j < |out| ==> ExhaustiveSound(out[j], n)
  }

  /** Every entry from position `from` on is a sound result of the bounded-move search. */
  predicate MoveFrom(out: seq<seq<int>>, from: nat, n: nat, budget: nat, c: seq<int>)
    requires |c| == n
  {
    forall j :: from <= j < |out| ==> MoveSound(out[j], n, budget, c)
  }

  lemma ExhaustiveJoin(out: seq<seq<int>>, middle: seq<seq<int>>, from: nat, n: nat)
    requires Extends(out, middle) && from <= |middle|
    requires ExhaustiveFrom(middle, from, n) && ExhaustiveFrom(out, |middle|, n)
    ensures ExhaustiveFrom(out, from, n)
  {
    forall j | from <= j < |middle| ensures out[j] == middle[j] {
      assert out[..|middle|][j] == out[j];
    }
  }

  lemma MoveJoin(out: seq<seq<int>>, middle: seq<seq<int>>, from: nat, n: nat, budget: nat, c: seq<int>)
    requires |c| == n && Extends(out, middle) && from <= |middle|
    requires MoveFrom(middle, from, n, budget, c) && MoveFrom(out, |middle|, n, budget, c)
    ensures MoveFrom(out, from, n, budget, c)
  {
    forall j | from <= j < |middle| ensures out[j] == middle[j] {
      assert out[..|middle|][j] == out[j];
    }
  }

  /** Every entry from `index` on holds the robot's own id. */
  predicate IdentityFrom(v: seq<int>, index: nat) {
    forall k :: index <= k < |v| ==> v[k] == k
  }

  /** `is_allowed` holds for the vector at every position from `index` on. */
  predicate AllowedFrom(v: seq<int>, index: nat, budget: nat, c: seq<int>)
    requires |c| == |v|
  {
    forall k :: index <= k < |v| ==> Allowed(v, k, budget, c)
  }

  /** A complete vector that passed `is_allowed` at its last position is a sound result. */
  lemma LeafSound(v: seq<int>, n: nat, budget: nat, c: seq<int>)
    requires |v| == n && |c| == n && PrefixIds(v, n, n)
    requires n > 0 ==> Allowed(v, n - 1, budget, c)
    ensures MoveSound(v, n, budget, c)
  {
  }

  /** Setting entry `index` of a vector padded after `index` gives one padded after `index + 1`. */
  /** Resetting the entry at `index` after a trial gives back the prefix before it and
      keeps the identity tail. */
  lemma RestoreEntry(pre: seq<int>, post: seq<int>, index: nat, i: nat, n: nat)
    requires |pre| == n && |post| == n && index < n && i < n
    requires post[..index + 1] == pre[index := i][..index + 1]
    requires PrefixIds(post, n, n)
    requires IdentityFrom(pre[index := i], index + 1) ==> IdentityFrom(post, index + 1)
    ensures PrefixIds(post[index := index], n, n)
    ensures post[index := index][..index] == pre[..index]
    ensures IdentityFrom(pre, index + 1) ==> IdentityFrom(post[index := index], index + 1)
  {
    forall k | 0 <= k < index ensures post[k] == pre[k] {
      assert post[..index + 1][k] == pre[index := i][..index + 1][k];
    }
  }

  /** A complete allocation is the only accepted one with its own entries. */
  lemma LeafCovered(c: seq<int>, result: seq<seq<int>>, n: nat)
    requires |c| == n
    ensures forall v :: SearchAccepts(v, n) && v[..n] == c[..n] ==> v in result + [c]
  {
    forall v | SearchAccepts(v, n) && v[..n] == c[..n] ensures v in result + [c] {
      assert v == v[..n] && c == c[..n];
      assert (result + [c])[|result|] == v;
    }
  }

  /** After trying robot `i` at `index`, every accepted allocation that agrees with the
      prefix and has `i` there is found: the recursion found it when the extended prefix
      was consistent, and otherwise there is none. */
  lemma BranchCovered(start: seq<int>, index: nat, i: int, n: nat, out: seq<seq<int>>, ok: bool)
    requires index < n && |start| == n && start == Pad(start[..index], n)
    requires ok == Consistent(start[index := i], index + 1, n)
    requires ok ==> forall v :: SearchAccepts(v, n) && v[..index + 1] == start[index := i][..index + 1] ==> v in out
    ensures forall v :: SearchAccepts(v, n) && v[..index] == start[..index] && v[index] == i ==> v in out
  {
    PadStep(start, index, i, n);
    var probe := start[index := i];
    forall v | SearchAccepts(v, n) && v[..index] == start[..index] && v[index] == i ensures v in out {
      assert v[..index + 1] == probe[..index + 1];
      assert Pad(v[..index + 1], n) == probe;
    }
  }

  lemma PadStep(start: seq<int>, index: nat, i: int, n: nat)
    requires index < n && |start| == n && start == Pad(start[..index], n)
    ensures start[index := i] == Pad(start[index := i][..index + 1], n)
    ensures start[index := i][..index] == start[..index]
    ensures start[index := i][index := -1] == start
  {
    var probe := start[index := i];
    assert forall k :: 0 <= k < n ==> probe[k] == Pad(probe[..index + 1], n)[k];
  }

  /** The allocator: the candidate allocations for its policy and the pool that scores them. */
  class Allocator {
    const nRobots: nat
    const policy: AllocationPolicy
    var allocOptions: Option<seq<seq<int>>>
    const pool: ProcessPool

    /** Exhaustive candidates are computed once and kept; bounded-move candidates are
        recomputed for every request; the pool is empty between requests. */
    ghost predicate Valid()
      reads this, pool
    {
      && pool.Valid() && pool.results == []
      && (policy == BruteForce ==>
            allocOptions.Some? && forall v :: v in allocOptions.value ==> ExhaustiveSound(v, nRobots))
      && (policy != BruteForce ==> allocOptions.None?)
    }

    constructor (nRobots: nat, policy: AllocationPolicy)
      ensures Valid() && this.nRobots == nRobots && this.policy == policy
      ensures policy == BruteForce ==>
        && (forall v :: SearchAccepts(v, nRobots) ==> v in allocOptions.value)
        && Identity(nRobots) in allocOptions.value
    {
      this.nRobots := nRobots;
      this.policy := policy;
      allocOptions := None;
      pool := new ProcessPool();
      new;
      if policy == BruteForce {
        var options := CustomPowerset();
        allocOptions := Some(options);
      }
    }

    /** `custom_powerset`: every allocation the exhaustive search reaches, the identity
        among them. */
    method CustomPowerset() returns (res: seq<seq<int>>)
      ensures forall v :: v in res ==> ExhaustiveSound(v, nRobots)
      ensures forall v :: SearchAccepts(v, nRobots) ==> v in res
      ensures Identity(nRobots) in res
    {
      var current := new int[nRobots](_ => -1);
      assert current[..] == Pad(current[..0], nRobots);
      res := RecCustomPowerset(current, [], 0);
      IdentityAccepted(nRobots);
      assert Identity(nRobots)[..0] == current[..0];
    }

    /** `_rec_custom_powerser`: tries every robot at `index`, descends when the extended
        prefix is consistent, and restores the entry to -1 afterwards. */
    method RecCustomPowerset(current: array<int>, result: seq<seq<int>>, index: nat) returns (out: seq<seq<int>>)
      requires current.Length == nRobots && index <= nRobots
      requires current[..] == Pad(current[..index], nRobots)
      requires PrefixIds(current[..], index, nRobots)
      requires Consistent(current[..], index, nRobots)
      modifies current
      ensures current[..] == old(current[..])
      ensures Extends(out, result)
      ensures ExhaustiveFrom(out, |result|, nRobots)
      ensures forall v :: SearchAccepts(v, nRobots) && v[..index] == old(current[..index]) ==> v in out
      decreases nRobots - index, 1
    {
      var n := nRobots;
      if index == n {
        assert current[..] == current[..index];
        out := result + [current[..]];
        LeafCovered(current[..], result, n);
        return;
      }
      ghost var start := current[..];
      out := result;
      for i := 0 to n
        invariant current[..] == start
        invariant Extends(out, result)
        invariant ExhaustiveFrom(out, |result|, n)
        invariant forall v :: SearchAccepts(v, n) && v[..index] == start[..index] && v[index] < i ==> v in out
      {
        ghost var before := out;
        out := TryRobotAt(current, out, index, i);
        ExtendsTransitive(out, before, result);
        ExhaustiveJoin(out, before, |result|, n);
      }
    }

    /** One iteration of `_rec_custom_powerser`'s loop: robot `i` at `index`, the descent
        when the extended prefix is consistent, and the entry restored to -1. */
    method TryRobotAt(current: array<int>, result: seq<seq<int>>, index: nat, i: nat) returns (out: seq<seq<int>>)
      requires current.Length == nRobots && index < nRobots && i < nRobots
      requires current[..] == Pad(current[..index], nRobots)
      requires PrefixIds(current[..], index, nRobots)
      requires Consistent(current[..], index, nRobots)
      modifies current
      ensures current[..] == old(current[..])
      ensures Extends(out, result)
      ensures ExhaustiveFrom(out, |result|, nRobots)
      ensures forall v :: SearchAccepts(v, nRobots) && v[..index] == old(current[..index]) && v[index] == i ==> v in out
      decreases nRobots - index, 0
    {
      var n := nRobots;
      ghost var start := current[..];
      PadStep(start, index, i, n);
      current[index] := i;
      assert current[..] == start[index := i];
      var ok := IsConsistent(current[..], index + 1, n);
      out := result;
      if ok {
        out := RecCustomPowerset(current, result, index + 1);
      }
      BranchCovered(start, index, i, n, out, ok);
      current[index] := -1;
      assert current[..] == start;
    }

    /** `move_n_powerset`: starts from the identity overwritten by the constraints and
        allows `moves` moves beyond those the constraints force. */
    method MoveNPowerset(moves: nat, c: seq<int>) returns (res: seq<seq<int>>)
      requires |c| == nRobots && InRange(c, nRobots)
      ensures forall v :: v in res ==> MoveSound(v, nRobots, moves + ConstrainedMoves(c, nRobots), c)
      ensures (forall p :: 0 <= p < nRobots ==> c[p] == -1 || c[p] == p) ==> Identity(nRobots) in res
    {
      var n := nRobots;
      var current := new int[n](i => i);
      var count := 0;
      for id := 0 to n
        invariant count == ConstrainedMoves(c, id)
        invariant forall k :: 0 <= k < id ==> current[k] == if c[k] == -1 then k else c[k]
        invariant forall k :: id <= k < n ==> current[k] == k
      {
        if c[id] != -1 {
          current[id] := c[id];
        }
        if c[id] != -1 && c[id] != id {
          count := count + 1;
        }
      }
      ghost var unpinned := forall p :: 0 <= p < n ==> c[p] == -1 || c[p] == p;
      if unpinned {
        assert current[..] == Identity(n);
        var budget := moves + count;
        forall k | 0 <= k < n ensures Allowed(Identity(n), k, budget, c) {
          IdentityAllowed(n, k, budget, c);
        }
        assert AllowedFrom(current[..], 0, budget, c);
      }
      res := RecMoveNPowerset(current, [], 0, moves + count, c);
    }

    /** `_rec_move_n_powerset`: tries every robot at `index`, descends when `is_allowed`
        holds, and resets the entry to the robot's own id afterwards. */
    method RecMoveNPowerset(current: array<int>, result: seq<seq<int>>, index: nat, budget: nat, c: seq<int>)
      returns (out: seq<seq<int>>)
      requires current.Length == nRobots && index <= nRobots && |c| == nRobots
      requires PrefixIds(current[..], nRobots, nRobots)
      requires index > 0 ==> Allowed(current[..], index - 1, budget, c)
      modifies current
      ensures PrefixIds(current[..], nRobots, nRobots)
      ensures current[..index] == old(current[..index])
      ensures Extends(out, result)
      ensures MoveFrom(out, |result|, nRobots, budget, c)
      ensures IdentityFrom(old(current[..]), index) ==> IdentityFrom(current[..], index)
      ensures IdentityFrom(old(current[..]), index) && AllowedFrom(old(current[..]), index, budget, c) ==>
        old(current[..]) in out
      decreases nRobots - index, 1
    {
      var n := nRobots;
      if index == n {
        LeafSound(current[..], n, budget, c);
        out := result + [current[..]];
        assert out[|result|] == current[..];
        return;
      }
      ghost var start := current[..];
      out := result;
      for i := 0 to n
        invariant PrefixIds(current[..], n, n)
        invariant current[..index] == start[..index]
        invariant IdentityFrom(start, index) ==> IdentityFrom(current[..], index)
        invariant Extends(out, result)
        invariant MoveFrom(out, |result|, n, budget, c)
        invariant IdentityFrom(start, index) && AllowedFrom(start, index, budget, c) && i > index ==> start in out
      {
        ghost var before := out;
        ghost var cur := current[..];
        if IdentityFrom(start, index) {
          assert forall k :: 0 <= k < index ==> cur[k] == cur[..index][k] == start[..index][k];
          assert cur == start;
        }
        out := TryMove(current, out, index, i, budget, c);
        ExtendsTransitive(out, before, result);
        MoveJoin(out, before, |result|, n, budget, c);
      }
    }

    /** One trial of `_rec_move_n_powerset`: robot `i` at `index`, the descent if it is
        allowed, and the reset of the entry to `index`. */
    method TryMove(current: array<int>, result: seq<seq<int>>, index: nat, i: nat, budget: nat, c: seq<int>)
      returns (out: seq<seq<int>>)
      requires current.Length == nRobots && index < nRobots && i < nRobots && |c| == nRobots
      requires PrefixIds(current[..], nRobots, nRobots)
      modifies current
      ensures PrefixIds(current[..], nRobots, nRobots)
      ensures current[..index] == old(current[..index]) && current[index] == index
      ensures Extends(out, result)
      ensures MoveFrom(out, |result|, nRobots, budget, c)
      ensures IdentityFrom(old(current[..]), index + 1) ==> IdentityFrom(current[..], index + 1)
      ensures i == index && IdentityFrom(old(current[..]), index) && AllowedFrom(old(current[..]), index, budget, c) ==>
        old(current[..]) in out
      decreases nRobots - index, 0
    {
      ghost var pre := current[..];
      current[index] := i;
      assert current[..] == pre[index := i];
      var ok := IsAllowed(current[..], index, budget, c);
      out := result;
      if ok {
        out := RecMoveNPowerset(current, out, index + 1, budget, c);
      }
      ghost var post := current[..];
      RestoreEntry(pre, post, index, i, nRobots);
      current[index] := index;
      assert current[..] == post[index := index];
      if i == index && IdentityFrom(pre, index) && AllowedFrom(pre, index, budget, c) {
        assert pre[index := i] == pre;
        assert AllowedFrom(pre, index + 1, budget, c);
      }
    }

    /** The submission loop of `find_best_allocation`: every option that agrees with the
        constraints goes to the pool with its cost, in order. */
    method SubmitAccepted(options: seq<seq<int>>, c: Option<seq<int>>, evaluate: seq<int> -> Cost)
      returns (ghost candidates: seq<seq<int>>)
      requires pool.Valid() && pool.results == []
      modifies pool
      ensures pool.Valid() && pool.results == Scored(candidates, evaluate)
      ensures candidates == Accepted(options, c)
    {
      candidates := [];
      for j := 0 to |options|
        invariant pool.Valid() && pool.results == Scored(candidates, evaluate)
        invariant candidates == Accepted(options[..j], c)
      {
        assert options[..j + 1][..j] == options[..j];
        var ok := ValidateWithConstraints(options[j], c, None);
        if ok {
          pool.Submit(options[j], evaluate(options[j]));
          ScoredAppend(candidates, options[j], evaluate);
          candidates := candidates + [options[j]];
        }
      }
      assert options[..|options|] == options;
    }

    /** `find_best_allocation`: computes the bounded-move candidates when none are kept,
        submits each candidate that agrees with the constraints with the cost `evaluate`
        assigns it, and returns the first of least cost.  `candidates` is the sequence of
        submitted candidates. */
    method FindBestAllocation(c: Option<seq<int>>, evaluate: seq<int> -> Cost)
      returns (best: Option<seq<int>>, ghost candidates: seq<seq<int>>)
      requires Valid()
      requires policy != BruteForce ==> c.Some? && |c.value| == nRobots && InRange(c.value, nRobots)
      modifies this, pool
      ensures Valid()
      ensures best == BestOf(Scored(candidates, evaluate))
      ensures forall v :: v in candidates ==> AgreesWith(v, c, None)
      ensures policy == BruteForce ==>
        allocOptions == old(allocOptions) && candidates == Accepted(allocOptions.value, c)
      ensures policy != BruteForce ==>
        forall v :: v in candidates ==> MoveSound(v, nRobots, Moves(policy) + ConstrainedMoves(c.value, nRobots), c.value)
    {
      if allocOptions.None? {
        var generated := MoveNPowerset(Moves(policy), c.value);
        allocOptions := Some(generated);
      }
      var options := allocOptions.value;
      candidates := SubmitAccepted(options, c, evaluate);
      AcceptedMembers(options, c);
      best := pool.GetBestResult();
      if policy != BruteForce {
        allocOptions := None;
      }
    }
  }
}
