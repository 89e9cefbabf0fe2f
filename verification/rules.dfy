/**
 * The prefix predicates that prune the allocation search.  An allocation is a
 * vector whose entry i names the robot that runs robot i's own task; the
 * search fills it left to right and checks each prefix.
 */
module AllocationRules {
  import opened Wrappers

  /** Every entry is a robot id or the "unset" marker -1. */
  predicate InRange(current: seq<int>, n: nat) {
    forall i :: 0 <= i < |current| ==> -1 <= current[i] < n
  }

  /** Every entry of the first `index` is a robot id. */
  predicate PrefixIds(current: seq<int>, index: nat, n: nat)
    requires index <= |current|
  {
    forall i :: 0 <= i < index ==> 0 <= current[i] < n
  }

  /** How often `x` occurs in `s`. */
  function Count(s: seq<int>, x: int): nat {
    if |s| == 0 then 0
    else Count(s[..|s| - 1], x) + (if s[|s| - 1] == x then 1 else 0)
  }

  /** `_validate_count`: in the first `index` entries no robot id is used more than
      twice, and an id used exactly twice must be used once by itself (position id
      lies in the prefix and maps to id). */
  predicate ValidCount(current: seq<int>, index: nat, n: nat)
    requires index <= |current|
  {
    forall id :: 0 <= id < n ==>
      Count(current[..index], id) <= 2 &&
      (Count(current[..index], id) == 2 ==> id < index && current[id] == id)
  }

  lemma {:induction false} CountAtLeast(s: seq<int>, x: int, positions: set<nat>)
    requires forall p :: p in positions ==> p < |s| && s[p] == x
    ensures Count(s, x) >= |positions|
    decreases |s|
  {
    if |s| > 0 {
      var last := |s| - 1;
      var rest := positions - {last};
      forall p | p in rest ensures p < |s[..last]| && s[..last][p] == x { }
      CountAtLeast(s[..last], x, rest);
    } else {
      assert positions == {};
    }
  }

  /** A host carries at most one foreign task: whenever two robots' tasks run on the same
      robot, one of the two is that robot itself. */
  lemma OneForeignTaskPerHost(v: seq<int>, n: nat)
    requires |v| == n && PrefixIds(v, n, n) && ValidCount(v, n, n)
    ensures forall i, j :: 0 <= i < j < n && v[i] == v[j] ==> v[i] == i || v[j] == j
  {
    forall i, j | 0 <= i < j < n && v[i] == v[j] ensures v[i] == i || v[j] == j {
      var h := v[i];
      assert v[..n] == v;
      if h != i && h != j {
        CountAtLeast(v, h, {i, j});
        if Count(v, h) == 2 {
          CountAtLeast(v, h, {i, j, h});
        }
      }
    }
  }

  method ValidateCount(current: seq<int>, index: nat, n: nat) returns (ok: bool)
    requires index <= |current| && PrefixIds(current, index, n)
    ensures ok == ValidCount(current, index, n)
  {
    var occurrences := new int[n](_ => 0);
    for i := 0 to index
      invariant forall id :: 0 <= id < n ==> occurrences[id] == Count(current[..i], id)
    {
      assert current[..i + 1][..i] == current[..i];
      occurrences[current[i]] := occurrences[current[i]] + 1;
    }
    for id1 := 0 to n
      invariant forall id :: 0 <= id < id1 ==>
        Count(current[..index], id) <= 2 &&
        (Count(current[..index], id) == 2 ==> id < index && current[id] == id)
    {
      var o := occurrences[id1];
      if o > 2 {
        return false;
      }
      if o == 2 {
        var found := false;
        for j := 0 to index
          invariant found <==> id1 < j && current[id1] == id1
        {
          if current[j] == id1 && j == id1 {
            found := true;
          }
        }
        if !found {
          return false;
        }
      }
    }
    return true;
  }

  /** The walk of `__check_for_loop` from `start`, now at `id`, with `fuel` steps left:
      true when it comes back to `start`.  It stops at a robot that runs its own task
      or at an unset entry. */
  predicate Returns(current: seq<int>, start: int, id: int, fuel: nat)
    decreases fuel
  {
    if fuel == 0 || !(0 <= id < |current|) || id == current[id] then false
    else
      var next := current[id];
      if next == -1 then false
      else if next == start then true
      else Returns(current, start, next, fuel - 1)
  }

  /** `__check_for_loop`: from no position i of the prefix with current[i] != i does
      the walk come back to i (self-mappings are accepted). */
  predicate NoLoop(current: seq<int>, index: nat)
    requires index <= |current|
  {
    forall i :: 0 <= i < index ==> current[i] == i || !Returns(current, i, current[i], |current|)
  }

  method CheckForLoop(current: seq<int>, index: nat) returns (ok: bool)
    requires index <= |current| && InRange(current, |current|)
    ensures ok == NoLoop(current, index)
  {
    for i := 0 to index
      invariant forall k :: 0 <= k < i ==> current[k] == k || !Returns(current, k, current[k], |current|)
    {
      var startingPoint := i;
      var id := current[i];
      if startingPoint == id {
        continue;
      }
      var fuel: nat := |current|;
      while fuel > 0
        invariant -1 <= id < |current|
        invariant Returns(current, i, current[i], |current|) == Returns(current, i, id, fuel)
      {
        if id == -1 || id == current[id] {
          assert !Returns(current, i, id, fuel);
          break;
        }
        ghost var previous := id;
        id := current[id];
        if id == -1 {
          assert !Returns(current, i, previous, fuel);
          break;
        }
        if id == startingPoint {
          return false;
        }
        fuel := fuel - 1;
      }
    }
    return true;
  }

  /** `_is_consistent`: the two checks the exhaustive search applies to each prefix. */
  predicate Consistent(current: seq<int>, index: nat, n: nat)
    requires index <= |current|
  {
    ValidCount(current, index, n) && NoLoop(current, index)
  }

  /** Following the allocation `k` times from robot `s`. */
  function Iterate(v: seq<int>, s: nat, k: nat): (r: nat)
    requires |v| > s && PrefixIds(v, |v|, |v|)
    ensures r < |v|
    decreases k
  {
    if k == 0 then s else Iterate(v, v[s] as nat, k - 1)
  }

  lemma {:induction false} IterateStep(v: seq<int>, s: nat, j: nat)
    requires |v| > s && PrefixIds(v, |v|, |v|)
    ensures Iterate(v, s, j + 1) == v[Iterate(v, s, j)]
    decreases j
  {
    if j > 0 {
      IterateStep(v, v[s] as nat, j - 1);
    }
  }

  lemma {:induction false} FixedPointStays(v: seq<int>, s: nat, j: nat, m: nat)
    requires |v| > s && PrefixIds(v, |v|, |v|)
    requires j <= m && v[Iterate(v, s, j)] == Iterate(v, s, j)
    ensures Iterate(v, s, m) == Iterate(v, s, j)
    decreases m - j
  {
    if j < m {
      IterateStep(v, s, j);
      FixedPointStays(v, s, j + 1, m);
    }
  }

  /** On a cycle through `s` of least length `k`, the walk from the j-th robot of the
      cycle comes back to `s`. */
  lemma {:induction false} WalkFindsCycle(v: seq<int>, s: nat, j: nat, k: nat, fuel: nat)
    requires |v| > s && PrefixIds(v, |v|, |v|)
    requires 1 <= j < k && Iterate(v, s, k) == s
    requires forall m :: 1 <= m < k ==> Iterate(v, s, m) != s
    requires fuel >= k - j
    ensures Returns(v, s, Iterate(v, s, j), fuel)
    decreases k - j
  {
    var id := Iterate(v, s, j);
    IterateStep(v, s, j);
    if v[id] == id {
      FixedPointStays(v, s, j, k);
      assert false;
    }
    if j + 1 < k {
      WalkFindsCycle(v, s, j + 1, k, fuel - 1);
    }
  }

  lemma {:induction false} NoShortCycle(v: seq<int>, s: nat, k: nat)
    requires |v| > s && PrefixIds(v, |v|, |v|) && NoLoop(v, |v|)
    requires 1 <= k <= |v| && Iterate(v, s, k) == s
    ensures v[s] == s
    decreases k
  {
    if v[s] != s {
      if m :| 1 <= m < k && Iterate(v, s, m) == s {
        NoShortCycle(v, s, m);
      } else {
        assert Iterate(v, s, 1) == v[s];
        WalkFindsCycle(v, s, 1, k, |v|);
      }
    }
  }

  /** A complete allocation that passes `__check_for_loop` has no cycle other than a
      robot running its own task. */
  lemma NoCycleButSelf(v: seq<int>)
    requires PrefixIds(v, |v|, |v|) && NoLoop(v, |v|)
    ensures forall s, k :: 0 <= s < |v| && 1 <= k <= |v| && Iterate(v, s, k) == s ==> v[s] == s
  {
    forall s, k | 0 <= s < |v| && 1 <= k <= |v| && Iterate(v, s, k) == s ensures v[s] == s {
      NoShortCycle(v, s, k);
    }
  }

  /** The checks do not forbid chains: with 0 -> 1 -> 2 and 2 running its own task,
      [1, 2, 2] passes both, although robot 1 both hosts and offloads. */
  lemma ChainsAreAccepted()
    ensures Consistent([1, 2, 2], 3, 3)
  {
    var v := [1, 2, 2];
    assert v[..3] == v;
    assert v[..|v| - 1] == [1, 2];
    assert [1, 2][..1] == [1];
    assert [1][..0] == [];
  }

  /** The -1 padded vector the exhaustive search holds while filling position `k - 1`. */
  function Pad(prefix: seq<int>, n: nat): (r: seq<int>)
    requires |prefix| <= n
    ensures |r| == n && r[..|prefix|] == prefix
    ensures forall i :: |prefix| <= i < n ==> r[i] == -1
  {
    prefix + seq(n - |prefix|, _ => -1)
  }

  /** The identity allocation: every robot runs its own task. */
  function Identity(n: nat): (r: seq<int>)
    ensures |r| == n && forall i :: 0 <= i < n ==> r[i] == i
  {
    seq(n, i => i)
  }

  lemma {:induction false} CountIdentity(n: nat, k: nat, id: int)
    requires k <= n
    ensures Count(Identity(n)[..k], id) == if 0 <= id < k then 1 else 0
    decreases k
  {
    if k > 0 {
      assert Identity(n)[..k][..k - 1] == Identity(n)[..k - 1];
      CountIdentity(n, k - 1, id);
    }
  }

  /** Every prefix of the identity passes the exhaustive search's checks. */
  lemma IdentityConsistent(n: nat, k: nat)
    requires k <= n
    ensures Consistent(Pad(Identity(n)[..k], n), k, n)
  {
    var p := Pad(Identity(n)[..k], n);
    assert p[..k] == Identity(n)[..k];
    forall id | 0 <= id < n ensures Count(p[..k], id) <= 1 {
      CountIdentity(n, k, id);
    }
  }

  /** `_validate_with_constraints`: how many leading entries are compared.  An `index`
      of 0 never stops the comparison early, because the counter is tested after it is
      incremented. */
  function CheckedLength(allocation: seq<int>, constraints: seq<int>, index: Option<nat>): (m: nat)
    ensures m <= |allocation| && m <= |constraints|
    ensures index.Some? && index.value > 0 ==> m <= index.value
  {
    var both := if |allocation| <= |constraints| then |allocation| else |constraints|;
    if index.Some? && 0 < index.value < both then index.value else both
  }

  /** An allocation agrees with a constraint vector when every compared entry that is
      not -1 ("don't care") equals the allocation's entry; no constraint accepts all. */
  predicate AgreesWith(allocation: seq<int>, constraints: Option<seq<int>>, index: Option<nat>) {
    constraints.None? ||
    forall p :: 0 <= p < CheckedLength(allocation, constraints.value, index) ==>
      constraints.value[p] == -1 || allocation[p] == constraints.value[p]
  }

  method ValidateWithConstraints(allocation: seq<int>, constraints: Option<seq<int>>, index: Option<nat>)
    returns (ok: bool)
    ensures ok == AgreesWith(allocation, constraints, index)
  {
    if constraints.None? {
      return true;
    }
    var c := constraints.value;
    var m := CheckedLength(allocation, c, index);
    var count := 0;
    while count < |allocation| && count < |c|
      invariant 0 <= count <= |allocation| && count <= |c|
      invariant index.Some? && index.value > 0 ==> count < index.value
      invariant forall p :: 0 <= p < count ==> c[p] == -1 || allocation[p] == c[p]
      decreases |allocation| - count
    {
      if c[count] != -1 && allocation[count] != c[count] {
        return false;
      }
      count := count + 1;
      if index.Some? && count == index.value {
        break;
      }
    }
    return true;
  }
}
