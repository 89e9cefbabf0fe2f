/**
 * Proximity queries over the robots' adjacency graph: Dijkstra's algorithm
 * with unit edge weights (a 0/1 matrix), followed by grouping the reached
 * robots by their hop distance from the source.
 */
module Topology {
  import opened Wrappers

  /** An n-by-n matrix; entry 1 means an edge. */
  predicate Square(adj: seq<seq<int>>) {
    forall i | 0 <= i < |adj| :: |adj[i]| == |adj|
  }

  /** `v` can be reached from `src` over at most `k` edges. */
  predicate WithinHops(adj: seq<seq<int>>, src: nat, v: nat, k: nat)
    requires Square(adj) && src < |adj| && v < |adj|
    decreases k
  {
    if k == 0 then v == src
    else (WithinHops(adj, src, v, k - 1) ||
          exists u :: 0 <= u < |adj| && WithinHops(adj, src, u, k - 1) && adj[u][v] == 1)
  }

  datatype Distance = Infinite | Finite(hops: nat)

  /** Whether a tentative distance `d` improves on the recorded `old_`. */
  predicate Improves(d: nat, old_: Distance) {
    old_.Infinite? || d < old_.hops
  }

  /** `k` is the least number of hops that reaches `v`. */
  ghost predicate IsLeastHops(adj: seq<seq<int>>, src: nat, v: nat, k: nat)
    requires Square(adj) && src < |adj| && v < |adj|
  {
    WithinHops(adj, src, v, k) && forall j :: 0 <= j < k ==> !WithinHops(adj, src, v, j)
  }

  lemma {:induction false} LeastHopsExists(adj: seq<seq<int>>, src: nat, v: nat, k: nat)
    requires Square(adj) && src < |adj| && v < |adj|
    requires WithinHops(adj, src, v, k)
    ensures exists m :: IsLeastHops(adj, src, v, m)
    decreases k
  {
    if exists j :: 0 <= j < k && WithinHops(adj, src, v, j) {
      var j :| 0 <= j < k && WithinHops(adj, src, v, j);
      LeastHopsExists(adj, src, v, j);
    } else {
      assert IsLeastHops(adj, src, v, k);
    }
  }

  /** The hop distance from `src` to `v`: the least number of edges of a path, or
      infinite when no path exists. */
  ghost function HopDistance(adj: seq<seq<int>>, src: nat, v: nat): (d: Distance)
    requires Square(adj) && src < |adj| && v < |adj|
    ensures d.Finite? ==> IsLeastHops(adj, src, v, d.hops)
    ensures d.Infinite? ==> forall k :: !WithinHops(adj, src, v, k)
  {
    if exists k :: WithinHops(adj, src, v, k) then
      var k :| WithinHops(adj, src, v, k);
      LeastHopsExists(adj, src, v, k);
      var m :| IsLeastHops(adj, src, v, m);
      Finite(m)
    else Infinite
  }

  /** Soundness and optimality of a recorded distance pin it down. */
  lemma HopDistanceUnique(adj: seq<seq<int>>, src: nat, v: nat, d: nat)
    requires Square(adj) && src < |adj| && v < |adj|
    requires WithinHops(adj, src, v, d)
    requires forall k :: WithinHops(adj, src, v, k) ==> d <= k
    ensures HopDistance(adj, src, v) == Finite(d)
  {
  }

  /** Every node other than the source is at least one hop away. */
  lemma {:induction false} AwayFromSource(adj: seq<seq<int>>, src: nat, v: nat)
    requires Square(adj) && src < |adj| && v < |adj| && v != src
    ensures HopDistance(adj, src, v) != Finite(0)
  {
  }

  lemma SubsetOfRangeCard(s: set<nat>, n: nat)
    requires forall x :: x in s ==> x < n
    ensures |s| <= n
    decreases n
  {
    if n > 0 {
      SubsetOfRangeCard(s - {n - 1}, n - 1);
    }
  }

  /** Lexicographic order on (distance, node) heap entries, as Python compares tuples. */
  predicate EntryLeq(a: (nat, nat), b: (nat, nat)) {
    a.0 < b.0 || (a.0 == b.0 && a.1 <= b.1)
  }

  /** The position of the least entry of the heap: what `heappop` removes. */
  method PopIndex(queue: seq<(nat, nat)>) returns (k: nat)
    requires |queue| > 0
    ensures k < |queue|
    ensures forall j :: 0 <= j < |queue| ==> EntryLeq(queue[k], queue[j])
  {
    k := 0;
    var j := 1;
    while j < |queue|
      invariant 1 <= j <= |queue| && k < j
      invariant forall i :: 0 <= i < j ==> EntryLeq(queue[k], queue[i])
    {
      if !EntryLeq(queue[k], queue[j]) {
        k := j;
      }
      j := j + 1;
    }
  }

  /** No unvisited node is closer than `k` hops unless some unvisited node with a
      recorded distance of at most `k` is waiting: the frontier argument of Dijkstra. */
  lemma {:induction false} FrontierBelow(adj: seq<seq<int>>, src: nat, dist: seq<Distance>,
                                         visited: set<nat>, u: nat, k: nat)
    requires Square(adj) && src < |adj| && u < |adj| && |dist| == |adj|
    requires dist[src] == Finite(0)
    requires WithinHops(adj, src, u, k) && u !in visited
    requires forall v :: v in visited && v < |adj| ==>
      dist[v].Finite? && forall j :: WithinHops(adj, src, v, j) ==> dist[v].hops <= j
    requires forall w, v :: w in visited && w < |adj| && 0 <= v < |adj| && adj[w][v] == 1 ==>
      dist[w].Finite? && dist[v].Finite? && dist[v].hops <= dist[w].hops + 1
    ensures exists w :: 0 <= w < |adj| && w !in visited && dist[w].Finite? && dist[w].hops <= k
    decreases k
  {
    if k == 0 {
      assert u == src;
    } else if WithinHops(adj, src, u, k - 1) {
      FrontierBelow(adj, src, dist, visited, u, k - 1);
    } else {
      var p :| 0 <= p < |adj| && WithinHops(adj, src, p, k - 1) && adj[p][u] == 1;
      if p !in visited {
        FrontierBelow(adj, src, dist, visited, p, k - 1);
      } else {
        assert dist[u].hops <= k;
      }
    }
  }

  /** One hop further along an edge. */
  lemma StepHop(adj: seq<seq<int>>, src: nat, u: nat, v: nat, d: nat)
    requires Square(adj) && src < |adj| && u < |adj| && v < |adj|
    requires WithinHops(adj, src, u, d) && adj[u][v] == 1
    ensures WithinHops(adj, src, v, d + 1)
  {
  }

  // The invariants of the first phase, named so that each proof step sees only what it needs.

  ghost predicate Sound(adj: seq<seq<int>>, src: nat, dist: seq<Distance>)
    requires Square(adj) && src < |adj| && |dist| == |adj|
  {
    forall v :: 0 <= v < |adj| && dist[v].Finite? ==> WithinHops(adj, src, v, dist[v].hops)
  }

  ghost predicate QueueBounds(n: nat, dist: seq<Distance>, queue: seq<(nat, nat)>)
    requires |dist| == n
  {
    forall e :: e in queue ==> e.1 < n && dist[e.1].Finite? && dist[e.1].hops <= e.0
  }

  ghost predicate Waiting(n: nat, dist: seq<Distance>, queue: seq<(nat, nat)>, visited: set<nat>)
    requires |dist| == n
  {
    forall v :: 0 <= v < n && v !in visited && dist[v].Finite? ==> (dist[v].hops, v) in queue
  }

  ghost predicate Settled(adj: seq<seq<int>>, src: nat, dist: seq<Distance>, visited: set<nat>)
    requires Square(adj) && src < |adj| && |dist| == |adj|
  {
    forall v :: v in visited && v < |adj| ==>
      dist[v].Finite? && forall j :: WithinHops(adj, src, v, j) ==> dist[v].hops <= j
  }

  ghost predicate Relaxed(adj: seq<seq<int>>, dist: seq<Distance>, visited: set<nat>)
    requires Square(adj) && |dist| == |adj|
  {
    forall w, v :: w in visited && w < |adj| && 0 <= v < |adj| && adj[w][v] == 1 ==>
      dist[w].Finite? && dist[v].Finite? && dist[v].hops <= dist[w].hops + 1
  }

  /** The heap entry popped for an unvisited node carries its hop distance. */
  lemma PoppedIsShortest(adj: seq<seq<int>>, src: nat, dist: seq<Distance>, queue: seq<(nat, nat)>,
                         visited: set<nat>, k: nat)
    requires Square(adj) && src < |adj| && |dist| == |adj| && dist[src] == Finite(0)
    requires k < |queue| && forall j :: 0 <= j < |queue| ==> EntryLeq(queue[k], queue[j])
    requires QueueBounds(|adj|, dist, queue) && Waiting(|adj|, dist, queue, visited)
    requires Settled(adj, src, dist, visited) && Relaxed(adj, dist, visited)
    requires queue[k].1 !in visited
    ensures dist[queue[k].1] == Finite(queue[k].0)
    ensures forall j :: WithinHops(adj, src, queue[k].1, j) ==> queue[k].0 <= j
  {
    var (d, u) := queue[k];
    assert queue[k] in queue;
    forall j | WithinHops(adj, src, u, j) ensures d <= j {
      FrontierBelow(adj, src, dist, visited, u, j);
      var w :| 0 <= w < |adj| && w !in visited && dist[w].Finite? && dist[w].hops <= j;
      assert (dist[w].hops, w) in queue;
      var i :| 0 <= i < |queue| && queue[i] == (dist[w].hops, w);
      assert EntryLeq(queue[k], queue[i]);
    }
    var i :| 0 <= i < |queue| && queue[i] == (dist[u].hops, u);
    assert EntryLeq(queue[k], queue[i]);
  }

  /** Relaxes every edge out of the newly visited node `u`, whose distance `d` is final. */
  method RelaxFrom(adj: seq<seq<int>>, src: nat, u: nat, d: nat, dist0: seq<Distance>,
                   queue0: seq<(nat, nat)>, visited: set<nat>)
    returns (dist: seq<Distance>, queue: seq<(nat, nat)>)
    requires Square(adj) && src < |adj| && u < |adj| && |dist0| == |adj| && dist0[src] == Finite(0)
    requires u in visited && dist0[u] == Finite(d)
    requires Sound(adj, src, dist0) && QueueBounds(|adj|, dist0, queue0)
    requires Waiting(|adj|, dist0, queue0, visited)
    requires Settled(adj, src, dist0, visited) && Relaxed(adj, dist0, visited - {u})
    ensures |dist| == |adj| && dist[src] == Finite(0)
    ensures Sound(adj, src, dist) && QueueBounds(|adj|, dist, queue)
    ensures Waiting(|adj|, dist, queue, visited)
    ensures Settled(adj, src, dist, visited) && Relaxed(adj, dist, visited)
  {
    var n := |adj|;
    dist, queue := dist0, queue0;
    var nb := 0;
    while nb < n
      invariant 0 <= nb <= n && RelaxedUpTo(adj, src, u, d, dist0, visited, dist, queue, nb)
    {
      RelaxEdgeKeeps(adj, src, u, d, dist0, visited, dist, queue, nb);
      if adj[u][nb] == 1 {
        if Improves(d + 1, dist[nb]) {
          dist := dist[nb := Finite(d + 1)];
          queue := queue + [(d + 1, nb)];
        }
      }
      nb := nb + 1;
    }
    RelaxDone(adj, src, u, d, dist0, visited, dist, queue);
  }

  /** The invariant of the relaxation loop once the edges to nodes below `nb` are done:
      only unvisited nodes improved, and every neighbour below `nb` is within `d + 1`. */
  ghost predicate RelaxedUpTo(adj: seq<seq<int>>, src: nat, u: nat, d: nat, dist0: seq<Distance>, visited: set<nat>,
                              dist: seq<Distance>, queue: seq<(nat, nat)>, nb: nat)
    requires Square(adj) && src < |adj| && u < |adj| && |dist0| == |adj|
  {
    && |dist| == |adj| && dist[src] == Finite(0)
    && (forall v :: 0 <= v < |adj| && dist[v] != dist0[v] ==>
          v !in visited && dist[v].Finite? && Improves(dist[v].hops, dist0[v]))
    && Sound(adj, src, dist) && QueueBounds(|adj|, dist, queue)
    && Waiting(|adj|, dist, queue, visited)
    && (forall v :: 0 <= v < nb && v < |adj| && adj[u][v] == 1 ==> dist[v].Finite? && dist[v].hops <= d + 1)
  }

  /** One edge relaxation keeps the invariant. */
  lemma RelaxEdgeKeeps(adj: seq<seq<int>>, src: nat, u: nat, d: nat, dist0: seq<Distance>, visited: set<nat>,
                       dist: seq<Distance>, queue: seq<(nat, nat)>, nb: nat)
    requires Square(adj) && src < |adj| && u < |adj| && |dist0| == |adj| && dist0[src] == Finite(0)
    requires u in visited && dist0[u] == Finite(d)
    requires Sound(adj, src, dist0) && Settled(adj, src, dist0, visited)
    requires nb < |adj| && RelaxedUpTo(adj, src, u, d, dist0, visited, dist, queue, nb)
    ensures var upd := adj[u][nb] == 1 && Improves(d + 1, dist[nb]);
      RelaxedUpTo(adj, src, u, d, dist0, visited,
                  if upd then dist[nb := Finite(d + 1)] else dist,
                  if upd then queue + [(d + 1, nb)] else queue, nb + 1)
  {
    if adj[u][nb] == 1 {
      assert dist[u] == dist0[u];
      StepHop(adj, src, u, nb, d);
      if Improves(d + 1, dist[nb]) {
        assert nb !in visited;
      }
    }
  }

  /** After the last edge the invariants of the first phase hold again, with `u` visited. */
  lemma RelaxDone(adj: seq<seq<int>>, src: nat, u: nat, d: nat, dist0: seq<Distance>, visited: set<nat>,
                  dist: seq<Distance>, queue: seq<(nat, nat)>)
    requires Square(adj) && src < |adj| && u < |adj| && |dist0| == |adj|
    requires u in visited && dist0[u] == Finite(d)
    requires Settled(adj, src, dist0, visited) && Relaxed(adj, dist0, visited - {u})
    requires RelaxedUpTo(adj, src, u, d, dist0, visited, dist, queue, |adj|)
    ensures |dist| == |adj| && dist[src] == Finite(0)
    ensures Sound(adj, src, dist) && QueueBounds(|adj|, dist, queue)
    ensures Waiting(|adj|, dist, queue, visited)
    ensures Settled(adj, src, dist, visited) && Relaxed(adj, dist, visited)
  {
    var n := |adj|;
    assert Settled(adj, src, dist, visited);
    forall w, v | w in visited && w < n && 0 <= v < n && adj[w][v] == 1
      ensures dist[w].Finite? && dist[v].Finite? && dist[v].hops <= dist[w].hops + 1
    {
      assert dist[w] == dist0[w];
    }
  }

  /** The first phase of `dijkstra`: hop distances from `src` to every node. */
  method ShortestHops(adj: seq<seq<int>>, src: nat) returns (dist: seq<Distance>)
    requires Square(adj) && src < |adj|
    ensures |dist| == |adj|
    ensures forall v :: 0 <= v < |adj| ==> dist[v] == HopDistance(adj, src, v)
  {
    var n := |adj|;
    dist := seq(n, v => if v == src then Finite(0) else Infinite);
    var queue: seq<(nat, nat)> := [(0, src)];
    var visited: set<nat> := {};
    while |queue| > 0
      invariant PhaseOne(adj, src, dist, queue, visited)
      decreases n - |visited|, |queue|
    {
      SubsetOfRangeCard(visited, n);
      var k := PopIndex(queue);
      var (d, u) := queue[k];
      if u in visited {
        DropVisited(adj, src, dist, queue, visited, k);
        queue := queue[..k] + queue[k + 1..];
        continue;
      }
      VisitPopped(adj, src, dist, queue, visited, k);
      queue := queue[..k] + queue[k + 1..];
      visited := visited + {u};
      SubsetOfRangeCard(visited, n);
      dist, queue := RelaxFrom(adj, src, u, d, dist, queue, visited);
    }
    QueueEmptied(adj, src, dist, visited);
  }

  /** The invariants of the first phase's loop. */
  ghost predicate PhaseOne(adj: seq<seq<int>>, src: nat, dist: seq<Distance>, queue: seq<(nat, nat)>, visited: set<nat>)
    requires Square(adj) && src < |adj|
  {
    && |dist| == |adj| && dist[src] == Finite(0)
    && (forall v :: v in visited ==> v < |adj|)
    && Sound(adj, src, dist) && QueueBounds(|adj|, dist, queue)
    && Waiting(|adj|, dist, queue, visited)
    && Settled(adj, src, dist, visited) && Relaxed(adj, dist, visited)
  }

  /** Dropping a heap entry of a node already visited keeps the invariants. */
  lemma DropVisited(adj: seq<seq<int>>, src: nat, dist: seq<Distance>, queue: seq<(nat, nat)>, visited: set<nat>, k: nat)
    requires Square(adj) && src < |adj| && PhaseOne(adj, src, dist, queue, visited)
    requires k < |queue| && queue[k].1 in visited
    ensures PhaseOne(adj, src, dist, queue[..k] + queue[k + 1..], visited)
  {
    var q := queue[..k] + queue[k + 1..];
    forall e | e in q ensures e in queue {
      var j :| 0 <= j < |q| && q[j] == e;
      if j < k { assert queue[j] == e; } else { assert queue[j + 1] == e; }
    }
    forall v | 0 <= v < |adj| && v !in visited && dist[v].Finite? ensures (dist[v].hops, v) in q {
      var e := (dist[v].hops, v);
      var j :| 0 <= j < |queue| && queue[j] == e;
      if j < k { assert q[j] == e; } else { assert j != k && q[j - 1] == e; }
    }
  }

  /** Visiting the node of the least heap entry, its distance is final; the invariants
      hold for the rest of the heap with the node visited, its edges not yet relaxed. */
  lemma VisitPopped(adj: seq<seq<int>>, src: nat, dist: seq<Distance>, queue: seq<(nat, nat)>, visited: set<nat>, k: nat)
    requires Square(adj) && src < |adj| && PhaseOne(adj, src, dist, queue, visited)
    requires k < |queue| && queue[k].1 !in visited
    requires forall j :: 0 <= j < |queue| ==> EntryLeq(queue[k], queue[j])
    ensures var (d, u) := queue[k];
      var q := queue[..k] + queue[k + 1..];
      var vis := visited + {u};
      && u < |adj| && dist[u] == Finite(d)
      && Sound(adj, src, dist) && QueueBounds(|adj|, dist, q)
      && Waiting(|adj|, dist, q, vis)
      && Settled(adj, src, dist, vis) && Relaxed(adj, dist, vis - {u})
  {
    var (d, u) := queue[k];
    assert queue[k] in queue;
    PoppedIsShortest(adj, src, dist, queue, visited, k);
    var q := queue[..k] + queue[k + 1..];
    var vis := visited + {u};
    assert vis - {u} == visited;
    forall e | e in q ensures e in queue {
      var j :| 0 <= j < |q| && q[j] == e;
      if j < k { assert queue[j] == e; } else { assert queue[j + 1] == e; }
    }
    forall v | 0 <= v < |adj| && v !in vis && dist[v].Finite? ensures (dist[v].hops, v) in q {
      var e := (dist[v].hops, v);
      var j :| 0 <= j < |queue| && queue[j] == e;
      if j < k { assert q[j] == e; } else { assert j != k && q[j - 1] == e; }
    }
  }

  /** Once the heap is empty every recorded distance is the hop distance. */
  lemma QueueEmptied(adj: seq<seq<int>>, src: nat, dist: seq<Distance>, visited: set<nat>)
    requires Square(adj) && src < |adj| && |dist| == |adj| && dist[src] == Finite(0)
    requires Sound(adj, src, dist) && Waiting(|adj|, dist, [], visited)
    requires Settled(adj, src, dist, visited) && Relaxed(adj, dist, visited)
    ensures forall v :: 0 <= v < |adj| ==> dist[v] == HopDistance(adj, src, v)
  {
    var n := |adj|;
    forall v | 0 <= v < n ensures dist[v] == HopDistance(adj, src, v) {
      if v in visited {
        HopDistanceUnique(adj, src, v, dist[v].hops);
      } else if dist[v].Infinite? {
        forall j | true ensures !WithinHops(adj, src, v, j) {
          if WithinHops(adj, src, v, j) {
            FrontierBelow(adj, src, dist, visited, v, j);
          }
        }
      }
    }
  }

  /** The dictionary `dijkstra` returns: distances in first-insertion order, each with
      the nodes at that distance in the order they were appended. */
  datatype Groups = Groups(order: seq<nat>, members: map<nat, seq<nat>>)
  {
    /** The groups as `distance_dict.items()` yields them. */
    function Items(): seq<seq<nat>>
      requires forall a :: 0 <= a < |order| ==> order[a] in members
    {
      seq(|order|, a requires 0 <= a < |order| => members[order[a]])
    }
  }

  /** Appends `node` to the group of distance `key`, opening the group if it is new. */
  function AddNode(g: Groups, key: nat, node: nat): Groups {
    if key in g.members then Groups(g.order, g.members[key := g.members[key] + [node]])
    else Groups(g.order + [key], g.members[key := [node]])
  }

  /** The grouping loop of `dijkstra` after the nodes below `i` have been considered:
      every node other than the source with a finite distance joins its group. */
  function Grouping(dist: seq<Distance>, src: nat, i: nat): Groups
    requires i <= |dist|
  {
    if i == 0 then Groups([], map[])
    else
      var g := Grouping(dist, src, i - 1);
      if dist[i - 1].Finite? && i - 1 != src then AddNode(g, dist[i - 1].hops, i - 1) else g
  }

  predicate Increasing(s: seq<nat>) {
    forall x, y :: 0 <= x < y < |s| ==> s[x] < s[y]
  }

  /** Every node of `s` is below `i`, is not the source and lies at distance `key`. */
  ghost predicate AllAt(s: seq<nat>, dist: seq<Distance>, src: nat, i: nat, key: nat)
    requires i <= |dist|
  {
    forall x :: 0 <= x < |s| ==> s[x] < i && s[x] != src && dist[s[x]] == Finite(key)
  }

  /** The keys are exactly the listed distances, each listed once, every group non-empty. */
  ghost predicate KeysListed(g: Groups) {
    && (forall a, b :: 0 <= a < b < |g.order| ==> g.order[a] != g.order[b])
    && (forall k :: k in g.members <==> k in g.order)
    && (forall k :: k in g.members ==> |g.members[k]| > 0)
  }

  /** Groups come in the order of their smallest node. */
  ghost predicate OrderedByFirst(g: Groups)
    requires KeysListed(g)
  {
    forall a, b :: 0 <= a < b < |g.order| ==> g.members[g.order[a]][0] < g.members[g.order[b]][0]
  }

  /** Every reached node below `i` other than the source is in the group of its distance. */
  ghost predicate Covers(g: Groups, dist: seq<Distance>, src: nat, i: nat)
    requires i <= |dist|
  {
    forall v :: 0 <= v < i && v != src && dist[v].Finite? ==>
      dist[v].hops in g.members && v in g.members[dist[v].hops]
  }

  /** The shape `dijkstra`'s result has after the first `i` nodes. */
  ghost predicate GroupsShape(g: Groups, dist: seq<Distance>, src: nat, i: nat)
    requires i <= |dist|
  {
    && KeysListed(g)
    && OrderedByFirst(g)
    && (forall k :: k in g.members ==> AllAt(g.members[k], dist, src, i, k) && Increasing(g.members[k]))
    && Covers(g, dist, src, i)
  }

  /** Appending a node larger than all of a group's nodes keeps it increasing and at its distance. */
  lemma AppendToGroup(s: seq<nat>, dist: seq<Distance>, src: nat, v: nat, key: nat)
    requires v < |dist| && v != src && dist[v] == Finite(key)
    requires AllAt(s, dist, src, v, key) && Increasing(s)
    ensures AllAt(s + [v], dist, src, v + 1, key) && Increasing(s + [v])
  {
  }

  /** Adding a node larger than all grouped ones to a group that already exists keeps the shape. */
  lemma AddToExisting(g: Groups, dist: seq<Distance>, src: nat, v: nat)
    requires v < |dist| && v != src && dist[v].Finite? && dist[v].hops in g.members
    requires GroupsShape(g, dist, src, v)
    ensures GroupsShape(AddNode(g, dist[v].hops, v), dist, src, v + 1)
  {
    var key := dist[v].hops;
    var g' := AddNode(g, key, v);
    assert g' == Groups(g.order, g.members[key := g.members[key] + [v]]);
    assert KeysListed(g');
    assert OrderedByFirst(g') by {
      forall a, b | 0 <= a < b < |g'.order|
        ensures g'.members[g'.order[a]][0] < g'.members[g'.order[b]][0]
      {
        assert g'.members[g'.order[a]][0] == g.members[g.order[a]][0];
        assert g'.members[g'.order[b]][0] == g.members[g.order[b]][0];
      }
    }
    forall k | k in g'.members
      ensures AllAt(g'.members[k], dist, src, v + 1, k) && Increasing(g'.members[k])
    {
      assert AllAt(g.members[k], dist, src, v, k) && Increasing(g.members[k]);
      if k == key {
        AppendToGroup(g.members[k], dist, src, v, k);
      }
    }
    assert Covers(g', dist, src, v + 1) by {
      forall u | 0 <= u < v + 1 && u != src && dist[u].Finite?
        ensures dist[u].hops in g'.members && u in g'.members[dist[u].hops]
      {
        if u < v {
          assert u in g.members[dist[u].hops];
        } else {
          assert g'.members[key][|g'.members[key]| - 1] == u;
        }
      }
    }
  }

  /** Opening a new group for a node larger than all grouped ones keeps the shape. */
  lemma AddAsNew(g: Groups, dist: seq<Distance>, src: nat, v: nat)
    requires v < |dist| && v != src && dist[v].Finite? && dist[v].hops !in g.members
    requires GroupsShape(g, dist, src, v)
    ensures GroupsShape(AddNode(g, dist[v].hops, v), dist, src, v + 1)
  {
    var key := dist[v].hops;
    var g' := AddNode(g, key, v);
    assert KeysListed(g') by {
      forall a, b | 0 <= a < b < |g'.order| ensures g'.order[a] != g'.order[b] {
        if b == |g'.order| - 1 {
          assert g.order[a] in g.members;
        }
      }
    }
    forall a, b | 0 <= a < b < |g'.order|
      ensures g'.members[g'.order[a]][0] < g'.members[g'.order[b]][0]
    {
      assert g.order[a] in g.members;
      assert AllAt(g.members[g.order[a]], dist, src, v, g.order[a]);
      if b < |g'.order| - 1 {
        assert g.order[b] in g.members;
      }
    }
    forall k | k in g'.members
      ensures AllAt(g'.members[k], dist, src, v + 1, k) && Increasing(g'.members[k])
    {
      if k != key {
        assert AllAt(g.members[k], dist, src, v, k) && Increasing(g.members[k]);
      }
    }
    assert Covers(g', dist, src, v + 1) by {
      forall u | 0 <= u < v + 1 && u != src && dist[u].Finite?
        ensures dist[u].hops in g'.members && u in g'.members[dist[u].hops]
      {
        if u < v {
          assert u in g.members[dist[u].hops];
        } else {
          assert g'.members[key][0] == u;
        }
      }
    }
  }

  lemma {:induction false} GroupingShape(dist: seq<Distance>, src: nat, i: nat)
    requires i <= |dist|
    ensures GroupsShape(Grouping(dist, src, i), dist, src, i)
  {
    if i > 0 {
      GroupingShape(dist, src, i - 1);
      var g := Grouping(dist, src, i - 1);
      var v := i - 1;
      if dist[v].Finite? && v != src {
        if dist[v].hops in g.members {
          AddToExisting(g, dist, src, v);
        } else {
          AddAsNew(g, dist, src, v);
        }
      } else {
        SkipNode(g, dist, src, v);
      }
    }
  }

  /** A node that joins no group keeps the shape. */
  lemma SkipNode(g: Groups, dist: seq<Distance>, src: nat, v: nat)
    requires v < |dist| && !(dist[v].Finite? && v != src)
    requires GroupsShape(g, dist, src, v)
    ensures GroupsShape(g, dist, src, v + 1)
  {
    forall k | k in g.members
      ensures AllAt(g.members[k], dist, src, v + 1, k)
    {
      assert AllAt(g.members[k], dist, src, v, k);
    }
  }

  /** The second phase of `dijkstra`: groups the nodes by distance, in node order. */
  method GroupByDistance(dist: seq<Distance>, src: nat) returns (g: Groups)
    ensures g == Grouping(dist, src, |dist|)
  {
    g := Groups([], map[]);
    var node := 0;
    while node < |dist|
      invariant 0 <= node <= |dist|
      invariant g == Grouping(dist, src, node)
    {
      var d := dist[node];
      if d.Finite? && node != src {
        ghost var before := g;
        if d.hops !in g.members {
          g := Groups(g.order + [d.hops], g.members[d.hops := []]);
        }
        g := Groups(g.order, g.members[d.hops := g.members[d.hops] + [node]]);
        assert g == AddNode(before, d.hops, node) by {
          if d.hops !in before.members {
            assert [] + [node] == [node];
          }
        }
      }
      node := node + 1;
    }
  }

  /** What `dijkstra(adjacency_matrix, source)` returns. */
  ghost function DistanceGroups(adj: seq<seq<int>>, src: nat): Groups
    requires Square(adj) && src < |adj|
  {
    Grouping(seq(|adj|, v requires 0 <= v < |adj| => HopDistance(adj, src, v)), src, |adj|)
  }

  method Dijkstra(adj: seq<seq<int>>, src: nat) returns (g: Groups)
    requires Square(adj) && src < |adj|
    ensures g == DistanceGroups(adj, src)
  {
    var dist := ShortestHops(adj, src);
    assert dist == seq(|adj|, v requires 0 <= v < |adj| => HopDistance(adj, src, v));
    g := GroupByDistance(dist, src);
  }

  /** The properties promised of `dijkstra`'s result: the source never appears; every
      node reachable from it appears exactly once, under its hop distance; every key is at
      least 1; each group is increasing; groups are ordered by their smallest node. */
  lemma DijkstraResult(adj: seq<seq<int>>, src: nat)
    requires Square(adj) && src < |adj|
    ensures var g := DistanceGroups(adj, src);
      && (forall k :: k in g.members ==> k >= 1 && src !in g.members[k] && |g.members[k]| > 0)
      && (forall k, x :: k in g.members && 0 <= x < |g.members[k]| ==>
            g.members[k][x] < |adj| && HopDistance(adj, src, g.members[k][x]) == Finite(k))
      && (forall v :: 0 <= v < |adj| && v != src && HopDistance(adj, src, v).Finite? ==>
            exists k :: k in g.members && v in g.members[k])
      && (forall k1, k2, v :: k1 in g.members && k2 in g.members && v in g.members[k1] && v in g.members[k2] ==> k1 == k2)
      && (forall k, x, y :: k in g.members && 0 <= x < y < |g.members[k]| ==> g.members[k][x] < g.members[k][y])
      && (forall a, b :: 0 <= a < b < |g.order| ==>
            g.order[a] in g.members && g.order[b] in g.members &&
            g.members[g.order[a]][0] < g.members[g.order[b]][0])
  {
    var dist := seq(|adj|, v requires 0 <= v < |adj| => HopDistance(adj, src, v));
    GroupingShape(dist, src, |adj|);
    var g := DistanceGroups(adj, src);
    forall k | k in g.members ensures k >= 1 && src !in g.members[k] && |g.members[k]| > 0 {
      var x := g.members[k][0];
      assert dist[x] == Finite(k);
      if k == 0 {
        AwayFromSource(adj, src, x);
      }
    }
    forall v | 0 <= v < |adj| && v != src && HopDistance(adj, src, v).Finite?
      ensures exists k :: k in g.members && v in g.members[k]
    {
      assert dist[v] == HopDistance(adj, src, v);
    }
    forall k1, k2, v | k1 in g.members && k2 in g.members && v in g.members[k1] && v in g.members[k2]
      ensures k1 == k2
    {
      var x1 :| 0 <= x1 < |g.members[k1]| && g.members[k1][x1] == v;
      var x2 :| 0 <= x2 < |g.members[k2]| && g.members[k2][x2] == v;
    }
  }

  /** Each key of `dijkstra`'s result is listed once and has its group, whose nodes are
      nodes of the graph. */
  lemma DijkstraKeys(adj: seq<seq<int>>, src: nat)
    requires Square(adj) && src < |adj|
    ensures var g := DistanceGroups(adj, src);
      && (forall a :: 0 <= a < |g.order| ==> g.order[a] in g.members)
      && (forall a, b :: 0 <= a < b < |g.order| ==> g.order[a] != g.order[b])
      && (forall a, x :: 0 <= a < |g.order| && 0 <= x < |g.members[g.order[a]]| ==>
            g.members[g.order[a]][x] < |adj| && g.members[g.order[a]][x] != src)
  {
    var dist := seq(|adj|, v requires 0 <= v < |adj| => HopDistance(adj, src, v));
    GroupingShape(dist, src, |adj|);
    var g := DistanceGroups(adj, src);
    assert forall a :: 0 <= a < |g.order| ==> g.order[a] in g.order;
  }

  /** The path 0-1-2-3-4 as an adjacency matrix. */
  function PathOfFive(): (adj: seq<seq<int>>)
    ensures Square(adj) && |adj| == 5
  {
    [[0, 1, 0, 0, 0],
     [1, 0, 1, 0, 0],
     [0, 1, 0, 1, 0],
     [0, 0, 1, 0, 1],
     [0, 0, 0, 1, 0]]
  }

  lemma PathEdges(u: nat, v: nat)
    requires u < 5 && v < 5
    ensures PathOfFive()[u][v] == 1 <==> u + 1 == v || v + 1 == u
  {
  }

  /** On the path, node `v` is within `k` hops of node 0 exactly when `v <= k`. */
  lemma {:induction false} PathWithinHops(v: nat, k: nat)
    requires v < 5
    ensures WithinHops(PathOfFive(), 0, v, k) <==> v <= k
    decreases k
  {
    var adj := PathOfFive();
    if k > 0 {
      PathWithinHops(v, k - 1);
      if v <= k {
        if v == k {
          PathWithinHops(v - 1, k - 1);
          PathEdges(v - 1, v);
          assert WithinHops(adj, 0, v - 1, k - 1) && adj[v - 1][v] == 1;
        }
      } else {
        forall u | 0 <= u < 5 && WithinHops(adj, 0, u, k - 1) ensures adj[u][v] != 1 {
          PathWithinHops(u, k - 1);
          PathEdges(u, v);
        }
      }
    }
  }

  /** On the path, node `v` is `v` hops from node 0. */
  lemma PathDistances(v: nat)
    requires v < 5
    ensures HopDistance(PathOfFive(), 0, v) == Finite(v)
  {
    PathWithinHops(v, v);
    forall k | WithinHops(PathOfFive(), 0, v, k) ensures v <= k {
      PathWithinHops(v, k);
    }
    HopDistanceUnique(PathOfFive(), 0, v, v);
  }

  /** From node 0 of the path 0-1-2-3-4, `dijkstra` returns {1: [1], 2: [2], 3: [3], 4: [4]}. */
  lemma PathOfFiveGroups()
    ensures DistanceGroups(PathOfFive(), 0) == Groups([1, 2, 3, 4], map[1 := [1], 2 := [2], 3 := [3], 4 := [4]])
  {
    var dist := [Finite(0), Finite(1), Finite(2), Finite(3), Finite(4)];
    forall v | 0 <= v < 5 ensures HopDistance(PathOfFive(), 0, v) == dist[v] {
      PathDistances(v);
    }
    GroupsOfDistances(PathOfFive(), 0, dist);
    PathGrouping();
  }

  /** The groups follow from the hop distances alone. */
  lemma GroupsOfDistances(adj: seq<seq<int>>, src: nat, dist: seq<Distance>)
    requires Square(adj) && src < |adj| && |dist| == |adj|
    requires forall v :: 0 <= v < |adj| ==> HopDistance(adj, src, v) == dist[v]
    ensures DistanceGroups(adj, src) == Grouping(dist, src, |adj|)
  {
    assert dist == seq(|adj|, v requires 0 <= v < |adj| => HopDistance(adj, src, v));
  }

  /** The grouping loop over the distances 0, 1, 2, 3, 4 from node 0. */
  lemma PathGrouping()
    ensures Grouping([Finite(0), Finite(1), Finite(2), Finite(3), Finite(4)], 0, 5)
         == Groups([1, 2, 3, 4], map[1 := [1], 2 := [2], 3 := [3], 4 := [4]])
  {
    var dist := [Finite(0), Finite(1), Finite(2), Finite(3), Finite(4)];
    var g1 := AddNode(Groups([], map[]), 1, 1);
    assert Grouping(dist, 0, 2) == g1;
    var g2 := AddNode(g1, 2, 2);
    assert Grouping(dist, 0, 3) == g2;
    var g3 := AddNode(g2, 3, 3);
    assert Grouping(dist, 0, 4) == g3;
    var g4 := AddNode(g3, 4, 4);
    assert g4.members == map[1 := [1], 2 := [2], 3 := [3], 4 := [4]];
  }

  /** Groups follow their smallest node, not their distance: from 0 over edges 0-2 and 2-1,
      the group at distance 2 comes before the group at distance 1. */
  lemma GroupsNotByDistance()
    ensures Grouping([Finite(0), Finite(2), Finite(1)], 0, 3) == Groups([2, 1], map[2 := [1], 1 := [2]])
  {
  }
}
