module RecallBounds {
  /** The fragmentation bound on recall, and the traversal that measures it. */

  import opened Seqs
  import opened LayerHeal
  import opened Reachability
  import opened ErasureSafety
  import opened Layers
  import opened Search

  ghost function ActiveBelow(mask: seq<bool>, n: nat): (s: set<int>)
    requires n <= |mask|
    ensures forall x :: x in s <==> 0 <= x < n && mask[x]
  {
    if n == 0 then {} else ActiveBelow(mask, n - 1) + if mask[n - 1] then {n - 1} else {}
  }

  ghost function Active(mask: seq<bool>): (s: set<int>)
    ensures forall x :: x in s <==> 0 <= x < |mask| && mask[x]
  {
    ActiveBelow(mask, |mask|)
  }

  /** The adjacency as far as the mask goes; nodes without a list have no neighbours. */
  function Resized(adjacency: seq<seq<int>>, n: nat): (g: Layer)
    ensures |g| == n
    ensures forall i :: 0 <= i < n ==> g[i] == if i < |adjacency| then adjacency[i] else []
  {
    seq(n, i requires 0 <= i < n => if i < |adjacency| then adjacency[i] else [])
  }

  // ----- bfs_unreachable_fraction ---------------------------------------------------

  /** Everything queued is reachable, and the neighbours of what has been seen are seen or queued. */
  ghost predicate Traversing(g: Layer, ok: set<int>, start: int, seen: set<int>, stack: seq<int>) {
    && seen <= Reachable(g, ok, start) && Elements(stack) <= Reachable(g, ok, start)
    && start in seen + Elements(stack)
    && forall p, x :: p in seen && 0 <= p < |g| && x in g[p] && x in ok ==> x in seen + Elements(stack)
  }

  method CollectActive(mask: seq<bool>) returns (active: set<int>)
    ensures active == Active(mask)
  {
    active := {};
    var i := 0;
    while i < |mask|
      invariant 0 <= i <= |mask| && active == ActiveBelow(mask, i)
    {
      if mask[i] {
        active := active + {i};
      }
      i := i + 1;
    }
  }

  /**
   * `bfs_unreachable_fraction`: a worklist traversal that sees exactly the active nodes reachable through
   * active nodes from the entry, or from some active node when the entry is not active.
   */
  method UnreachableFraction(adjacency: seq<seq<int>>, mask: seq<bool>, entry: int)
    returns (fraction: real, nReach: nat, nActive: nat, ghost start: int)
    ensures nActive == |Active(mask)|
    ensures nActive == 0 ==> fraction == 1.0 && nReach == 0
    ensures nActive > 0 ==>
              && start in Active(mask) && (entry in Active(mask) ==> start == entry)
              && nReach == |Reachable(Resized(adjacency, |mask|), Active(mask), start)|
              && nReach <= nActive
              && fraction == (nActive - nReach) as real / nActive as real
  {
    var active := CollectActive(mask);
    start := entry;
    if active == {} {
      return 1.0, 0, 0, start;
    }
    var first: int;
    if entry in active {
      first := entry;
    } else {
      SomeMember(active);
      first :| first in active;
    }
    start := first;
    var seen := Traverse(adjacency, active, first, |mask|);
    ReachableWithin(Resized(adjacency, |mask|), active, first);
    SubsetCardinality(seen, active);
    nActive, nReach := |active|, |seen|;
    fraction := (nActive - nReach) as real / nActive as real;
  }

  lemma FewerLeft(active: set<int>, seen: set<int>, u: int)
    requires u in active && u !in seen
    ensures |active - (seen + {u})| < |active - seen|
  {
    assert active - (seen + {u}) == active - seen - {u};
  }

  lemma ReachableWithin(g: Layer, ok: set<int>, start: int)
    ensures Reachable(g, ok, start) <= ok
  {
    forall b | Reach(g, ok, start, b) ensures b in ok {
      var p :| IsPath(g, ok, p) && p[0] == start && p[|p| - 1] == b;
    }
  }

  /** The stack loop of the traversal. */
  method Traverse(adjacency: seq<seq<int>>, active: set<int>, first: int, ghost n: nat) returns (seen: set<int>)
    requires first in active && forall x :: x in active ==> 0 <= x < n
    ensures seen == Reachable(Resized(adjacency, n), active, first)
  {
    ghost var g := Resized(adjacency, n);
    seen := {};
    var stack := [first];
    ReachSelf(g, active, first);
    while stack != []
      invariant Traversing(g, active, first, seen, stack)
      decreases |active - seen|, |stack|
    {
      var u := stack[|stack| - 1];
      ghost var before := stack;
      ElementsLast(before);
      stack := stack[..|stack| - 1];
      if u !in seen && u in active {
        OpenNode(g, active, first, seen, Elements(stack), u);
        FewerLeft(active, seen, u);
        var list := if u < |adjacency| then adjacency[u] else [];
        assert list == g[u];
        stack := PushNeighbours(list, active, seen + {u}, stack, g, first, u);
        seen := seen + {u};
      } else {
        StillTraversing(g, active, first, seen, stack, u);
      }
    }
    SeenIsReachable(g, active, first, seen);
  }

  lemma OpenNode(g: Layer, ok: set<int>, start: int, seen: set<int>, rest: set<int>, u: int)
    requires u !in seen && u in ok
    requires rest + {u} <= Reachable(g, ok, start) && seen <= Reachable(g, ok, start)
    requires start in seen + (rest + {u})
    requires forall p, x :: p in seen && 0 <= p < |g| && x in g[p] && x in ok ==> x in seen + (rest + {u})
    ensures Reach(g, ok, start, u) && seen + {u} <= Reachable(g, ok, start)
    ensures start in seen + {u} + rest
    ensures forall p, x :: p in seen + {u} && p != u && 0 <= p < |g| && x in g[p] && x in ok ==> x in seen + {u} + rest
    ensures |ok - (seen + {u})| < |ok - seen|
    ensures ok - (seen + {u}) < ok - seen
  {
    assert u in Reachable(g, ok, start);
    assert ok - (seen + {u}) == ok - seen - {u};
  }

  lemma StillTraversing(g: Layer, ok: set<int>, start: int, seen: set<int>, stack: seq<int>, u: int)
    requires u in seen || u !in ok
    requires Elements(stack) + {u} <= Reachable(g, ok, start) && seen <= Reachable(g, ok, start)
    requires start in seen + (Elements(stack) + {u})
    requires forall p, x :: p in seen && 0 <= p < |g| && x in g[p] && x in ok ==> x in seen + (Elements(stack) + {u})
    ensures Traversing(g, ok, start, seen, stack)
  {
    ReachableWithin(g, ok, start);
  }

  lemma ElementsLast(s: seq<int>)
    requires s != []
    ensures Elements(s) == Elements(s[..|s| - 1]) + {s[|s| - 1]}
  {
    assert s == s[..|s| - 1] + [s[|s| - 1]];
  }

  /** Queues the active neighbours of u not seen yet. */
  method PushNeighbours(list: seq<int>, active: set<int>, seen: set<int>, stack0: seq<int>,
                        ghost g: Layer, ghost start: int, ghost u: int)
    returns (stack: seq<int>)
    requires 0 <= u < |g| && list == g[u] && u in seen && Reach(g, active, start, u)
    requires forall x :: x in active ==> 0 <= x < |g|
    requires Elements(stack0) <= Reachable(g, active, start) && seen <= Reachable(g, active, start)
    requires start in seen + Elements(stack0)
    requires forall p, x :: p in seen && p != u && 0 <= p < |g| && x in g[p] && x in active ==> x in seen + Elements(stack0)
    ensures Traversing(g, active, start, seen, stack)
  {
    stack := stack0;
    var i := 0;
    while i < |list|
      invariant 0 <= i <= |list|
      invariant Elements(stack0) <= Elements(stack) <= Reachable(g, active, start)
      invariant forall x :: x in list[..i] && x in active ==> x in seen + Elements(stack)
    {
      var v := list[i];
      assert list[..i + 1] == list[..i] + [v];
      if v in active && v !in seen {
        assert v in g[u];
        ReachOn(g, active, start, u, v);
        ElementsLast(stack + [v]);
        assert (stack + [v])[..|stack|] == stack;
        stack := stack + [v];
      }
      i := i + 1;
    }
    assert list[..i] == list;
  }

  lemma SeenIsReachable(g: Layer, ok: set<int>, start: int, seen: set<int>)
    requires Traversing(g, ok, start, seen, [])
    ensures seen == Reachable(g, ok, start)
  {
    forall b | Reach(g, ok, start, b) ensures b in seen {
      var p :| IsPath(g, ok, p) && p[0] == start && p[|p| - 1] == b;
      ReachInClosed(g, ok, seen, p);
    }
  }

  // ----- the bound ------------------------------------------------------------------

  datatype FragmentationBound = FragmentationBound(nActive: int, nUnreachable: int, recallAt1UpperBound: real)

  /** `FragmentationBound.from_counts`. */
  function FromCounts(nActive: int, nUnreachable: int): (b: FragmentationBound) {
    if nActive <= 0 then FragmentationBound(0, 0, 0.0)
    else
      var u := if nUnreachable < nActive then nUnreachable else nActive;
      FragmentationBound(nActive, u, 1.0 - u as real / nActive as real)
  }

  datatype Check = Passed(bound: FragmentationBound) | AssertionError

  /** `assert_theorem2_bound`. */
  function AssertTheorem2Bound(recallAt1: real, nActive: int, nUnreachable: int, tol: real): (c: Check) {
    var bound := FromCounts(nActive, nUnreachable);
    if recallAt1 > bound.recallAt1UpperBound + tol then AssertionError else Passed(bound)
  }

  /** The check fails exactly on a recall beyond the bound, with no more nodes unreachable than there are. */
  lemma AssertsExactly(recallAt1: real, nActive: int, nUnreachable: int, tol: real)
    ensures AssertTheorem2Bound(recallAt1, nActive, nUnreachable, tol).AssertionError? <==>
              if nActive <= 0 then recallAt1 > tol
              else if nUnreachable >= nActive then recallAt1 > 0.0 + tol
              else (recallAt1 - tol) * nActive as real > (nActive - nUnreachable) as real
    ensures AssertTheorem2Bound(recallAt1, nActive, nUnreachable, tol).Passed? ==>
              AssertTheorem2Bound(recallAt1, nActive, nUnreachable, tol).bound == FromCounts(nActive, nUnreachable)
  {
    if nActive > 0 {
      var a, u := nActive as real, (if nUnreachable < nActive then nUnreachable else nActive) as real;
      var x := u / a;
      assert x * a == u;
      Beyond(recallAt1 - tol, 1.0 - x, a);
      assert (1.0 - x) * a == a - u;
      if nUnreachable >= nActive {
        Beyond(x, 1.0, a);
        Beyond(1.0, x, a);
      }
    }
  }

  lemma Beyond(x: real, y: real, a: real)
    requires a > 0.0
    ensures x > y <==> x * a > y * a
  {
    if x > y {
      assert (x - y) * a > 0.0;
    } else {
      assert (y - x) * a >= 0.0;
    }
  }

  /** A path between active nodes stays active when deleted nodes have no edges. */
  lemma {:induction false} PathStaysActive(g: Layer, active: set<int>, p: seq<int>)
    requires IsPath(g, Nodes(g), p) && p[0] in active
    requires forall x :: 0 <= x < |g| && x !in active ==> IsolatedOn(g, x)
    ensures IsPath(g, active, p)
    decreases |p|
  {
    if |p| > 1 {
      assert p[0 + 1] in g[p[0]];
      var r := p[1..];
      assert forall i :: 0 <= i < |r| ==> r[i] == p[i + 1];
      var next := p[1];
      assert next in g[p[0]] && next in active;
      PathStaysActive(g, active, r);
      assert forall i :: 0 < i < |p| ==> p[i] == r[i - 1];
    }
  }

  lemma ReachStaysActive(g: Layer, active: set<int>, a: int)
    requires a in active && forall x :: 0 <= x < |g| && x !in active ==> IsolatedOn(g, x)
    ensures Reachable(g, Nodes(g), a) <= Reachable(g, active, a)
  {
    forall b | Reach(g, Nodes(g), a, b) ensures Reach(g, active, a, b) {
      var p :| IsPath(g, Nodes(g), p) && p[0] == a && p[|p| - 1] == b;
      PathStaysActive(g, active, p);
    }
  }

  /**
   * One query per node: the distances it induces, the node its base search starts on, the single hit asked for,
   * and the nodes the search visited.
   */
  datatype Query = Query(dq: QueryDist, from: int, hits: seq<SearchHit>, visited: set<int>)

  /** Each base search starts on a node of the component of `entry` and gives the answer it promises. */
  ghost predicate Searched(g: Layer, active: set<int>, entry: int, queries: map<int, Query>) {
    forall t :: t in queries ==>
      && queries[t].from in Reachable(g, active, entry)
      && Answers(g, queries[t].dq, queries[t].from, 1, queries[t].hits, queries[t].visited)
  }

  /** The nodes whose own query finds them. */
  ghost function Recalled(active: set<int>, queries: map<int, Query>): (s: set<int>) {
    set t | t in active && t in queries && t in HitNodes(queries[t].hits)
  }

  /** Mean recall@1 over one query per active node, aimed at that node. */
  ghost function MeanRecallAt1(active: set<int>, queries: map<int, Query>): (r: real)
    requires active != {}
  {
    |Recalled(active, queries)| as real / |active| as real
  }

  lemma RatioOrder(a: int, b: int, n: int)
    requires a <= b && n > 0
    ensures a as real / n as real <= b as real / n as real
  {
  }

  /**
   * Theorem 2: with the deleted nodes isolated, and every query searched from the component of an active entry,
   * the mean recall@1 over the active nodes is at most the bound computed from the unreachable ones.
   */
  lemma FragmentationTheorem(g: Layer, active: set<int>, entry: int, queries: map<int, Query>)
    requires entry in active && forall x :: x in active ==> 0 <= x < |g|
    requires forall x :: 0 <= x < |g| && x !in active ==> IsolatedOn(g, x)
    requires Searched(g, active, entry, queries)
    ensures var u := |active| - |Reachable(g, active, entry)|;
            && 0 <= u < |active|
            && MeanRecallAt1(active, queries) <= FromCounts(|active|, u).recallAt1UpperBound
            && forall tol :: tol >= 0.0 ==>
                 AssertTheorem2Bound(MeanRecallAt1(active, queries), |active|, u, tol).Passed?
  {
    var reach, recalled := Reachable(g, active, entry), Recalled(active, queries);
    RecalledReachable(g, active, entry, queries);
    ReachableWithin(g, active, entry);
    ReachSelf(g, active, entry);
    SubsetCardinality(recalled, reach);
    SubsetCardinality(reach, active);
    SubsetCardinality({entry}, reach);
    MeanWithinBound(active, queries, |reach|);
  }

  lemma MeanWithinBound(active: set<int>, queries: map<int, Query>, reach: nat)
    requires active != {} && |Recalled(active, queries)| <= reach <= |active|
    ensures var u := |active| - reach;
            && MeanRecallAt1(active, queries) <= FromCounts(|active|, u).recallAt1UpperBound
            && forall tol :: tol >= 0.0 ==>
                 AssertTheorem2Bound(MeanRecallAt1(active, queries), |active|, u, tol).Passed?
  {
    RatioOrder(|Recalled(active, queries)|, reach, |active|);
    BoundIsReachRatio(|active|, reach);
  }

  /** Theorem 2's core: a query aimed at an unreachable node cannot return it. */
  lemma RecalledReachable(g: Layer, active: set<int>, entry: int, queries: map<int, Query>)
    requires entry in active && forall x :: 0 <= x < |g| && x !in active ==> IsolatedOn(g, x)
    requires Searched(g, active, entry, queries)
    ensures Recalled(active, queries) <= Reachable(g, active, entry)
  {
    forall t | t in Recalled(active, queries) ensures t in Reachable(g, active, entry) {
      var q := queries[t];
      assert Answers(g, q.dq, q.from, 1, q.hits, q.visited) && t in Reachable(g, Nodes(g), q.from);
      ReachableWithin(g, active, entry);
      ReachStaysActive(g, active, q.from);
      ReachFurther(g, active, entry, q.from, t);
    }
  }

  /** What a reachable node reaches is reachable. */
  lemma ReachFurther(g: Layer, ok: set<int>, a: int, b: int, c: int)
    requires b in Reachable(g, ok, a) && Reach(g, ok, b, c)
    ensures c in Reachable(g, ok, a)
  {
    var s := Reachable(g, ok, a);
    forall u, v | u in s && 0 <= u < |g| && v in g[u] && 0 <= v < |g| && v in ok ensures v in s {
      ReachOn(g, ok, a, u, v);
    }
    var p :| IsPath(g, ok, p) && p[0] == b && p[|p| - 1] == c;
    ReachInClosed(g, ok, s, p);
  }

  // ----- whole searches -------------------------------------------------------------

  /** The links of the layers 0 to top do not lead out of a set of nodes. */
  ghost predicate LinksWithin(adj: Adjacency, s: set<int>, top: nat) {
    forall l: nat :: l <= top ==> LayerWithin(LayerOf(adj, l), s)
  }

  /** Those of the layers 1 to top do not. */
  ghost predicate UpperWithin(adj: Adjacency, s: set<int>, top: nat) {
    forall l: nat :: 1 <= l <= top ==> LayerWithin(LayerOf(adj, l), s)
  }

  ghost predicate LayerWithin(g: Layer, s: set<int>) {
    forall a, b :: a in s && 0 <= a < |g| && b in g[a] && 0 <= b < |g| ==> b in s
  }

  lemma ReachWithin(g: Layer, s: set<int>, a: int, b: int)
    requires LayerWithin(g, s) && a in s && Reach(g, Nodes(g), a, b)
    ensures b in s
  {
    var p :| IsPath(g, Nodes(g), p) && p[0] == a && p[|p| - 1] == b;
    ReachInClosed(g, Nodes(g), s, p);
  }

  lemma {:induction false} DescentWithin(adj: Adjacency, dq: QueryDist, s: set<int>, top: nat, trail: seq<int>, i: nat)
    requires LinksWithin(adj, s, top) && Descent(adj, dq, top, trail) && trail[0] in s && i < |trail|
    ensures trail[i] in s
  {
    if i > 0 {
      DescentWithin(adj, dq, s, top, trail, i - 1);
      assert StepDown(adj, dq, top + 1 - i, trail[i - 1], trail[i]);
      assert LayerWithin(LayerOf(adj, top + 1 - i), s);
      ReachWithin(LayerOf(adj, top + 1 - i), s, trail[i - 1], trail[i]);
    }
  }

  /** Each query is a whole search from `start`, answered as `SearchKnn` promises. */
  ghost predicate WholeSearches(adj: Adjacency, start: int, top: nat, queries: map<int, Query>, trails: map<int, seq<int>>)
  {
    forall t :: t in queries ==> t in trails && IsSearch(adj, start, top, queries[t], trails[t])
  }

  ghost predicate IsSearch(adj: Adjacency, start: int, top: nat, q: Query, trail: seq<int>) {
    && Descent(adj, q.dq, top, trail) && |trail| == top + 1 && trail[0] == start && trail[top] == q.from
    && Answers(LayerOf(adj, 0), q.dq, q.from, 1, q.hits, q.visited)
  }

  lemma FoundWithin(adj: Adjacency, s: set<int>, start: int, top: nat, q: Query, trail: seq<int>)
    requires LinksWithin(adj, s, top) && start in s && IsSearch(adj, start, top, q, trail)
    ensures HitNodes(q.hits) <= s
  {
    DescentWithin(adj, q.dq, s, top, trail, top);
    assert LayerWithin(LayerOf(adj, 0), s);
    forall x | x in HitNodes(q.hits) ensures x in s {
      assert x in Reachable(LayerOf(adj, 0), Nodes(LayerOf(adj, 0)), q.from);
      ReachWithin(LayerOf(adj, 0), s, q.from, x);
    }
  }

  /**
   * Theorem 2 for whole searches from one start node: the unreachable nodes are those outside a set that holds the
   * start node and that the links of no layer of the descent lead out of.
   */
  lemma WholeSearchTheorem(adj: Adjacency, active: set<int>, s: set<int>, start: int, top: nat,
                           queries: map<int, Query>, trails: map<int, seq<int>>)
    requires active != {} && start in s && LinksWithin(adj, s, top)
    requires WholeSearches(adj, start, top, queries, trails)
    ensures var u := |active| - |s * active|;
            && 0 <= u <= |active|
            && MeanRecallAt1(active, queries) <= FromCounts(|active|, u).recallAt1UpperBound
            && forall tol :: tol >= 0.0 ==>
                 AssertTheorem2Bound(MeanRecallAt1(active, queries), |active|, u, tol).Passed?
  {
    var recalled := Recalled(active, queries);
    forall t | t in recalled ensures t in s * active {
      assert IsSearch(adj, start, top, queries[t], trails[t]);
      FoundWithin(adj, s, start, top, queries[t], trails[t]);
    }
    SubsetCardinality(recalled, s * active);
    SubsetCardinality(s * active, active);
    MeanWithinBound(active, queries, |s * active|);
  }

  /**
   * The bound measured on the base layer alone covers whole searches if the links of the upper layers do not lead
   * out of the component of the start node, so always when that node is on no upper layer.
   */
  lemma BaseLayerBound(adj: Adjacency, active: set<int>, start: int, top: nat, queries: map<int, Query>,
                       trails: map<int, seq<int>>)
    requires start in active && forall x :: x in active ==> 0 <= x < |adj|
    requires forall x :: 0 <= x < |adj| && x !in active ==> IsolatedOn(LayerOf(adj, 0), x)
    requires UpperWithin(adj, Reachable(LayerOf(adj, 0), active, start), top)
    requires WholeSearches(adj, start, top, queries, trails)
    ensures var u := |active| - |Reachable(LayerOf(adj, 0), active, start)|;
            && 0 <= u < |active|
            && MeanRecallAt1(active, queries) <= FromCounts(|active|, u).recallAt1UpperBound
  {
    var reach := Reachable(LayerOf(adj, 0), active, start);
    ComponentWithin(LayerOf(adj, 0), active, start);
    ClosedComponentBound(adj, active, reach, start, top, queries, trails);
  }

  lemma ClosedComponentBound(adj: Adjacency, active: set<int>, reach: set<int>, start: int, top: nat,
                             queries: map<int, Query>, trails: map<int, seq<int>>)
    requires start in reach && reach <= active && LayerWithin(LayerOf(adj, 0), reach)
    requires UpperWithin(adj, reach, top)
    requires WholeSearches(adj, start, top, queries, trails)
    ensures var u := |active| - |reach|;
            0 <= u < |active| && MeanRecallAt1(active, queries) <= FromCounts(|active|, u).recallAt1UpperBound
  {
    SubsetCardinality({start}, reach);
    assert reach * active == reach;
    WholeSearchTheorem(adj, active, reach, start, top, queries, trails);
  }

  /** With the deleted nodes isolated no link leads out of a component of active nodes. */
  lemma ComponentWithin(g: Layer, active: set<int>, start: int)
    requires start in active && forall x :: x in active ==> 0 <= x < |g|
    requires forall x :: 0 <= x < |g| && x !in active ==> IsolatedOn(g, x)
    ensures var reach := Reachable(g, active, start);
            start in reach && reach <= active && LayerWithin(g, reach)
  {
    var reach := Reachable(g, active, start);
    ReachSelf(g, active, start);
    ReachableWithin(g, active, start);
    forall a, b | a in reach && 0 <= a < |g| && b in g[a] && 0 <= b < |g| ensures b in reach {
      assert b !in active ==> IsolatedOn(g, b);
      ReachOn(g, active, start, a, b);
    }
  }

  // ----- upper links that lead out of the base component ----------------------------

  /** Two nodes without base-layer edges that are linked on layer 1. */
  const BRIDGE: Adjacency := [[[], [1]], [[], [0]]]

  /** The distances of a query aimed at node t. */
  function Aim(t: int): QueryDist {
    (x: int) => if x == t then 0.0 else 1.0
  }

  function AimedAt(t: int): Query {
    Query(Aim(t), t, [SearchHit(t, 0.0)], {t})
  }

  /** A base search that starts on an isolated node. */
  lemma AnswersAlone(g: Layer, dq: QueryDist, x: int)
    requires IsolatedOn(g, x)
    ensures Answers(g, dq, x, 1, [SearchHit(x, dq(x))], {x}) && Reachable(g, Nodes(g), x) == {x}
  {
    ReachSelf(g, Nodes(g), x);
    forall b | Reach(g, Nodes(g), x, b) ensures b == x {
      ReachKeepsIsolated(g, x, x, b);
    }
    assert HitNodes([SearchHit(x, dq(x))]) == {x};
  }

  lemma BridgeLayers(adj: Adjacency)
    requires adj == BRIDGE
    ensures LayerOf(adj, 0) == [[], []] && LayerOf(adj, 1) == [[1], [0]]
  {
    assert adj[0] == [[], [1]] && adj[1] == [[], [0]];
  }

  lemma BridgeStep(adj: Adjacency, t: int)
    requires adj == BRIDGE && 0 <= t < 2
    ensures StepDown(adj, Aim(t), 1, 0, t)
  {
    var up := LayerOf(adj, 1);
    BridgeLayers(adj);
    ReachSelf(up, Nodes(up), 0);
    if t == 1 {
      ReachStep(up, Nodes(up), 0, 1);
    }
  }

  lemma BridgeSearch(adj: Adjacency, t: int)
    requires adj == BRIDGE && 0 <= t < 2
    ensures IsSearch(adj, 0, 1, AimedAt(t), [0, t]) && t in HitNodes(AimedAt(t).hits)
    ensures Reachable(LayerOf(adj, 0), Nodes(LayerOf(adj, 0)), t) == {t}
  {
    BridgeLayers(adj);
    AnswersAlone(LayerOf(adj, 0), Aim(t), t);
    BridgeStep(adj, t);
    assert AimedAt(t).hits[0] in AimedAt(t).hits;
  }

  /** One query for each of the two nodes, and its trail. */
  function BothQueries(): map<int, Query> {
    map[0 := AimedAt(0), 1 := AimedAt(1)]
  }

  function BothTrails(): map<int, seq<int>> {
    map[0 := [0, 0], 1 := [0, 1]]
  }

  lemma BothSearched(adj: Adjacency)
    requires adj == BRIDGE
    ensures WholeSearches(adj, 0, 1, BothQueries(), BothTrails())
  {
    forall t | t in BothQueries() ensures t in BothTrails() && IsSearch(adj, 0, 1, BothQueries()[t], BothTrails()[t]) {
      assert BothQueries()[t] == AimedAt(t) && BothTrails()[t] == [0, t];
      BridgeSearch(adj, t);
    }
  }

  lemma BothRecalled(active: set<int>)
    requires active == {0, 1}
    ensures Recalled(active, BothQueries()) == active && |active| == 2
  {
    forall t | t in active ensures t in HitNodes(BothQueries()[t].hits) {
      assert AimedAt(t).hits[0] in AimedAt(t).hits;
    }
  }

  lemma OneReached(adj: Adjacency, active: set<int>)
    requires adj == BRIDGE && active == {0, 1}
    ensures Reachable(LayerOf(adj, 0), active, 0) == {0}
  {
    BridgeSearch(adj, 0);
    assert Nodes(LayerOf(adj, 0)) == active;
  }

  /** Here every query is answered, although half of the nodes are unreachable on the base layer. */
  lemma UpperLinksBeatBaseBound(adj: Adjacency, active: set<int>)
    requires adj == BRIDGE && active == {0, 1}
    ensures WholeSearches(adj, 0, 1, BothQueries(), BothTrails())
    ensures var u := |active| - |Reachable(LayerOf(adj, 0), active, 0)|;
            AssertTheorem2Bound(MeanRecallAt1(active, BothQueries()), |active|, u, 0.0).AssertionError?
  {
    BothSearched(adj);
    BothRecalled(active);
    OneReached(adj, active);
    HalfUnreachable();
  }

  lemma HalfUnreachable()
    ensures AssertTheorem2Bound(2 as real / 2 as real, 2, 2 - 1, 0.0).AssertionError?
  {
  }

  /** The bound is the fraction of active nodes reached, the complement of what the traversal reports. */
  lemma BoundIsReachRatio(n: nat, reach: nat)
    requires reach <= n && n > 0
    ensures FromCounts(n, n - reach).recallAt1UpperBound == reach as real / n as real
    ensures FromCounts(n, n - reach).recallAt1UpperBound == 1.0 - (n - reach) as real / n as real
  {
    assert (n - reach) as real == n as real - reach as real;
    Shares(n as real, reach as real);
  }

  lemma Shares(a: real, b: real)
    requires a > 0.0
    ensures (a - b) / a == 1.0 - b / a
  {
    var x := b / a;
    assert x * a == b;
    Quotient(1.0 - x, a, a - b);
  }

  lemma Quotient(y: real, a: real, c: real)
    requires a > 0.0 && y * a == c
    ensures c / a == y
  {
  }
}
