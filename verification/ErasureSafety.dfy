module ErasureSafety {
  /** Safety of whole runs of `erase_node`, and the heal theorems carried to all layers of the index. */

  import opened Seqs
  import opened LayerHeal
  import opened HealBookkeeping
  import opened HealStability
  import opened HealReachability
  import opened HalfEdges
  import opened Reachability
  import opened Layers
  import opened HnswIndex

  /** Every layer is symmetric, duplicate-free, loop-free and in range. */
  ghost predicate AllSimple(adj: Adjacency) {
    forall l: nat :: Simple(LayerOf(adj, l))
  }

  /** On every layer the neighbours of q have degree at most m once q is gone. */
  ghost predicate AllCapFits(adj: Adjacency, q: int, m: int) {
    0 <= q < |adj| && forall l: nat :: CapFits(LayerOf(adj, l), q, m)
  }

  /** Every layer is simple and of degree at most m. */
  ghost predicate AllWellFormed(adj: Adjacency, m: int) {
    forall l: nat :: WellFormed(LayerOf(adj, l), m)
  }

  /** x has no edge in either direction on any layer. */
  ghost predicate Isolated(adj: Adjacency, x: int) {
    0 <= x < |adj| && forall l: nat :: IsolatedOn(LayerOf(adj, l), x)
  }

  ghost predicate IsolatedOn(g: Layer, x: int) {
    0 <= x < |g| && g[x] == [] && forall k :: 0 <= k < |g| ==> x !in g[k]
  }

  /** The row of x is zero and x is out of the graph. */
  ghost predicate Erased(s: State, x: int, dim: nat) {
    0 <= x < |s.data| && s.data[x] == Zeros(dim) && Isolated(s.adjacency, x)
  }

  lemma NodeDistIsDist(metric: Metric, data: seq<Vector>)
    requires IsMetric(metric)
    ensures IsDist(NodeDist(metric, data))
  {
  }

  /** If the heal leaves a layer simple, q is isolated on it, and an isolated node stays so. */
  lemma HealIsolates(w: Work, q: int, region: seq<int>, m: int, d: Dist, x: int)
    requires Simple(w.g) && m > 0 && Covers(w.g, q, region) && Simple(HealLayer(w, q, region, m, d).g)
    requires x == q || IsolatedOn(w.g, x)
    ensures IsolatedOn(HealLayer(w, q, region, m, d).g, x)
  {
    var h := HealLayer(w, q, region, m, d).g;
    HealAccounts(w, q, region, m, d);
    if x != q {
      assert x !in w.g[q];
    }
    assert forall y :: y !in h[x];
    SomeElement(h[x]);
    forall k | 0 <= k < |h| ensures x !in h[k] {
      assert k !in h[x];
    }
  }

  /** No turn of the heal of this layer leaves half an edge. */
  ghost predicate NoHalfTurnOn(adj: Adjacency, q: int, m: int, d: Dist, l: nat)
    requires Sound(adj) && 0 <= q < |adj| && m > 0
  {
    assert InRange(LayerOf(adj, l));
    NoHalfTurn(WorkOf(adj, l, Tally(adj, q, m, d, l)), q, HealRegion(adj, q), m, d)
  }

  ghost predicate NoHalfTurns(adj: Adjacency, q: int, m: int, d: Dist)
    requires Sound(adj) && 0 <= q < |adj| && m > 0
  {
    forall l: nat :: NoHalfTurnOn(adj, q, m, d, l)
  }

  /** What the heal does to one layer of the index. */
  lemma LayerSafe(adj: Adjacency, adj': Adjacency, q: int, m: int, d: Dist, l: nat)
    requires IsDist(d) && Sound(adj) && 0 <= q < |adj| && m > 0 && Healed(adj, adj', q, m, d) && Simple(LayerOf(adj, l))
    ensures Simple(LayerOf(adj', l)) <==> NoHalfTurnOn(adj, q, m, d, l)
    ensures Simple(LayerOf(adj', l)) ==>
              forall x :: x == q || IsolatedOn(LayerOf(adj, l), x) ==> IsolatedOn(LayerOf(adj', l), x)
    ensures Simple(LayerOf(adj', l)) ==>
              forall bound :: bound >= m && WellFormed(LayerOf(adj, l), bound) ==> WellFormed(LayerOf(adj', l), bound)
  {
    var w, region := WorkOf(adj, l, Tally(adj, q, m, d, l)), HealRegion(adj, q);
    RegionCovers(adj, q, l);
    HealSymmetricExactly(w, q, region, m, d);
    HealCapped(w, q, region, m, d);
    assert LayerOf(adj', l) == HealedWork(adj, q, m, d, l).g;
    if Simple(LayerOf(adj', l)) {
      forall x | x == q || IsolatedOn(w.g, x) ensures IsolatedOn(LayerOf(adj', l), x) {
        HealIsolates(w, q, region, m, d, x);
      }
    }
  }

  /**
   * One erasure: layers stay simple if and only if no turn leaves half an edge, and then no degree grows beyond
   * the cap, q is erased, and whatever was erased stays erased.
   */
  lemma EraseSafe(s: State, s': State, q: int, m: int, dim: nat, metric: Metric, t: HealingMetrics)
    requires IsMetric(metric) && Erases(s, s', q, m, dim, metric, t) && AllSimple(s.adjacency)
    ensures AllSimple(s'.adjacency) <==> NoHalfTurns(s.adjacency, q, m, NodeDist(metric, s'.data))
    ensures AllSimple(s'.adjacency) ==>
              && (forall bound :: bound >= m && AllWellFormed(s.adjacency, bound) ==> AllWellFormed(s'.adjacency, bound))
              && Erased(s', q, dim)
              && (forall x :: Erased(s, x, dim) ==> Erased(s', x, dim))
  {
    var d := NodeDist(metric, s'.data);
    NodeDistIsDist(metric, s'.data);
    forall l: nat ensures Simple(LayerOf(s'.adjacency, l)) <==> NoHalfTurnOn(s.adjacency, q, m, d, l) {
      assert Simple(LayerOf(s.adjacency, l));
      LayerSafe(s.adjacency, s'.adjacency, q, m, d, l);
    }
    if AllSimple(s'.adjacency) {
      KeepsErased(s, s', q, m, dim, metric, t);
      forall bound | bound >= m && AllWellFormed(s.adjacency, bound) ensures AllWellFormed(s'.adjacency, bound) {
        KeepsBound(s, s', q, m, dim, metric, t, bound);
      }
    }
  }

  lemma KeepsErased(s: State, s': State, q: int, m: int, dim: nat, metric: Metric, t: HealingMetrics)
    requires IsMetric(metric) && Erases(s, s', q, m, dim, metric, t)
    requires AllSimple(s.adjacency) && AllSimple(s'.adjacency)
    ensures Erased(s', q, dim) && forall x :: Erased(s, x, dim) ==> Erased(s', x, dim)
  {
    var d := NodeDist(metric, s'.data);
    NodeDistIsDist(metric, s'.data);
    forall x | x == q || Erased(s, x, dim) ensures Erased(s', x, dim) {
      forall l: nat ensures IsolatedOn(LayerOf(s'.adjacency, l), x) {
        assert Simple(LayerOf(s.adjacency, l)) && Simple(LayerOf(s'.adjacency, l));
        assert x != q ==> IsolatedOn(LayerOf(s.adjacency, l), x);
        LayerSafe(s.adjacency, s'.adjacency, q, m, d, l);
      }
    }
  }

  lemma KeepsBound(s: State, s': State, q: int, m: int, dim: nat, metric: Metric, t: HealingMetrics, bound: int)
    requires IsMetric(metric) && Erases(s, s', q, m, dim, metric, t)
    requires AllSimple(s'.adjacency) && bound >= m && AllWellFormed(s.adjacency, bound)
    ensures AllWellFormed(s'.adjacency, bound)
  {
    var d := NodeDist(metric, s'.data);
    NodeDistIsDist(metric, s'.data);
    forall l: nat ensures WellFormed(LayerOf(s'.adjacency, l), bound) {
      assert WellFormed(LayerOf(s.adjacency, l), bound) && Simple(LayerOf(s'.adjacency, l));
      LayerSafe(s.adjacency, s'.adjacency, q, m, d, l);
    }
  }

  /** Caps that the neighbours of q fit once it is gone rule half turns out. */
  lemma CapFitsWhole(adj: Adjacency, q: int, m: int, d: Dist)
    requires IsDist(d) && Sound(adj) && AllSimple(adj) && m > 0 && AllCapFits(adj, q, m)
    ensures NoHalfTurns(adj, q, m, d)
  {
    forall l: nat ensures NoHalfTurnOn(adj, q, m, d, l) {
      assert Simple(LayerOf(adj, l)) && CapFits(LayerOf(adj, l), q, m);
      CapFitsNoHalfTurn(WorkOf(adj, l, Tally(adj, q, m, d, l)), q, HealRegion(adj, q), m, d);
    }
  }

  // ----- runs -----------------------------------------------------------------------

  /** A call of `erase_node` that heals, or one that raises, possibly after the row has been overwritten. */
  datatype Call =
    | Heals(node: int, maxM: int, metrics: HealingMetrics)
    | Raises(node: int, maxM: int, wiped: bool)

  ghost predicate CallStep(s: State, c: Call, s': State, dim: nat, metric: Metric) {
    match c
    case Heals(node, maxM, metrics) => Erases(s, s', node, maxM, dim, metric, metrics)
    case Raises(node, _, wiped) =>
      if wiped then 0 <= node < |s.data| && s' == s.(data := s.data[node := Zeros(dim)]) else s' == s
  }

  ghost predicate Calls(states: seq<State>, calls: seq<Call>, dim: nat, metric: Metric) {
    && |states| == |calls| + 1
    && forall i :: 0 <= i < |calls| ==> CallStep(states[i], calls[i], states[i + 1], dim, metric)
  }

  /** A call that heals leaves no half edge. */
  ghost predicate LeavesNoHalf(s: State, c: Call, s': State, metric: Metric) {
    c.Heals? ==>
      && Sound(s.adjacency) && 0 <= c.node < |s.adjacency| && c.maxM > 0
      && NoHalfTurns(s.adjacency, c.node, c.maxM, NodeDist(metric, s'.data))
  }

  /** A sequence of calls of which none leaves half an edge. */
  ghost predicate IsRun(states: seq<State>, calls: seq<Call>, dim: nat, metric: Metric) {
    && Calls(states, calls, dim, metric)
    && forall i :: 0 <= i < |calls| ==> LeavesNoHalf(states[i], calls[i], states[i + 1], metric)
  }

  /** One call, whether it heals or raises. */
  lemma CallSafe(s: State, c: Call, s': State, dim: nat, metric: Metric)
    requires IsMetric(metric) && CallStep(s, c, s', dim, metric) && AllSimple(s.adjacency)
    ensures AllSimple(s'.adjacency) <==> LeavesNoHalf(s, c, s', metric)
    ensures AllSimple(s'.adjacency) ==>
              && (forall bound :: bound >= c.maxM && AllWellFormed(s.adjacency, bound) ==>
                    AllWellFormed(s'.adjacency, bound))
              && (c.Heals? ==> Erased(s', c.node, dim))
              && (forall x :: Erased(s, x, dim) ==> Erased(s', x, dim))
  {
    if c.Heals? {
      EraseSafe(s, s', c.node, c.maxM, dim, metric, c.metrics);
    }
  }

  lemma RunPrefix(states: seq<State>, calls: seq<Call>, k: nat, dim: nat, metric: Metric)
    requires IsRun(states, calls, dim, metric) && k <= |calls|
    ensures IsRun(states[..k + 1], calls[..k], dim, metric)
  {
  }

  /** After any run every layer is simple and every node erased on the way is still zero and edge-free. */
  lemma {:induction false} RunSafe(states: seq<State>, calls: seq<Call>, dim: nat, metric: Metric)
    requires IsMetric(metric) && IsRun(states, calls, dim, metric) && AllSimple(states[0].adjacency)
    ensures AllSimple(states[|calls|].adjacency)
    ensures forall i :: 0 <= i < |calls| && calls[i].Heals? ==> Erased(states[|calls|], calls[i].node, dim)
  {
    if calls != [] {
      var k := |calls| - 1;
      var init, c := calls[..k], calls[k];
      RunPrefix(states, calls, k, dim, metric);
      RunSafe(states[..k + 1], init, dim, metric);
      assert LeavesNoHalf(states[k], c, states[k + 1], metric);
      CallSafe(states[k], c, states[k + 1], dim, metric);
      forall i | 0 <= i < |calls| && calls[i].Heals? ensures Erased(states[|calls|], calls[i].node, dim) {
        if i < k {
          assert init[i] == calls[i];
          assert Erased(states[k], calls[i].node, dim);
        }
      }
    }
  }

  /** All states of a sequence of calls are simple if and only if none of the calls leaves half an edge. */
  lemma RunSimpleExactly(states: seq<State>, calls: seq<Call>, dim: nat, metric: Metric)
    requires IsMetric(metric) && Calls(states, calls, dim, metric) && AllSimple(states[0].adjacency)
    ensures (forall i :: 0 <= i < |states| ==> AllSimple(states[i].adjacency)) <==> IsRun(states, calls, dim, metric)
  {
    if IsRun(states, calls, dim, metric) {
      forall i | 0 <= i < |states| ensures AllSimple(states[i].adjacency) {
        RunPrefix(states, calls, i, dim, metric);
        RunSafe(states[..i + 1], calls[..i], dim, metric);
      }
    } else if forall i :: 0 <= i < |states| ==> AllSimple(states[i].adjacency) {
      forall i | 0 <= i < |calls| ensures LeavesNoHalf(states[i], calls[i], states[i + 1], metric) {
        CallSafe(states[i], calls[i], states[i + 1], dim, metric);
      }
    }
  }

  /** No degree ever exceeds both what the graph started with and every cap used. */
  lemma {:induction false} RunCapped(states: seq<State>, calls: seq<Call>, bound: int, dim: nat, metric: Metric)
    requires IsMetric(metric) && IsRun(states, calls, dim, metric) && AllWellFormed(states[0].adjacency, bound)
    requires forall i :: 0 <= i < |calls| ==> calls[i].maxM <= bound
    ensures AllWellFormed(states[|calls|].adjacency, bound)
  {
    if calls != [] {
      var k := |calls| - 1;
      RunPrefix(states, calls, k, dim, metric);
      RunCapped(states[..k + 1], calls[..k], bound, dim, metric);
      WellFormedSimple(states[k].adjacency, bound);
      assert LeavesNoHalf(states[k], calls[k], states[k + 1], metric);
      CallSafe(states[k], calls[k], states[k + 1], dim, metric);
    }
  }

  lemma WellFormedSimple(adj: Adjacency, m: int)
    requires AllWellFormed(adj, m)
    ensures AllSimple(adj)
    ensures forall q, cap :: 0 <= q < |adj| && m <= cap ==> AllCapFits(adj, q, cap)
  {
    forall l: nat ensures Simple(LayerOf(adj, l)) {
      assert WellFormed(LayerOf(adj, l), m);
    }
    forall q, cap, l: nat | 0 <= q < |adj| && m <= cap ensures CapFits(LayerOf(adj, l), q, cap) {
      assert WellFormed(LayerOf(adj, l), m);
    }
  }

  /** Caps that are at least m and never drop. */
  ghost predicate Rising(calls: seq<Call>, m: int) {
    && (forall i :: 0 <= i < |calls| ==> m <= calls[i].maxM)
    && (forall i, j :: 0 <= i < j < |calls| ==> calls[i].maxM <= calls[j].maxM)
  }

  /** Caps that start at the degrees of the graph and never drop leave no half edge, whatever is erased. */
  lemma RisingCapsFit(states: seq<State>, calls: seq<Call>, m: int, dim: nat, metric: Metric)
    requires IsMetric(metric) && Calls(states, calls, dim, metric) && AllWellFormed(states[0].adjacency, m)
    requires Rising(calls, m)
    ensures IsRun(states, calls, dim, metric)
  {
    var k := 0;
    while k < |calls|
      invariant 0 <= k <= |calls|
      invariant forall i :: 0 <= i < k ==> LeavesNoHalf(states[i], calls[i], states[i + 1], metric)
    {
      RisingNext(states, calls, k, m, dim, metric);
      k := k + 1;
    }
  }

  lemma RisingNext(states: seq<State>, calls: seq<Call>, k: nat, m: int, dim: nat, metric: Metric)
    requires IsMetric(metric) && Calls(states, calls, dim, metric) && AllWellFormed(states[0].adjacency, m)
    requires Rising(calls, m) && k < |calls|
    requires forall i :: 0 <= i < k ==> LeavesNoHalf(states[i], calls[i], states[i + 1], metric)
    ensures LeavesNoHalf(states[k], calls[k], states[k + 1], metric)
  {
    var cap := if k == 0 then m else calls[k - 1].maxM;
    StartWithin(states[0].adjacency, m, cap);
    RunTo(states, calls, k, dim, metric);
    RunCapped(states[..k + 1], calls[..k], cap, dim, metric);
    assert CallStep(states[k], calls[k], states[k + 1], dim, metric);
    CapLeavesNoHalf(states[k], calls[k], states[k + 1], cap, dim, metric);
  }

  lemma RunTo(states: seq<State>, calls: seq<Call>, k: nat, dim: nat, metric: Metric)
    requires Calls(states, calls, dim, metric) && k <= |calls|
    requires forall i :: 0 <= i < k ==> LeavesNoHalf(states[i], calls[i], states[i + 1], metric)
    ensures IsRun(states[..k + 1], calls[..k], dim, metric)
  {
  }

  /** A call whose cap no degree exceeds. */
  lemma CapLeavesNoHalf(s: State, c: Call, s': State, cap: int, dim: nat, metric: Metric)
    requires IsMetric(metric) && CallStep(s, c, s', dim, metric) && AllWellFormed(s.adjacency, cap) && cap <= c.maxM
    ensures LeavesNoHalf(s, c, s', metric)
  {
    if c.Heals? {
      WellFormedSimple(s.adjacency, cap);
      NodeDistIsDist(metric, s'.data);
      CapFitsWhole(s.adjacency, c.node, c.maxM, NodeDist(metric, s'.data));
    }
  }

  lemma StartWithin(adj: Adjacency, m: int, m': int)
    requires AllWellFormed(adj, m) && m <= m'
    ensures AllWellFormed(adj, m')
  {
    forall l: nat ensures WellFormed(LayerOf(adj, l), m') {
      assert WellFormed(LayerOf(adj, l), m);
    }
  }

  // ----- the entry point ------------------------------------------------------------

  /** The nodes that a sequence of calls has healed away. */
  ghost function Gone(calls: seq<Call>): (s: set<int>)
    ensures forall x :: x in s <==> exists i :: 0 <= i < |calls| && calls[i].Heals? && calls[i].node == x
  {
    if calls == [] then {}
    else
      var k := |calls| - 1;
      assert forall i :: 0 <= i < k ==> calls[..k][i] == calls[i];
      Gone(calls[..k]) + if calls[k].Heals? then {calls[k].node} else {}
  }

  /** The call heals the node that is the entry point. */
  ghost predicate Retires(s: State, c: Call) {
    c.Heals? && 0 <= c.node < |s.data| && c.node == s.entrypoint
  }

  /** One call: the entry point is a node healed away if and only if it was one and is kept, or its successor is one. */
  lemma EntryAfterCall(s: State, c: Call, s': State, gone: set<int>, dim: nat, metric: Metric)
    requires CallStep(s, c, s', dim, metric)
    ensures s'.entrypoint in gone + (if c.Heals? then {c.node} else {}) <==>
              if Retires(s, c) then RetiredEntry(c.node, c.node, |s.data|) in gone else s.entrypoint in gone
  {
  }

  /** No call after j retires the entry point. */
  ghost predicate LastRetirement(states: seq<State>, calls: seq<Call>, j: int) {
    && 0 <= j < |calls| < |states| && Retires(states[j], calls[j])
    && forall i :: j < i < |calls| ==> !Retires(states[i], calls[i])
  }

  /** The last time the entry point was retired, the row that replaced it had already been healed away. */
  ghost predicate BadSuccessor(states: seq<State>, calls: seq<Call>, j: int) {
    && LastRetirement(states, calls, j)
    && RetiredEntry(calls[j].node, calls[j].node, |states[j].data|) in Gone(calls[..j])
  }

  /** After any calls, on any layers, the entry point is a node healed away exactly in that case. */
  lemma {:induction false} EntryGoneExactly(states: seq<State>, calls: seq<Call>, dim: nat, metric: Metric)
    requires Calls(states, calls, dim, metric)
    ensures states[|calls|].entrypoint in Gone(calls) <==> exists j :: BadSuccessor(states, calls, j)
  {
    if calls != [] {
      var k := |calls| - 1;
      var before, init := states[..k + 1], calls[..k];
      assert Calls(before, init, dim, metric);
      EntryGoneExactly(before, init, dim, metric);
      assert CallStep(states[k], calls[k], states[k + 1], dim, metric);
      EntryAfterCall(states[k], calls[k], states[k + 1], Gone(init), dim, metric);
      if Retires(states[k], calls[k]) {
        RetiredLast(states, calls);
      } else {
        RetirementsKept(states, calls, before, init);
      }
    }
  }

  lemma RetiredLast(states: seq<State>, calls: seq<Call>)
    requires |states| == |calls| + 1 && calls != [] && Retires(states[|calls| - 1], calls[|calls| - 1])
    ensures var k := |calls| - 1;
            (exists j :: BadSuccessor(states, calls, j)) <==>
              RetiredEntry(calls[k].node, calls[k].node, |states[k].data|) in Gone(calls[..k])
  {
    var k := |calls| - 1;
    assert LastRetirement(states, calls, k);
    assert BadSuccessor(states, calls, k) <==>
             RetiredEntry(calls[k].node, calls[k].node, |states[k].data|) in Gone(calls[..k]);
    forall j | BadSuccessor(states, calls, j) ensures j == k {
      assert LastRetirement(states, calls, j);
    }
  }

  lemma RetirementsKept(states: seq<State>, calls: seq<Call>, before: seq<State>, init: seq<Call>)
    requires |states| == |calls| + 1 && calls != [] && !Retires(states[|calls| - 1], calls[|calls| - 1])
    requires before == states[..|calls|] && init == calls[..|calls| - 1]
    ensures (exists j :: BadSuccessor(states, calls, j)) <==> exists j :: BadSuccessor(before, init, j)
  {
    forall j ensures BadSuccessor(states, calls, j) <==> BadSuccessor(before, init, j) {
      if 0 <= j < |init| {
        assert init[..j] == calls[..j];
      }
      assert forall i :: 0 <= i < |init| ==> before[i] == states[i] && init[i] == calls[i];
    }
  }

  // ----- bookkeeping, stability and reachability on all layers ----------------------

  /** The tallies after 0, 1, ..., k layers. */
  ghost function Tallies(adj: Adjacency, q: int, m: int, d: Dist, k: nat): (ts: seq<HealingMetrics>)
    requires Sound(adj) && 0 <= q < |adj| && m > 0
    ensures |ts| == k + 1 && forall l :: 0 <= l <= k ==> ts[l] == Tally(adj, q, m, d, l)
  {
    seq(k + 1, (l: nat) => Tally(adj, q, m, d, l))
  }

  lemma TalliesBalance(adj: Adjacency, adj': Adjacency, q: int, m: int, d: Dist, k: nat)
    requires Sound(adj) && 0 <= q < |adj| && m > 0 && Healed(adj, adj', q, m, d)
    ensures var t := Tallies(adj, q, m, d, k)[k];
            Edges(adj', k) == Edges(adj, k) + t.added - t.removed && t.added >= 0 && t.removed >= 0
  {
    var ts := Tallies(adj, q, m, d, k);
    forall l | 0 <= l < k ensures Balanced(adj, adj', ts[l], ts[l + 1], l) {
      LayerBalanced(adj, adj', q, m, d, l);
    }
    EdgesBelow(adj, adj', ts);
  }

  lemma TalliesSettle(adj: Adjacency, q: int, m: int, d: Dist, top: nat, k: nat)
    requires Sound(adj) && 0 <= q < |adj| && m > 0 && k >= top && top == Height(adj, q, HealRegion(adj, q))
    ensures Tallies(adj, q, m, d, k)[k] == Tally(adj, q, m, d, top)
  {
    var ts := Tallies(adj, q, m, d, k);
    forall l | top <= l < k ensures ts[l + 1] == ts[l] {
      TallySame(adj, q, m, d, l);
    }
    SameFrom(ts, top, k);
  }

  /** Entries after = entries before + edges_added - edges_removed, whatever the adjacency looks like. */
  lemma EdgesConserved(s: State, s': State, q: int, m: int, dim: nat, metric: Metric, t: HealingMetrics, k: nat)
    requires Erases(s, s', q, m, dim, metric, t)
    requires k >= Height(s.adjacency, q, HealRegion(s.adjacency, q))
    ensures Edges(s'.adjacency, k) == Edges(s.adjacency, k) + t.added - t.removed
    ensures t.added >= 0 && t.removed >= 0
  {
    var d := NodeDist(metric, s'.data);
    TalliesBalance(s.adjacency, s'.adjacency, q, m, d, k);
    TalliesSettle(s.adjacency, q, m, d, Height(s.adjacency, q, HealRegion(s.adjacency, q)), k);
  }

  /** The entries of one layer change by exactly what the counters change by. */
  lemma LayerConserved(adj: Adjacency, q: int, m: int, d: Dist, l: nat)
    requires Sound(adj) && 0 <= q < |adj| && m > 0
    ensures var t, r := Tally(adj, q, m, d, l), HealedWork(adj, q, m, d, l);
            && SumLen(r.g) == SumLen(LayerOf(adj, l)) + (r.added - t.added) - (r.removed - t.removed)
            && r.added >= t.added && r.removed >= t.removed
  {
    RegionCovers(adj, q, l);
    var w := WorkOf(adj, l, Tally(adj, q, m, d, l));
    HealAccounts(w, q, HealRegion(adj, q), m, d);
  }

  /** Entries and counters after each layer move together. */
  ghost predicate Balanced(adj: Adjacency, adj': Adjacency, before: HealingMetrics, after: HealingMetrics, l: nat) {
    && SumLen(LayerOf(adj', l)) == SumLen(LayerOf(adj, l)) + (after.added - before.added) - (after.removed - before.removed)
    && after.added >= before.added && after.removed >= before.removed
  }

  lemma LayerBalanced(adj: Adjacency, adj': Adjacency, q: int, m: int, d: Dist, l: nat)
    requires Sound(adj) && 0 <= q < |adj| && m > 0 && Healed(adj, adj', q, m, d)
    ensures Balanced(adj, adj', Tally(adj, q, m, d, l), Tally(adj, q, m, d, l + 1), l)
  {
    LayerConserved(adj, q, m, d, l);
    assert LayerOf(adj', l) == HealedWork(adj, q, m, d, l).g;
    TallyNext(adj, q, m, d, l);
  }

  lemma {:induction false} EdgesBelow(adj: Adjacency, adj': Adjacency, ts: seq<HealingMetrics>)
    requires ts != [] && ts[0] == HealingMetrics(0, 0)
    requires forall l :: 0 <= l < |ts| - 1 ==> Balanced(adj, adj', ts[l], ts[l + 1], l)
    ensures var t, k := ts[|ts| - 1], |ts| - 1;
            Edges(adj', k) == Edges(adj, k) + t.added - t.removed && t.added >= 0 && t.removed >= 0
  {
    if |ts| > 1 {
      var k := |ts| - 1;
      EdgesBelow(adj, adj', ts[..k]);
      assert Balanced(adj, adj', ts[k - 1], ts[k - 1 + 1], k - 1);
    }
  }

  lemma TallyNext(adj: Adjacency, q: int, m: int, d: Dist, l: nat)
    requires Sound(adj) && 0 <= q < |adj| && m > 0
    ensures Tally(adj, q, m, d, l + 1)
         == HealingMetrics(HealedWork(adj, q, m, d, l).removed, HealedWork(adj, q, m, d, l).added)
  {
  }

  /** A layer above all lists of the region adds nothing to the tally. */
  lemma TallySame(adj: Adjacency, q: int, m: int, d: Dist, l: nat)
    requires Sound(adj) && 0 <= q < |adj| && m > 0 && l >= Height(adj, q, HealRegion(adj, q))
    ensures Tally(adj, q, m, d, l + 1) == Tally(adj, q, m, d, l)
  {
    var before := Tally(adj, q, m, d, l);
    var r := HealedWork(adj, q, m, d, l);
    assert r == WorkOf(adj, l, before) by {
      HealedEmpty(adj, q, m, d, l);
    }
    TallyNext(adj, q, m, d, l);
  }

  /** A sequence of tallies that no longer changes from some index on. */
  lemma {:induction false} SameFrom(ts: seq<HealingMetrics>, top: nat, k: nat)
    requires top <= k < |ts| && forall l :: top <= l < k ==> ts[l + 1] == ts[l]
    ensures ts[k] == ts[top]
  {
    if k > top {
      SameFrom(ts, top, k - 1);
      assert ts[k - 1 + 1] == ts[k - 1];
    }
  }

  /** On any adjacency: no list outgrows the cap, nothing outside the region changes, and q is out of the region. */
  lemma HealBounds(adj: Adjacency, adj': Adjacency, q: int, m: int, d: Dist, l: nat)
    requires Sound(adj) && 0 <= q < |adj| && m > 0 && Healed(adj, adj', q, m, d)
    ensures var g, h := LayerOf(adj, l), LayerOf(adj', l);
            && (forall k :: 0 <= k < |adj| ==> |h[k]| <= |g[k]| || |h[k]| <= m)
            && (forall k :: 0 <= k < |adj| && k !in HealRegion(adj, q) ==> adj'[k] == adj[k])
            && h[q] == []
            && (forall k :: 0 <= k < |adj| && k in HealRegion(adj, q) ==> q !in h[k])
            && (forall k, x :: 0 <= k < |adj| && x in h[k] && x !in g[k] ==> k in g[q] && x in g[q])
  {
    RegionCovers(adj, q, l);
    HealAccounts(WorkOf(adj, l, Tally(adj, q, m, d, l)), q, HealRegion(adj, q), m, d);
  }

  /** Stability of the rewiring on every layer. */
  lemma EraseStable(adj: Adjacency, adj': Adjacency, q: int, m: int, d: Dist, l: nat, u: int, v: int)
    requires IsDist(d) && Sound(adj) && 0 <= q < |adj| && m > 0 && Healed(adj, adj', q, m, d)
    requires Simple(LayerOf(adj, l)) && CapFits(LayerOf(adj, l), q, m)
    requires u in LayerOf(adj, l)[q] && v in LayerOf(adj, l)[q] && u != v
    ensures Settled(LayerOf(adj', l), u, v, m, d)
  {
    HealStable(WorkOf(adj, l, Tally(adj, q, m, d, l)), q, HealRegion(adj, q), m, d);
  }

  /** The spanning-rewire claim on every symmetric layer with room for the rewiring. */
  lemma EraseReaches(adj: Adjacency, adj': Adjacency, q: int, m: int, d: Dist, l: nat, a: int, b: int)
    requires Sound(adj) && 0 <= q < |adj| && m > 0 && Healed(adj, adj', q, m, d)
    requires Symmetric(LayerOf(adj, l)) && HasRoom(LayerOf(adj, l), q, m)
    requires a != q && b != q && Reach(LayerOf(adj, l), Nodes(LayerOf(adj, l)), a, b)
    ensures Reach(LayerOf(adj', l), Nodes(LayerOf(adj', l)) - {q}, a, b)
  {
    assert InRange(LayerOf(adj, l));
    HealPreservesReachability(WorkOf(adj, l, Tally(adj, q, m, d, l)), q, HealRegion(adj, q), m, d);
  }
}
