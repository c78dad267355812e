module HnswIndex {
  /** The in-memory index and its mutators: erasure, heal, prune. */

  import opened Seqs
  import opened LayerHeal
  import opened HealBookkeeping
  import opened Layers
  import opened Options

  type Vector = seq<real>
  type Metric = (Vector, Vector) -> real

  datatype Error = InvalidArgument | NotLoaded | OutOfRange | LockContention

  /** Which of its timed acquisitions an `erase_node` gets: that of the overwrite, and all those of the heal. */
  datatype Grant = Grant(wipe: bool, heal: bool)

  /** `HealingMetrics`, with the counters unbounded. */
  datatype HealingMetrics = HealingMetrics(removed: int, added: int)

  /** All that is assumed of the distance between two vectors. */
  ghost predicate IsMetric(metric: Metric) {
    forall a, b :: metric(a, b) == metric(b, a) && metric(a, b) >= 0.0
  }

  function NodeDist(metric: Metric, data: seq<Vector>): (d: Dist) {
    (a, b) => if 0 <= a < |data| && 0 <= b < |data| then metric(data[a], data[b]) else 0.0
  }

  /** The heal goes by the distance between the stored vectors. */
  lemma NodeDistMeasures(metric: Metric, data: seq<Vector>, a: int, b: int)
    requires 0 <= a < |data| && 0 <= b < |data|
    ensures NodeDist(metric, data)(a, b) == metric(data[a], data[b])
  {
  }

  function Zeros(dim: nat): (v: Vector)
    ensures |v| == dim && forall i :: 0 <= i < dim ==> v[i] == 0.0
  {
    seq(dim, i => 0.0)
  }

  /** `navigability_score` over a neighbour list. */
  function Score(list: seq<int>, node: int, n: int, d: Dist): (s: real)
    requires IsDist(d)
  {
    if list == [] then 0.0
    else
      var k := |list| - 1;
      Score(list[..k], node, n, d) + if 0 <= list[k] < n then 1.0 / (1.0 + d(node, list[k])) else 0.0
  }

  /** The swap test compares 1/(1+d) terms, which order the two distances the other way round. */
  lemma SwapScoreIsDistance(before: real, far: real, cand: real)
    requires far >= 0.0 && cand >= 0.0
    ensures before - 1.0 / (1.0 + far) + 1.0 / (1.0 + cand) > before <==> cand < far
  {
    var x, y := 1.0 / (1.0 + far), 1.0 / (1.0 + cand);
    assert x * (1.0 + far) == 1.0 && y * (1.0 + cand) == 1.0;
    assert x > 0.0 && y > 0.0;
    if cand < far {
      assert y * (1.0 + far) > 1.0;
      assert (y - x) * (1.0 + far) > 0.0;
    } else {
      assert x * (1.0 + cand) >= 1.0;
      assert (x - y) * (1.0 + cand) >= 0.0;
    }
  }

  lemma {:induction false} ScoreConcat(a: seq<int>, b: seq<int>, node: int, n: int, d: Dist)
    requires IsDist(d)
    ensures Score(a + b, node, n, d) == Score(a, node, n, d) + Score(b, node, n, d)
  {
    if b == [] {
      assert a + b == a;
    } else {
      var k := |b| - 1;
      assert (a + b)[..|a + b| - 1] == a + b[..k];
      ScoreConcat(a, b[..k], node, n, d);
    }
  }

  lemma ScoreOne(x: int, node: int, n: int, d: Dist)
    requires IsDist(d)
    ensures Score([x], node, n, d) == if 0 <= x < n then 1.0 / (1.0 + d(node, x)) else 0.0
  {
    assert [x][..0] == [];
  }

  /** The score that a swap is judged by is the score of the list with the candidate in place of the i-th neighbour. */
  lemma SwapScore(list: seq<int>, i: nat, cand: int, node: int, n: int, d: Dist)
    requires IsDist(d) && i < |list| && 0 <= list[i] < n && 0 <= cand < n
    ensures Score(EraseAt(list, i) + [cand], node, n, d)
         == Score(list, node, n, d) - 1.0 / (1.0 + d(node, list[i])) + 1.0 / (1.0 + d(node, cand))
  {
    var a, b, x := list[..i], list[i + 1..], list[i];
    assert list == a + [x] + b && EraseAt(list, i) == a + b;
    ScoreConcat(a + [x], b, node, n, d);
    ScoreConcat(a, [x], node, n, d);
    ScoreConcat(a + b, [cand], node, n, d);
    ScoreConcat(a, b, node, n, d);
    ScoreOne(x, node, n, d);
    ScoreOne(cand, node, n, d);
  }

  /** Only lists on `layer` differ. */
  ghost predicate OnlyLayer(a: Adjacency, b: Adjacency, layer: nat) {
    |b| == |a| && forall l: nat :: l != layer ==> LayerOf(b, l) == LayerOf(a, l)
  }

  lemma SoundAfter(a: Adjacency, b: Adjacency, layer: nat)
    requires Sound(a) && OnlyLayer(a, b, layer) && InRange(LayerOf(b, layer))
    ensures Sound(b)
  {
    forall l: nat ensures InRange(LayerOf(b, l)) {
      if l != layer {
        assert InRange(LayerOf(a, l));
      }
    }
  }

  /** Nodes that are neither u, v nor a neighbour of one of them keep all their lists. */
  ghost predicate Apart(a: Adjacency, b: Adjacency, layer: nat, u: int, v: int) {
    |b| == |a| && forall k :: 0 <= k < |a| ==>
      Near(LayerOf(a, layer), u, k) || Near(LayerOf(a, layer), v, k) || b[k] == a[k]
  }

  /** A change around u, then one around v among edges that were there before. */
  lemma ApartTwice(a: Adjacency, b: Adjacency, c: Adjacency, layer: nat, u: int, v: int)
    requires |a| == |b| == |c| && 0 <= u < |a| && 0 <= v < |a|
    requires forall k :: 0 <= k < |a| && k != u && k !in Slot(a, u, layer) ==> b[k] == a[k]
    requires forall k :: 0 <= k < |a| && k != v && k !in Slot(b, v, layer) ==> c[k] == b[k]
    requires forall x :: x in Slot(b, v, layer) ==> x in Slot(a, v, layer)
    ensures Apart(a, c, layer, u, v)
  {
  }

  function WorkOf(adj: Adjacency, layer: nat, metrics: HealingMetrics): (w: Work) {
    Work(LayerOf(adj, layer), metrics.removed, metrics.added)
  }

  /** The part of the index that erasure acts on. */
  datatype State = State(data: seq<Vector>, adjacency: Adjacency, entrypoint: int)

  /** What a successful `erase_node` does to the state. */
  ghost predicate Erases(s: State, s': State, q: int, m: int, dim: nat, metric: Metric, metrics: HealingMetrics) {
    && Sound(s.adjacency) && |s.data| == |s.adjacency| && 0 <= q < |s.data| && m > 0
    && s'.data == s.data[q := Zeros(dim)]
    && Healed(s.adjacency, s'.adjacency, q, m, NodeDist(metric, s'.data))
    && s'.entrypoint == RetiredEntry(s.entrypoint, q, |s.data|)
    && metrics == Tally(s.adjacency, q, m, NodeDist(metric, s'.data), Height(s.adjacency, q, HealRegion(s.adjacency, q)))
  }

  /** A layer with q removed from the lists of the first n nodes. */
  function Swept(g: Layer, q: int, n: nat): (h: Layer)
    requires n <= |g|
    ensures |h| == |g|
    ensures forall k :: 0 <= k < |g| ==> h[k] == if k < n then Without(g[k], q) else g[k]
  {
    seq(|g|, k requires 0 <= k < |g| => if k < n then Without(g[k], q) else g[k])
  }

  function Pruned(g: Layer, q: int, n: nat): (h: Layer)
    requires n == |g| && 0 <= q < n
  {
    Swept(g, q, n)[q := []]
  }

  lemma SweepNext(adj: Adjacency, before: Adjacency, after: Adjacency, q: int, n: nat, height: nat)
    requires n < |adj| == |before| && height == |before[n]|
    requires forall l: nat :: LayerOf(before, l) == Swept(LayerOf(adj, l), q, n)
    requires forall l: nat :: LayerOf(after, l) ==
               if l < height then LayerOf(before, l)[n := Without(LayerOf(before, l)[n], q)] else LayerOf(before, l)
    ensures forall l: nat :: LayerOf(after, l) == Swept(LayerOf(adj, l), q, n + 1)
  {
    forall l: nat ensures LayerOf(after, l) == Swept(LayerOf(adj, l), q, n + 1) {
      assert LayerOf(before, l)[n] == LayerOf(adj, l)[n];
      assert l >= height ==> LayerOf(before, l)[n] == [];
    }
  }

  /** The greatest number of layers among q and the nodes of the region. */
  function Height(adj: Adjacency, q: int, region: seq<int>): (top: nat)
    requires 0 <= q < |adj| && Labels(region, |adj|)
    ensures top >= |adj[q]|
    ensures forall i :: 0 <= i < |region| ==> |adj[region[i]]| <= top
  {
    if region == [] then |adj[q]|
    else
      var k := |region| - 1;
      var top := Height(adj, q, region[..k]);
      if |adj[region[k]]| > top then |adj[region[k]]| else top
  }

  /** Row i of n is left when row q goes. */
  ghost predicate OtherRow(i: int, q: int, n: int) {
    0 <= i < n && i != q
  }

  /** The entry point after the heal of q: the old one unless that was q, then the first other row, -1 without one. */
  ghost predicate EntryAfterHeal(entry: int, q: int, n: int, e: int) {
    && (entry != q ==> e == entry)
    && (entry == q ==> (e == -1 <==> n == 1))
    && (entry == q && n > 1 ==> OtherRow(e, q, n) && forall i :: OtherRow(i, q, n) ==> e <= i)
  }

  function RetiredEntry(entry: int, q: int, n: int): (e: int)
    requires 0 <= q < n
    ensures EntryAfterHeal(entry, q, n, e)
  {
    if entry != q then entry else if q != 0 then 0 else if n > 1 then 1 else -1
  }

  /** The counters after the first k layers have been healed. */
  ghost function Tally(adj: Adjacency, q: int, m: int, d: Dist, k: nat): (t: HealingMetrics)
    requires Sound(adj) && 0 <= q < |adj| && m > 0
    decreases k, 0
  {
    if k == 0 then HealingMetrics(0, 0)
    else
      var r := HealedWork(adj, q, m, d, k - 1);
      HealingMetrics(r.removed, r.added)
  }

  ghost function HealedWork(adj: Adjacency, q: int, m: int, d: Dist, layer: nat): (r: Work)
    requires Sound(adj) && 0 <= q < |adj| && m > 0
    decreases layer, 1
  {
    assert InRange(LayerOf(adj, layer));
    HealLayer(WorkOf(adj, layer, Tally(adj, q, m, d, layer)), q, HealRegion(adj, q), m, d)
  }

  ghost predicate HealedBelow(adj: Adjacency, adj': Adjacency, q: int, m: int, d: Dist, k: nat)
    requires Sound(adj) && 0 <= q < |adj| && m > 0
  {
    forall l: nat :: LayerOf(adj', l) == if l < k then HealedWork(adj, q, m, d, l).g else LayerOf(adj, l)
  }

  lemma HealedNext(adj: Adjacency, mid: Adjacency, adj': Adjacency, q: int, m: int, d: Dist, k: nat,
                   metrics: HealingMetrics)
    requires Sound(adj) && 0 <= q < |adj| && m > 0
    requires HealedBelow(adj, mid, q, m, d, k) && OnlyLayer(mid, adj', k)
    requires WorkOf(adj', k, metrics) == HealedWork(adj, q, m, d, k)
    ensures HealedBelow(adj, adj', q, m, d, k + 1) && metrics == Tally(adj, q, m, d, k + 1)
  {
  }

  /** Every layer has been healed, and nodes outside the region have not been touched at all. */
  ghost predicate Healed(adj: Adjacency, adj': Adjacency, q: int, m: int, d: Dist)
    requires Sound(adj) && 0 <= q < |adj| && m > 0
  {
    && |adj'| == |adj|
    && (forall l: nat :: LayerOf(adj', l) == HealedWork(adj, q, m, d, l).g)
    && (forall k :: 0 <= k < |adj| && k !in HealRegion(adj, q) ==> adj'[k] == adj[k])
  }

  /** Healing a layer on which the region has no edges changes nothing. */
  lemma HealEmpty(w: Work, q: int, region: seq<int>, m: int, d: Dist)
    requires InRange(w.g) && 0 <= q < |w.g| && Labels(region, |w.g|) && m > 0
    requires w.g[q] == [] && forall k :: 0 <= k < |w.g| && k in region ==> w.g[k] == []
    ensures HealLayer(w, q, region, m, d) == w
  {
    ClearAbsent(w, q);
    DropFromEmpty(w, region, q);
  }

  lemma {:induction false} DropFromEmpty(w: Work, nodes: seq<int>, x: int)
    requires Labels(nodes, |w.g|) && forall i :: 0 <= i < |nodes| ==> w.g[nodes[i]] == []
    ensures DropFrom(w, nodes, x) == w
  {
    if nodes != [] {
      DropFromEmpty(w, nodes[..|nodes| - 1], x);
      DropAbsent(w, nodes[|nodes| - 1], x);
    }
  }

  lemma HealedEmpty(adj: Adjacency, q: int, m: int, d: Dist, layer: nat)
    requires Sound(adj) && 0 <= q < |adj| && m > 0
    requires layer >= Height(adj, q, HealRegion(adj, q))
    ensures HealedWork(adj, q, m, d, layer) == WorkOf(adj, layer, Tally(adj, q, m, d, layer))
  {
    var region, g := HealRegion(adj, q), LayerOf(adj, layer);
    assert InRange(g);
    assert g[q] == [];
    forall k | 0 <= k < |g| && k in region ensures g[k] == [] {
      var i :| 0 <= i < |region| && region[i] == k;
    }
    HealEmpty(WorkOf(adj, layer, Tally(adj, q, m, d, layer)), q, region, m, d);
  }

  lemma HealedAbove(adj: Adjacency, adj': Adjacency, q: int, m: int, d: Dist, top: nat)
    requires Sound(adj) && 0 <= q < |adj| && m > 0 && |adj'| == |adj|
    requires top == Height(adj, q, HealRegion(adj, q)) && HealedBelow(adj, adj', q, m, d, top)
    requires forall k :: 0 <= k < |adj| && k !in HealRegion(adj, q) ==> adj'[k] == adj[k]
    ensures Healed(adj, adj', q, m, d)
  {
    forall l: nat ensures LayerOf(adj', l) == HealedWork(adj, q, m, d, l).g {
      if l >= top {
        HealedEmpty(adj, q, m, d, l);
      }
    }
  }

  lemma ListsEmpty(adj: Adjacency, adj': Adjacency, q: int, m: int, d: Dist)
    requires Sound(adj) && 0 <= q < |adj| && m > 0 && Healed(adj, adj', q, m, d)
    ensures SumLen(adj'[q]) == 0
    ensures forall l: nat :: LayerOf(adj', l)[q := []] == LayerOf(adj', l)
  {
    forall l: nat ensures LayerOf(adj', l)[q] == [] && LayerOf(adj', l)[q := []] == LayerOf(adj', l) {
      RegionCovers(adj, q, l);
      HealAccounts(WorkOf(adj, l, Tally(adj, q, m, d, l)), q, HealRegion(adj, q), m, d);
    }
    forall i | 0 <= i < |adj'[q]| ensures adj'[q][i] == [] {
      assert LayerOf(adj', i)[q] == adj'[q][i];
    }
    SumLenEmpty(adj'[q]);
  }

  lemma {:induction false} SumLenEmpty(lists: seq<seq<int>>)
    requires forall i :: 0 <= i < |lists| ==> lists[i] == []
    ensures SumLen(lists) == 0
  {
    if lists != [] {
      SumLenEmpty(lists[..|lists| - 1]);
    }
  }

  /** After the isolation of q its former neighbours only list nodes of the region. */
  lemma OrphansLocal(w: Work, q: int, region: seq<int>, d: Dist)
    requires Covers(w.g, q, region)
    ensures InRange(Isolate(w, q, region).g)
    ensures var os := Orphans(w.g[q], q, |w.g|);
            EndsIn(Sort(Pairs(os, |os|, d)), Elements(w.g[q]) - {q})
    ensures Local(Isolate(w, q, region).g, Elements(w.g[q]) - {q}, Elements(region))
  {
    var os := Orphans(w.g[q], q, |w.g|);
    IsolateInRange(w, q, region);
    IsolateConfined(w, q, region, Elements(w.g[q]) - {q});
    CandidateEnds(os, d);
    assert Elements(os) == Elements(w.g[q]) - {q};
  }

  lemma DropAbsent(w: Work, n: int, x: int)
    requires 0 <= n < |w.g| && w.g[n] == []
    ensures DropLabel(w, n, x) == w
  {
    assert w.g[n := []] == w.g;
  }

  lemma ClearAbsent(w: Work, n: int)
    requires 0 <= n < |w.g| && w.g[n] == []
    ensures ClearList(w, n) == w
  {
    assert w.g[n := []] == w.g;
  }

  lemma WithoutLabels(list: seq<int>, x: int, n: int)
    requires Labels(list, n)
    ensures Labels(Without(list, x), n)
  {
    forall i | 0 <= i < |Without(list, x)| ensures 0 <= Without(list, x)[i] < n {
      var y := Without(list, x)[i];
      assert y in Without(list, x) && y in list;
    }
  }

  class Index {
    const metric: Metric
    var dim: nat
    var data: seq<Vector>
    var adjacency: Adjacency
    var entrypoint: int

    /** What every loader and mutator establishes: one list per row, rows of length dim, labels in range. */
    ghost predicate Valid()
      reads this
    {
      && IsMetric(metric)
      && |adjacency| == |data|
      && (forall i :: 0 <= i < |data| ==> |data[i]| == dim)
      && Sound(adjacency)
    }

    lemma DistanceMeasures(a: int, b: int)
      requires 0 <= a < |data| && 0 <= b < |data|
      ensures Distance()(a, b) == metric(data[a], data[b])
    {
    }

    function Distance(): (d: Dist)
      reads this
    {
      NodeDist(metric, data)
    }

    lemma DistanceIsDist()
      requires Valid()
      ensures IsDist(Distance())
    {
    }

    constructor (metric: Metric)
      requires IsMetric(metric)
      ensures Valid() && this.metric == metric && data == [] && entrypoint == -1
    {
      this.metric := metric;
      dim, data, adjacency, entrypoint := 0, [], [], -1;
    }

    /** What `load_from_file` has read, checked and repaired replaces the index; `Snapshot` models the reading. */
    method Replace(newDim: nat, rows: seq<Vector>, lists: Adjacency, entry: int)
      requires Valid() && |rows| == |lists| && Sound(lists) && forall i :: 0 <= i < |rows| ==> |rows[i]| == newDim
      modifies this
      ensures Valid() && dim == newDim && data == rows && adjacency == lists && entrypoint == entry
    {
      dim, data, adjacency, entrypoint := newDim, rows, lists, entry;
    }

    method StoreList(n: int, layer: nat, list: seq<int>)
      requires Valid() && 0 <= n < |adjacency| && Labels(list, |adjacency|)
      modifies this`adjacency
      ensures Valid() && OnlyLayer(old(adjacency), adjacency, layer)
      ensures LayerOf(adjacency, layer) == LayerOf(old(adjacency), layer)[n := list]
      ensures forall k :: 0 <= k < |adjacency| && k != n ==> adjacency[k] == old(adjacency)[k]
      ensures |adjacency[n]| == if |old(adjacency)[n]| <= layer then layer + 1 else |old(adjacency)[n]|
    {
      SetSlotLayers(adjacency, n, layer, list);
      adjacency := SetSlot(adjacency, n, layer, list);
      assert InRange(LayerOf(old(adjacency), layer));
      SoundAfter(old(adjacency), adjacency, layer);
    }

    method NavigabilityScore(node: int, layer: nat) returns (score: real)
      requires Valid() && 0 <= node < |adjacency| && IsDist(Distance())
      ensures score == Score(Slot(adjacency, node, layer), node, |data|, Distance())
    {
      score := 0.0;
      var nbrs := Slot(adjacency, node, layer);
      var i := 0;
      while i < |nbrs|
        invariant 0 <= i <= |nbrs|
        invariant score == Score(nbrs[..i], node, |data|, Distance())
      {
        assert nbrs[..i + 1][..i] == nbrs[..i];
        if 0 <= nbrs[i] < |data| {
          score := score + 1.0 / (1.0 + Distance()(node, nbrs[i]));
        }
        i := i + 1;
      }
      assert nbrs[..i] == nbrs;
    }

    /** The scan for the farthest neighbour: the first one at the greatest distance. */
    method FarthestNeighbour(node: int, layer: nat) returns (farIdx: int, farDist: real)
      requires Valid() && 0 <= node < |adjacency| && Slot(adjacency, node, layer) != []
      ensures farIdx == Farthest(Slot(adjacency, node, layer), node, Distance())
      ensures farDist == Distance()(node, Slot(adjacency, node, layer)[farIdx])
    {
      var d, nbrs := Distance(), Slot(adjacency, node, layer);
      farIdx, farDist := 0, -1.0;
      var i := 0;
      while i < |nbrs|
        invariant 0 <= i <= |nbrs| && (i == 0 ==> farDist == -1.0)
        invariant i > 0 ==> 0 <= farIdx < i && farDist == d(node, nbrs[farIdx])
        invariant forall j :: 0 <= j < i ==> d(node, nbrs[j]) <= farDist
        invariant i > 0 ==> forall j :: 0 <= j < farIdx ==> d(node, nbrs[j]) < farDist
      {
        if d(node, nbrs[i]) > farDist {
          farDist, farIdx := d(node, nbrs[i]), i;
        }
        i := i + 1;
      }
    }

    /** `remove_label(adjacency_[n][layer], x)`, counted. */
    method RemoveLabel(n: int, layer: nat, x: int, metrics: HealingMetrics) returns (m: HealingMetrics)
      requires Valid() && 0 <= n < |adjacency|
      modifies this`adjacency
      ensures Valid() && OnlyLayer(old(adjacency), adjacency, layer)
      ensures WorkOf(adjacency, layer, m) == DropLabel(WorkOf(old(adjacency), layer, metrics), n, x)
      ensures forall k :: 0 <= k < |adjacency| && k != n ==> adjacency[k] == old(adjacency)[k]
    {
      var list := Slot(adjacency, n, layer);
      assert InRange(LayerOf(adjacency, layer)) && LayerOf(adjacency, layer)[n] == list;
      WithoutLabels(list, x, |adjacency|);
      StoreList(n, layer, Without(list, x));
      m := HealingMetrics(metrics.removed + |list| - |Without(list, x)|, metrics.added);
    }

    /** Erases one neighbour of `node` and cleans the reverse half-edge. */
    method EvictNeighbour(node: int, layer: nat, i: int, metrics: HealingMetrics) returns (m: HealingMetrics)
      requires Valid() && 0 <= node < |adjacency| && 0 <= i < |Slot(adjacency, node, layer)|
      requires InRange(WorkOf(adjacency, layer, metrics).g)
      modifies this`adjacency
      ensures Valid() && OnlyLayer(old(adjacency), adjacency, layer)
      ensures WorkOf(adjacency, layer, m) == Evict(WorkOf(old(adjacency), layer, metrics), node, i)
      ensures forall k :: 0 <= k < |adjacency| && k != node && k != Slot(old(adjacency), node, layer)[i] ==>
                adjacency[k] == old(adjacency)[k]
    {
      var nbrs := Slot(adjacency, node, layer);
      var far := nbrs[i];
      assert LayerOf(adjacency, layer)[node] == nbrs;
      StoreList(node, layer, EraseAt(nbrs, i));
      m := RemoveLabel(far, layer, node, HealingMetrics(metrics.removed + 1, metrics.added));
    }

    method EnsureCapacityFor(node: int, cand: int, layer: nat, maxM: int, metrics: HealingMetrics)
      returns (ok: bool, m: HealingMetrics)
      requires Valid() && 0 <= node < |adjacency| && 0 <= cand < |adjacency| && maxM > 0
      requires InRange(WorkOf(adjacency, layer, metrics).g)
      modifies this`adjacency
      ensures Valid() && OnlyLayer(old(adjacency), adjacency, layer)
      ensures (WorkOf(adjacency, layer, m), ok)
           == EnsureCapacity(WorkOf(old(adjacency), layer, metrics), node, cand, maxM, Distance())
      ensures forall k :: 0 <= k < |adjacency| && k != node && k !in Slot(old(adjacency), node, layer) ==>
                adjacency[k] == old(adjacency)[k]
    {
      DistanceIsDist();
      var d, nbrs := Distance(), Slot(adjacency, node, layer);
      assert LayerOf(adjacency, layer)[node] == nbrs;
      m := metrics;
      if cand in nbrs || |nbrs| < maxM {
        return true, m;
      }
      var farIdx, farDist := FarthestNeighbour(node, layer);
      var distCand := d(node, cand);
      var scoreBefore := NavigabilityScore(node, layer);
      var scoreAfter := scoreBefore - 1.0 / (1.0 + farDist) + 1.0 / (1.0 + distCand);
      SwapScoreIsDistance(scoreBefore, farDist, distCand);
      if distCand < farDist && scoreAfter > scoreBefore {
        m := EvictNeighbour(node, layer, farIdx, m);
        ok := true;
      } else {
        ok := false;
      }
    }

    method CommitHalfEdge(node: int, cand: int, layer: nat, maxM: int, metrics: HealingMetrics)
      returns (m: HealingMetrics)
      requires Valid() && 0 <= node < |adjacency| && 0 <= cand < |adjacency| && maxM > 0
      requires InRange(WorkOf(adjacency, layer, metrics).g)
      modifies this`adjacency
      ensures Valid() && OnlyLayer(old(adjacency), adjacency, layer)
      ensures WorkOf(adjacency, layer, m)
           == Commit(WorkOf(old(adjacency), layer, metrics), node, cand, maxM, Distance())
      ensures forall k :: 0 <= k < |adjacency| && k != node && k !in Slot(old(adjacency), node, layer) ==>
                adjacency[k] == old(adjacency)[k]
    {
      m := metrics;
      assert LayerOf(adjacency, layer)[node] == Slot(adjacency, node, layer);
      if cand in Slot(adjacency, node, layer) {
        return;
      }
      var ok;
      ok, m := EnsureCapacityFor(node, cand, layer, maxM, m);
      var nbrs := Slot(adjacency, node, layer);
      assert InRange(LayerOf(adjacency, layer)) && LayerOf(adjacency, layer)[node] == nbrs;
      if ok && cand !in nbrs && |nbrs| < maxM {
        StoreList(node, layer, nbrs + [cand]);
        m := HealingMetrics(m.removed, m.added + 1);
      }
    }

    /** Room at u for v, then room at v for u. */
    method ReserveBoth(u: int, v: int, layer: nat, maxM: int, metrics: HealingMetrics)
      returns (ok: bool, m: HealingMetrics)
      requires Valid() && 0 <= u < |adjacency| && 0 <= v < |adjacency| && maxM > 0
      requires InRange(WorkOf(adjacency, layer, metrics).g)
      modifies this`adjacency
      ensures Valid() && OnlyLayer(old(adjacency), adjacency, layer) && InRange(WorkOf(adjacency, layer, m).g)
      ensures var (w1, ok1) := EnsureCapacity(WorkOf(old(adjacency), layer, metrics), u, v, maxM, Distance());
              if !ok1 then !ok && WorkOf(adjacency, layer, m) == w1
              else InRange(w1.g) && (WorkOf(adjacency, layer, m), ok) == EnsureCapacity(w1, v, u, maxM, Distance())
      ensures forall k, x :: 0 <= k < |adjacency| && x in Slot(adjacency, k, layer) ==> x in Slot(old(adjacency), k, layer)
      ensures Apart(old(adjacency), adjacency, layer, u, v)
    {
      ghost var a, d := adjacency, Distance();
      CapacityStep(WorkOf(a, layer, metrics), u, v, maxM, d);
      ok, m := EnsureCapacityFor(u, v, layer, maxM, metrics);
      ghost var b := adjacency;
      assert forall k :: 0 <= k < |a| ==> LayerOf(a, layer)[k] == Slot(a, k, layer);
      assert forall k :: 0 <= k < |a| ==> LayerOf(b, layer)[k] == Slot(b, k, layer);
      if ok {
        CapacityStep(WorkOf(b, layer, m), v, u, maxM, d);
        ok, m := EnsureCapacityFor(v, u, layer, maxM, m);
        assert forall k :: 0 <= k < |a| ==> LayerOf(adjacency, layer)[k] == Slot(adjacency, k, layer);
      }
      ApartTwice(a, b, adjacency, layer, u, v);
    }

    method TryInsertHealedEdge(u: int, v: int, layer: nat, maxM: int, metrics: HealingMetrics)
      returns (m: HealingMetrics)
      requires Valid() && maxM > 0 && InRange(WorkOf(adjacency, layer, metrics).g)
      modifies this`adjacency
      ensures Valid() && OnlyLayer(old(adjacency), adjacency, layer)
      ensures WorkOf(adjacency, layer, m)
           == TryInsert(WorkOf(old(adjacency), layer, metrics), u, v, maxM, Distance())
      ensures Apart(old(adjacency), adjacency, layer, u, v)
    {
      m := metrics;
      if u == v || !(0 <= u < |data| && 0 <= v < |data|) {
        return;
      }
      var uHas, vHas := v in Slot(adjacency, u, layer), u in Slot(adjacency, v, layer);
      if uHas && vHas {
        return;
      }
      ghost var w := WorkOf(adjacency, layer, m);
      if !uHas && !vHas {
        var ok;
        ok, m := ReserveBoth(u, v, layer, maxM, m);
        if !ok {
          return;
        }
      }
      label reserved:
      ghost var w1 := WorkOf(adjacency, layer, m);
      CommitStep(w1, u, v, maxM, Distance());
      if !uHas {
        m := CommitHalfEdge(u, v, layer, maxM, m);
      }
      if !vHas {
        m := CommitHalfEdge(v, u, layer, maxM, m);
      }
    }

    /** The distinct former neighbours of q on a layer. */
    method CollectOrphans(q: int, layer: nat) returns (orphans: seq<int>)
      requires Valid() && 0 <= q < |adjacency|
      ensures orphans == Orphans(Slot(adjacency, q, layer), q, |adjacency|)
    {
      var list := Slot(adjacency, q, layer);
      orphans := [];
      var i := 0;
      while i < |list|
        invariant 0 <= i <= |list|
        invariant orphans == Orphans(list[..i], q, |adjacency|)
      {
        var u := list[i];
        assert list[..i + 1][..i] == list[..i];
        if u != q && 0 <= u < |data| && u !in orphans {
          orphans := orphans + [u];
        }
        i := i + 1;
      }
      assert list[..i] == list;
    }

    /** `remove_label` of q on each listed node other than q that is present on the layer. */
    method RemoveFromAll(nodes: seq<int>, q: int, layer: nat, metrics: HealingMetrics) returns (m: HealingMetrics)
      requires Valid() && Labels(nodes, |adjacency|)
      modifies this`adjacency
      ensures Valid() && OnlyLayer(old(adjacency), adjacency, layer)
      ensures WorkOf(adjacency, layer, m) == DropFrom(WorkOf(old(adjacency), layer, metrics), nodes, q)
      ensures forall k :: 0 <= k < |adjacency| && k !in nodes ==> adjacency[k] == old(adjacency)[k]
    {
      ghost var w := WorkOf(adjacency, layer, metrics);
      m := metrics;
      var i := 0;
      while i < |nodes|
        invariant 0 <= i <= |nodes|
        invariant Valid() && OnlyLayer(old(adjacency), adjacency, layer)
        invariant WorkOf(adjacency, layer, m) == DropFrom(w, nodes[..i], q)
        invariant forall k :: 0 <= k < |adjacency| && k !in nodes ==> adjacency[k] == old(adjacency)[k]
      {
        var v := nodes[i];
        assert nodes[..i + 1][..i] == nodes[..i];
        if v != q {
          assert LayerOf(adjacency, layer)[v] == Slot(adjacency, v, layer);
          if layer < |adjacency[v]| {
            m := RemoveLabel(v, layer, q, m);
          } else {
            DropAbsent(WorkOf(adjacency, layer, m), v, q);
          }
        }
        i := i + 1;
      }
      assert nodes[..i] == nodes;
    }

    method IsolateNode(q: int, layer: nat, orphans: seq<int>, region: seq<int>, metrics: HealingMetrics)
      returns (m: HealingMetrics)
      requires Valid() && 0 <= q < |adjacency| && Labels(region, |adjacency|)
      requires orphans == Orphans(Slot(adjacency, q, layer), q, |adjacency|)
      modifies this`adjacency
      ensures Valid() && OnlyLayer(old(adjacency), adjacency, layer)
      ensures WorkOf(adjacency, layer, m) == Isolate(WorkOf(old(adjacency), layer, metrics), q, region)
      ensures forall k :: 0 <= k < |adjacency| && k !in orphans && k !in region && k != q ==>
                adjacency[k] == old(adjacency)[k]
    {
      m := RemoveFromAll(orphans, q, layer, metrics);
      m := ClearSlot(q, layer, m);
      m := RemoveFromAll(region, q, layer, m);
    }

    method ClearSlot(q: int, layer: nat, metrics: HealingMetrics) returns (m: HealingMetrics)
      requires Valid() && 0 <= q < |adjacency|
      modifies this`adjacency
      ensures Valid() && OnlyLayer(old(adjacency), adjacency, layer)
      ensures WorkOf(adjacency, layer, m) == ClearList(WorkOf(old(adjacency), layer, metrics), q)
      ensures forall k :: 0 <= k < |adjacency| && k != q ==> adjacency[k] == old(adjacency)[k]
    {
      m := metrics;
      assert LayerOf(adjacency, layer)[q] == Slot(adjacency, q, layer);
      if layer < |adjacency[q]| {
        m := HealingMetrics(m.removed + |adjacency[q][layer]|, m.added);
        StoreList(q, layer, []);
      } else {
        ClearAbsent(WorkOf(adjacency, layer, m), q);
      }
    }

    method BuildCandidates(orphans: seq<int>) returns (candidates: seq<Candidate>)
      requires Valid()
      ensures candidates == Sort(Pairs(orphans, |orphans|, Distance()))
    {
      var pairs := BuildPairs(orphans);
      candidates := Sort(pairs);
    }

    method BuildPairs(orphans: seq<int>) returns (candidates: seq<Candidate>)
      requires Valid()
      ensures candidates == Pairs(orphans, |orphans|, Distance())
    {
      ghost var d := Distance();
      candidates := [];
      var i := 0;
      while i < |orphans|
        invariant 0 <= i <= |orphans|
        invariant candidates == Pairs(orphans, i, d)
      {
        var row := BuildRow(orphans, i);
        candidates := candidates + row;
        i := i + 1;
      }
    }

    /** The inner loop: the pairs whose first member is orphan i. */
    method BuildRow(orphans: seq<int>, i: nat) returns (row: seq<Candidate>)
      requires Valid() && i < |orphans|
      ensures row == PairRow(orphans, i, |orphans|, Distance())
    {
      var d, j := Distance(), i + 1;
      row := [];
      while j < |orphans|
        invariant i < j <= |orphans| && row == PairRow(orphans, i, j, d)
      {
        row := row + [Candidate(orphans[i], orphans[j], d(orphans[i], orphans[j]))];
        j := j + 1;
      }
    }

    /** The body of the layer loop of `heal_graph_structure`. */
    method HealOneLayer(q: int, layer: nat, region: seq<int>, maxM: int, metrics: HealingMetrics)
      returns (m: HealingMetrics)
      requires Valid() && maxM > 0 && Covers(LayerOf(adjacency, layer), q, region)
      modifies this`adjacency
      ensures Valid() && OnlyLayer(old(adjacency), adjacency, layer)
      ensures WorkOf(adjacency, layer, m)
           == HealLayer(WorkOf(old(adjacency), layer, metrics), q, region, maxM, Distance())
      ensures forall k :: 0 <= k < |adjacency| && k !in region ==> adjacency[k] == old(adjacency)[k]
    {
      ghost var w := WorkOf(adjacency, layer, metrics);
      ghost var os, rs := Elements(w.g[q]) - {q}, Elements(region);
      var orphans := CollectOrphans(q, layer);
      m := IsolateNode(q, layer, orphans, region, metrics);
      if |orphans| < 2 {
        return;
      }
      var candidates := BuildCandidates(orphans);
      OrphansLocal(w, q, region, Distance());
      m := InsertCandidates(candidates, layer, maxM, m, os, rs);
    }

    method InsertCandidates(candidates: seq<Candidate>, layer: nat, maxM: int, metrics: HealingMetrics,
                            ghost os: set<int>, ghost region: set<int>)
      returns (m: HealingMetrics)
      requires Valid() && maxM > 0 && InRange(WorkOf(adjacency, layer, metrics).g)
      requires EndsIn(candidates, os) && Local(LayerOf(adjacency, layer), os, region)
      modifies this`adjacency
      ensures Valid() && OnlyLayer(old(adjacency), adjacency, layer)
      ensures WorkOf(adjacency, layer, m)
           == TryAll(WorkOf(old(adjacency), layer, metrics), candidates, maxM, Distance())
      ensures forall k :: 0 <= k < |adjacency| && k !in region ==> adjacency[k] == old(adjacency)[k]
    {
      ghost var w := WorkOf(adjacency, layer, metrics);
      m := metrics;
      var i := 0;
      while i < |candidates|
        invariant 0 <= i <= |candidates|
        invariant Valid() && OnlyLayer(old(adjacency), adjacency, layer)
        invariant WorkOf(adjacency, layer, m) == TryAll(w, candidates[..i], maxM, Distance())
        invariant forall k :: 0 <= k < |adjacency| && k !in region ==> adjacency[k] == old(adjacency)[k]
      {
        var c := candidates[i];
        assert candidates[..i + 1][..i] == candidates[..i];
        ghost var g := LayerOf(adjacency, layer);
        TryAllConfined(w, candidates[..i], maxM, Distance(), os, region);
        ConfinedLocal(w.g, g, os, region);
        assert c.u in os && c.w in os;
        assert forall k {:trigger Near(g, c.u, k)} {:trigger Near(g, c.w, k)} ::
            0 <= k < |g| && k !in region ==> !Near(g, c.u, k) && !Near(g, c.w, k);
        m := TryInsertHealedEdge(c.u, c.w, layer, maxM, m);
        i := i + 1;
      }
      assert candidates[..i] == candidates;
    }

    // ----- the heal region --------------------------------------------------------

    method AddNeighbours(region0: seq<int>, lists: seq<seq<int>>) returns (region: seq<int>)
      requires Valid()
      ensures region == AddLayers(region0, lists, |lists|, |adjacency|)
    {
      region := region0;
      var i := 0;
      while i < |lists|
        invariant 0 <= i <= |lists|
        invariant region == AddLayers(region0, lists, i, |adjacency|)
      {
        AddLayersNext(region0, lists, i, |adjacency|);
        region := AddListTo(region, lists[i]);
        i := i + 1;
      }
    }

    method AddListTo(region0: seq<int>, list: seq<int>) returns (region: seq<int>)
      requires Valid()
      ensures region == AddList(region0, list, |adjacency|)
    {
      region := region0;
      var j := 0;
      while j < |list|
        invariant 0 <= j <= |list|
        invariant region == AddList(region0, list[..j], |adjacency|)
      {
        assert list[..j + 1][..j] == list[..j];
        if 0 <= list[j] < |data| && list[j] !in region {
          region := region + [list[j]];
        }
        j := j + 1;
      }
      assert list[..j] == list;
    }

    method CollectHealRegion(q: int) returns (region: seq<int>)
      requires Valid() && 0 <= q < |adjacency|
      ensures region == HealRegion(adjacency, q)
    {
      region := AddNeighbours([q], adjacency[q]);
      var hop := region;
      assert hop == OneHop(adjacency, q);
      var i := 1;
      while i < |hop|
        invariant 1 <= i <= |hop|
        invariant region == AddHops(adjacency, hop, hop, i)
      {
        region := AddNeighbours(region, adjacency[hop[i]]);
        i := i + 1;
      }
    }

    /** The greatest number of layers of a node of the region. */
    method TopLayer(q: int, region: seq<int>) returns (top: nat)
      requires Valid() && 0 <= q < |adjacency| && Labels(region, |adjacency|)
      ensures top == Height(adjacency, q, region)
    {
      top := |adjacency[q]|;
      var i := 0;
      while i < |region|
        invariant 0 <= i <= |region|
        invariant top == Height(adjacency, q, region[..i])
      {
        assert region[..i + 1][..i] == region[..i];
        if |adjacency[region[i]]| > top {
          top := |adjacency[region[i]]|;
        }
        i := i + 1;
      }
      assert region[..i] == region;
    }

    /** The last sweep of the heal over whatever q still lists. */
    method ClearAllLists(q: int, metrics: HealingMetrics) returns (m: HealingMetrics)
      requires Valid() && 0 <= q < |adjacency|
      modifies this`adjacency
      ensures Valid() && |adjacency| == |old(adjacency)|
      ensures forall l: nat :: LayerOf(adjacency, l) == LayerOf(old(adjacency), l)[q := []]
      ensures m == HealingMetrics(metrics.removed + SumLen(old(adjacency)[q]), metrics.added)
      ensures forall k :: 0 <= k < |adjacency| && k != q ==> adjacency[k] == old(adjacency)[k]
    {
      ghost var lists := adjacency[q];
      m := metrics;
      var i := 0;
      while i < |adjacency[q]|
        invariant Valid() && |adjacency| == |old(adjacency)|
        invariant |adjacency[q]| == |lists| && 0 <= i <= |lists|
        invariant forall l: nat :: LayerOf(adjacency, l) ==
                    if l < i then LayerOf(old(adjacency), l)[q := []] else LayerOf(old(adjacency), l)
        invariant m == HealingMetrics(metrics.removed + SumLen(lists[..i]), metrics.added)
        invariant forall k :: 0 <= k < |adjacency| && k != q ==> adjacency[k] == old(adjacency)[k]
        decreases |lists| - i
      {
        assert LayerOf(adjacency, i)[q] == adjacency[q][i];
        assert LayerOf(old(adjacency), i)[q] == lists[i];
        assert lists[..i + 1][..i] == lists[..i];
        if adjacency[q][i] != [] {
          m := HealingMetrics(m.removed + |adjacency[q][i]|, m.added);
          StoreList(q, i, []);
        } else {
          assert LayerOf(adjacency, i)[q := []] == LayerOf(adjacency, i);
        }
        i := i + 1;
      }
      assert lists[..i] == lists;
      forall l: nat ensures LayerOf(adjacency, l) == LayerOf(old(adjacency), l)[q := []] {
        if l >= i {
          assert LayerOf(old(adjacency), l)[q] == [];
          assert LayerOf(old(adjacency), l)[q := []] == LayerOf(old(adjacency), l);
        }
      }
    }

    /** Picks the first other node when the entry point is the deleted one. */
    method RetireEntrypoint(q: int)
      requires 0 <= q < |data|
      modifies this`entrypoint
      ensures entrypoint == RetiredEntry(old(entrypoint), q, |data|)
      ensures EntryAfterHeal(old(entrypoint), q, |data|, entrypoint)
    {
      if entrypoint == q {
        entrypoint := -1;
        var i := 0;
        while i < |data|
          invariant 0 <= i <= |data|
          invariant entrypoint == -1 && (i == 0 || (i == 1 && q == 0))
        {
          if i != q {
            entrypoint := i;
            break;
          }
          i := i + 1;
        }
      }
    }

    // ----- heal and erase ---------------------------------------------------------

    /**
     * `heal_graph_structure`, for a region that does not change while its locks are taken. Nothing has been
     * written when one of the acquisitions times out.
     */
    method HealGraphStructure(q: nat, maxM: int, granted: bool) returns (r: Result<HealingMetrics, Error>)
      requires Valid()
      modifies this`adjacency, this`entrypoint
      ensures Valid()
      ensures maxM <= 0 ==> r == Err(InvalidArgument)
      ensures maxM > 0 && data == [] ==> r == Err(NotLoaded)
      ensures maxM > 0 && data != [] && q >= |data| ==> r == Err(OutOfRange)
      ensures maxM > 0 && q < |data| && !granted ==> r == Err(LockContention)
      ensures r.Err? ==> unchanged(this)
      ensures maxM > 0 && q < |data| && granted ==>
                && Healed(old(adjacency), adjacency, q, maxM, Distance())
                && entrypoint == RetiredEntry(old(entrypoint), q, |data|)
                && EntryAfterHeal(old(entrypoint), q, |data|, entrypoint)
                && var top := Height(old(adjacency), q, HealRegion(old(adjacency), q));
                   r == Ok(Tally(old(adjacency), q, maxM, Distance(), top))
    {
      if maxM <= 0 {
        return Err(InvalidArgument);
      }
      if data == [] {
        return Err(NotLoaded);
      }
      if q >= |data| {
        return Err(OutOfRange);
      }
      if !granted {
        return Err(LockContention);
      }
      var metrics := HealLayers(q, maxM);
      RetireEntrypoint(q);
      r := Ok(metrics);
    }

    /** What happens to the lists once the locks are held. */
    method HealLayers(q: nat, maxM: int) returns (metrics: HealingMetrics)
      requires Valid() && q < |data| && maxM > 0
      modifies this`adjacency
      ensures Valid() && Healed(old(adjacency), adjacency, q, maxM, Distance())
      ensures metrics == Tally(old(adjacency), q, maxM, Distance(), Height(old(adjacency), q, HealRegion(old(adjacency), q)))
    {
      var region := CollectHealRegion(q);
      var top := TopLayer(q, region);
      metrics := HealAllLayers(q, region, top, maxM);
      ListsEmpty(old(adjacency), adjacency, q, maxM, Distance());
      metrics := ClearAllLists(q, metrics);
    }

    /** One turn of the layer loop, relative to the adjacency `adj0` the loop started from. */
    method HealNextLayer(q: nat, layer: nat, region: seq<int>, maxM: int, metrics: HealingMetrics,
                         ghost adj0: Adjacency)
      returns (m: HealingMetrics)
      requires Valid() && Sound(adj0) && q < |adj0| == |adjacency| && maxM > 0 && region == HealRegion(adj0, q)
      requires HealedBelow(adj0, adjacency, q, maxM, Distance(), layer)
      requires metrics == Tally(adj0, q, maxM, Distance(), layer)
      modifies this`adjacency
      ensures Valid() && HealedBelow(adj0, adjacency, q, maxM, Distance(), layer + 1)
      ensures m == Tally(adj0, q, maxM, Distance(), layer + 1)
      ensures |adjacency| == |old(adjacency)|
      ensures forall k :: 0 <= k < |adjacency| && k !in region ==> adjacency[k] == old(adjacency)[k]
    {
      RegionCovers(adj0, q, layer);
      m := HealOneLayer(q, layer, region, maxM, metrics);
      HealedNext(adj0, old(adjacency), adjacency, q, maxM, Distance(), layer, m);
    }

    method HealAllLayers(q: nat, region: seq<int>, top: nat, maxM: int) returns (metrics: HealingMetrics)
      requires Valid() && q < |adjacency| && maxM > 0
      requires region == HealRegion(adjacency, q) && top == Height(adjacency, q, region)
      modifies this`adjacency
      ensures Valid() && Healed(old(adjacency), adjacency, q, maxM, Distance())
      ensures metrics == Tally(old(adjacency), q, maxM, Distance(), top)
    {
      metrics := HealingMetrics(0, 0);
      var layer := 0;
      while layer < top
        invariant 0 <= layer <= top
        invariant Valid() && |adjacency| == |old(adjacency)|
        invariant HealedBelow(old(adjacency), adjacency, q, maxM, Distance(), layer)
        invariant metrics == Tally(old(adjacency), q, maxM, Distance(), layer)
        invariant forall k :: 0 <= k < |adjacency| && k !in region ==> adjacency[k] == old(adjacency)[k]
      {
        metrics := HealNextLayer(q, layer, region, maxM, metrics, old(adjacency));
        layer := layer + 1;
      }
      HealedAbove(old(adjacency), adjacency, q, maxM, Distance(), top);
    }

    /** `ensure_node`. */
    method EnsureNode(node: int) returns (r: Result<(), Error>)
      ensures r == if data == [] then Err(NotLoaded) else if 0 <= node < |data| then Ok(()) else Err(OutOfRange)
    {
      if data == [] {
        return Err(NotLoaded);
      }
      if node < 0 || node >= |data| {
        return Err(OutOfRange);
      }
      r := Ok(());
    }

    method OverwriteVector(node: int, granted: bool) returns (r: Result<(), Error>)
      requires Valid()
      modifies this`data
      ensures Valid()
      ensures r == if old(data) == [] then Err(NotLoaded)
                   else if !(0 <= node < |old(data)|) then Err(OutOfRange)
                   else if !granted then Err(LockContention) else Ok(())
      ensures data == if r.Ok? then old(data)[node := Zeros(dim)] else old(data)
    {
      r := EnsureNode(node);
      if r.Ok? {
        if !granted {
          return Err(LockContention);
        }
        data := data[node := Zeros(dim)];
      }
    }

    /**
     * `erase_node`: zero the row, then heal. With a bad max_m, or when the heal does not get its locks, the
     * row is already gone when the heal refuses.
     */
    method EraseNode(node: int, maxM: int, locks: Grant) returns (r: Result<HealingMetrics, Error>)
      requires Valid()
      modifies this`data, this`adjacency, this`entrypoint
      ensures Valid()
      ensures old(data) == [] ==> r == Err(NotLoaded) && unchanged(this)
      ensures old(data) != [] && !(0 <= node < |old(data)|) ==> r == Err(OutOfRange) && unchanged(this)
      ensures 0 <= node < |old(data)| && !locks.wipe ==> r == Err(LockContention) && unchanged(this)
      ensures 0 <= node < |old(data)| && locks.wipe && (maxM <= 0 || !locks.heal) ==>
                && r == Err(if maxM <= 0 then InvalidArgument else LockContention)
                && data == old(data)[node := Zeros(dim)]
                && adjacency == old(adjacency) && entrypoint == old(entrypoint)
      ensures 0 <= node < |old(data)| && locks.wipe && locks.heal && maxM > 0 ==>
                && r.Ok?
                && Erases(State(old(data), old(adjacency), old(entrypoint)), State(data, adjacency, entrypoint),
                          node, maxM, dim, metric, r.value)
                && data == old(data)[node := Zeros(dim)]
                && EntryAfterHeal(old(entrypoint), node, |data|, entrypoint)
    {
      var e := OverwriteVector(node, locks.wipe);
      if e.Err? {
        return Err(e.error);
      }
      r := HealGraphStructure(node, maxM, locks.heal);
    }

    /** `prune_adjacency`: a global sweep, without rewiring. */
    method PruneAdjacency(node: int, granted: bool) returns (r: Result<(), Error>)
      requires Valid()
      modifies this`adjacency
      ensures Valid()
      ensures r == if data == [] then Err(NotLoaded)
                   else if !(0 <= node < |data|) then Err(OutOfRange)
                   else if !granted then Err(LockContention) else Ok(())
      ensures r.Err? ==> unchanged(this)
      ensures r.Ok? ==> forall l: nat :: LayerOf(adjacency, l) == Pruned(LayerOf(old(adjacency), l), node, |data|)
      ensures r.Ok? ==> forall l: nat, k ::
                0 <= k < |data| ==>
                  LayerOf(adjacency, l)[k] == if k == node then [] else Without(LayerOf(old(adjacency), l)[k], node)
    {
      r := EnsureNode(node);
      if r.Err? {
        return;
      }
      if !granted {
        return Err(LockContention);
      }
      var n := 0;
      while n < |data|
        invariant 0 <= n <= |data|
        invariant Valid()
        invariant forall l: nat :: LayerOf(adjacency, l) == Swept(LayerOf(old(adjacency), l), node, n)
      {
        ghost var before := adjacency;
        var l := 0;
        while l < |adjacency[n]|
          invariant Valid() && 0 <= l <= |adjacency[n]|
          invariant forall i: nat :: LayerOf(adjacency, i) ==
                      if i < l then LayerOf(before, i)[n := Without(LayerOf(before, i)[n], node)] else LayerOf(before, i)
          invariant |adjacency[n]| == |before[n]|
        {
          var list := adjacency[n][l];
          assert InRange(LayerOf(adjacency, l)) && LayerOf(adjacency, l)[n] == list;
          WithoutLabels(list, node, |adjacency|);
          StoreList(n, l, Without(list, node));
          l := l + 1;
        }
        SweepNext(old(adjacency), before, adjacency, node, n, l);
        n := n + 1;
      }
      ghost var swept := adjacency;
      var _ := ClearAllLists(node, HealingMetrics(0, 0));
    }

    /** `set_neighbors`: validates the labels and nothing else; the layer slot exists even when it refuses. */
    method SetNeighbors(node: int, layer: int, neighbors: seq<int>, granted: bool) returns (r: Result<(), Error>)
      requires Valid()
      modifies this`adjacency
      ensures Valid()
      ensures r == if data == [] then Err(NotLoaded)
                   else if !(0 <= node < |data|) || layer < 0 then Err(OutOfRange)
                   else if !granted then Err(LockContention)
                   else if exists x :: x in neighbors && !(0 <= x < |data|) then Err(OutOfRange) else Ok(())
      ensures r == Err(LockContention) ==> unchanged(this)
      ensures r.Err? ==> forall l: nat :: LayerOf(adjacency, l) == LayerOf(old(adjacency), l)
      ensures r.Ok? ==> OnlyLayer(old(adjacency), adjacency, layer)
                        && LayerOf(adjacency, layer) == LayerOf(old(adjacency), layer)[node := neighbors]
    {
      r := EnsureNode(node);
      if r.Err? {
        return;
      }
      if layer < 0 {
        return Err(OutOfRange);
      }
      if !granted {
        return Err(LockContention);
      }
      var present := Slot(adjacency, node, layer);
      assert InRange(LayerOf(adjacency, layer)) && LayerOf(adjacency, layer)[node] == present;
      StoreList(node, layer, present);
      assert LayerOf(old(adjacency), layer)[node := present] == LayerOf(old(adjacency), layer);
      var i := 0;
      while i < |neighbors|
        invariant 0 <= i <= |neighbors| && Labels(neighbors[..i], |data|)
      {
        var nb := neighbors[i];
        if nb < 0 || nb >= |data| {
          assert nb in neighbors;
          return Err(OutOfRange);
        }
        i := i + 1;
      }
      assert neighbors[..i] == neighbors;
      forall x | x in neighbors ensures 0 <= x < |data| {
        var j :| 0 <= j < |neighbors| && neighbors[j] == x;
      }
      StoreList(node, layer, neighbors);
      assert LayerOf(old(adjacency), layer)[node := present][node := neighbors]
          == LayerOf(old(adjacency), layer)[node := neighbors];
    }
  }
}
