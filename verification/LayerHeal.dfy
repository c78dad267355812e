module LayerHeal {
  /**
   * The effect of the heal on one layer of the graph, as functions on the layer's neighbour lists.
   * The methods of `HnswIndex` are proved to compute these functions on the stored adjacency.
   */

  import opened Seqs

  /** `layer[n]` is the neighbour list of node n. */
  type Layer = seq<seq<int>>

  type Dist = (int, int) -> real

  /** Distances are only assumed symmetric and non-negative. */
  ghost predicate IsDist(d: Dist) {
    forall a, b :: d(a, b) == d(b, a) && d(a, b) >= 0.0
  }

  ghost predicate Labels(list: seq<int>, n: int) {
    forall i :: 0 <= i < |list| ==> 0 <= list[i] < n
  }

  ghost predicate InRange(g: Layer) {
    forall n :: 0 <= n < |g| ==> Labels(g[n], |g|)
  }

  /** What `set_neighbors` does not enforce: symmetric, duplicate-free, loop-free lists. */
  ghost predicate Simple(g: Layer) {
    && InRange(g)
    && Symmetric(g)
    && (forall n :: 0 <= n < |g| ==> NoDup(g[n]) && n !in g[n])
  }

  /** A simple layer of degree at most m. */
  ghost predicate WellFormed(g: Layer, m: int) {
    Simple(g) && forall n :: 0 <= n < |g| ==> |g[n]| <= m
  }

  /** A simple layer on which the nodes of `xs` have degree at most m. */
  ghost predicate Fit(g: Layer, xs: set<int>, m: int) {
    Simple(g) && forall n :: 0 <= n < |g| && n in xs ==> |g[n]| <= m
  }

  ghost predicate Symmetric(g: Layer) {
    forall a, b :: 0 <= a < |g| && 0 <= b < |g| && b in g[a] ==> a in g[b]
  }

  /** A layer together with the two counters of `HealingMetrics`. */
  datatype Work = Work(g: Layer, removed: int, added: int)

  // ----- isolation ------------------------------------------------------------------

  /** `remove_label(adjacency_[n][layer], x)`. */
  function DropLabel(w: Work, n: int, x: int): (r: Work)
    requires 0 <= n < |w.g|
    ensures |r.g| == |w.g|
  {
    Work(w.g[n := Without(w.g[n], x)], w.removed + |w.g[n]| - |Without(w.g[n], x)|, w.added)
  }

  /** `remove_label` of x on each listed node in turn, except x itself. */
  function DropFrom(w: Work, nodes: seq<int>, x: int): (r: Work)
    requires Labels(nodes, |w.g|)
    ensures |r.g| == |w.g|
  {
    if nodes == [] then w
    else
      var r := DropFrom(w, nodes[..|nodes| - 1], x);
      var v := nodes[|nodes| - 1];
      if v == x then r else DropLabel(r, v, x)
  }

  /** The former neighbours come in the order in which they first appear. */
  lemma {:induction false} OrphansInOrder(list: seq<int>, q: int, n: int, i: nat, j: nat)
    requires i < j < |Orphans(list, q, n)|
    ensures exists p :: 0 <= p < |list| && list[p] == Orphans(list, q, n)[i] && Orphans(list, q, n)[j] !in list[..p + 1]
  {
    var k := |list| - 1;
    var r, os := Orphans(list[..k], q, n), Orphans(list, q, n);
    if j < |r| {
      OrphansInOrder(list[..k], q, n, i, j);
      var p :| 0 <= p < k && list[..k][p] == r[i] && r[j] !in list[..k][..p + 1];
      assert list[p] == os[i] && list[..k][..p + 1] == list[..p + 1];
    } else {
      assert os[i] in r && os[i] in list[..k];
      var p :| 0 <= p < k && list[p] == os[i];
      assert forall x :: x in list[..p + 1] ==> x in list[..k];
    }
  }

  function ClearList(w: Work, n: int): (r: Work)
    requires 0 <= n < |w.g|
    ensures |r.g| == |w.g|
  {
    Work(w.g[n := []], w.removed + |w.g[n]|, w.added)
  }

  /** The distinct in-range neighbours of q other than q, in list order. */
  function Orphans(list: seq<int>, q: int, n: int): (r: seq<int>)
    ensures NoDup(r) && q !in r && Labels(r, n)
    ensures forall x :: x in r <==> x in list && x != q && 0 <= x < n
  {
    if list == [] then []
    else
      var r := Orphans(list[..|list| - 1], q, n);
      var u := list[|list| - 1];
      assert forall x :: x in list <==> x == u || x in list[..|list| - 1];
      if u != q && 0 <= u < n && u !in r then r + [u] else r
  }

  // ----- degree-capped insertion ----------------------------------------------------

  /** Index of the first neighbour at the greatest distance from `node`. */
  function Farthest(list: seq<int>, node: int, d: Dist): (i: int)
    requires list != []
    ensures 0 <= i < |list|
    ensures forall j :: 0 <= j < |list| ==> d(node, list[j]) <= d(node, list[i])
    ensures forall j :: 0 <= j < i ==> d(node, list[j]) < d(node, list[i])
  {
    if |list| == 1 then 0
    else
      var k := |list| - 1;
      var i := Farthest(list[..k], node, d);
      if d(node, list[i]) < d(node, list[k]) then k else i
  }

  /** Drops the i-th neighbour of `node` and the reverse half of that edge. */
  function Evict(w: Work, node: int, i: int): (r: Work)
    requires 0 <= node < |w.g| && InRange(w.g) && 0 <= i < |w.g[node]|
    ensures |r.g| == |w.g|
  {
    var far := w.g[node][i];
    assert far in w.g[node];
    DropLabel(Work(w.g[node := EraseAt(w.g[node], i)], w.removed + 1, w.added), far, node)
  }

  /** `ensure_capacity_for`: may `cand` be linked from `node`, making room for it if need be. */
  function EnsureCapacity(w: Work, node: int, cand: int, m: int, d: Dist): (r: (Work, bool))
    requires 0 <= node < |w.g| && InRange(w.g) && m > 0
    ensures |r.0.g| == |w.g|
  {
    var list := w.g[node];
    if cand in list || |list| < m then (w, true)
    else
      var i := Farthest(list, node, d);
      if d(node, cand) < d(node, list[i]) then (Evict(w, node, i), true) else (w, false)
  }

  /** `commit_half_edge`. */
  function Commit(w: Work, node: int, cand: int, m: int, d: Dist): (r: Work)
    requires 0 <= node < |w.g| && InRange(w.g) && m > 0
    ensures |r.g| == |w.g|
  {
    var (w1, ok) := EnsureCapacity(w, node, cand, m, d);
    if cand !in w.g[node] && ok && cand !in w1.g[node] && |w1.g[node]| < m
    then Work(w1.g[node := w1.g[node] + [cand]], w1.removed, w1.added + 1)
    else w1
  }

  /** `try_insert_healed_edge`. */
  function TryInsert(w: Work, u: int, v: int, m: int, d: Dist): (r: Work)
    requires InRange(w.g) && m > 0
    ensures |r.g| == |w.g|
  {
    if u == v || !(0 <= u < |w.g| && 0 <= v < |w.g|) then w
    else
      var uHas, vHas := v in w.g[u], u in w.g[v];
      if uHas && vHas then w
      else if uHas then Commit(w, v, u, m, d)
      else if vHas then Commit(w, u, v, m, d)
      else
        var (w1, ok1) := EnsureCapacity(w, u, v, m, d);
        if !ok1 then w1
        else
          CapacityStep(w, u, v, m, d);
          var (w2, ok2) := EnsureCapacity(w1, v, u, m, d);
          if !ok2 then w2
          else
            CapacityStep(w1, v, u, m, d);
            CommitStep(w2, u, v, m, d);
            Commit(Commit(w2, u, v, m, d), v, u, m, d)
  }

  // ----- candidate pairs ------------------------------------------------------------

  datatype Candidate = Candidate(u: int, w: int, dist: real)

  /** The pairs (orphans[i], orphans[i+1]) ... (orphans[i], orphans[j-1]). */
  function PairRow(orphans: seq<int>, i: int, j: int, d: Dist): (r: seq<Candidate>)
    requires 0 <= i < j <= |orphans|
  {
    if j == i + 1 then []
    else PairRow(orphans, i, j - 1, d) + [Candidate(orphans[i], orphans[j - 1], d(orphans[i], orphans[j - 1]))]
  }

  /** All pairs whose first member is among the first i orphans. */
  function Pairs(orphans: seq<int>, i: int, d: Dist): (r: seq<Candidate>)
    requires 0 <= i <= |orphans|
  {
    if i == 0 then [] else Pairs(orphans, i - 1, d) + PairRow(orphans, i - 1, |orphans|, d)
  }

  /** The comparator handed to `std::sort`: by distance, then by the two labels. */
  predicate Before(a: Candidate, b: Candidate) {
    if a.dist != b.dist then a.dist < b.dist
    else if a.u != b.u then a.u < b.u
    else a.w < b.w
  }

  ghost predicate SortedByDistance(cs: seq<Candidate>) {
    forall i, j :: 0 <= i < j < |cs| ==> cs[i].dist <= cs[j].dist
  }

  function InsertSorted(c: Candidate, cs: seq<Candidate>): (r: seq<Candidate>)
    ensures multiset(r) == multiset(cs) + multiset{c}
  {
    if cs == [] || Before(c, cs[0]) then [c] + cs
    else
      assert cs == [cs[0]] + cs[1..];
      [cs[0]] + InsertSorted(c, cs[1..])
  }

  /** `std::sort` of the candidates. */
  function Sort(cs: seq<Candidate>): (r: seq<Candidate>)
    ensures multiset(r) == multiset(cs)
  {
    if cs == [] then []
    else
      assert cs == [cs[0]] + cs[1..];
      InsertSorted(cs[0], Sort(cs[1..]))
  }

  /** Inserts the candidates in order. */
  function TryAll(w: Work, cs: seq<Candidate>, m: int, d: Dist): (r: Work)
    requires InRange(w.g) && m > 0
    ensures |r.g| == |w.g| && InRange(r.g)
  {
    if cs == [] then w
    else
      var c := cs[|cs| - 1];
      var r := TryAll(w, cs[..|cs| - 1], m, d);
      TryInsertStep(r, c.u, c.w, m, d);
      TryInsert(r, c.u, c.w, m, d)
  }

  // ----- the heal of one layer ------------------------------------------------------

  function Isolate(w: Work, q: int, region: seq<int>): (r: Work)
    requires 0 <= q < |w.g| && Labels(region, |w.g|)
    ensures |r.g| == |w.g|
  {
    DropFrom(ClearList(DropFrom(w, Orphans(w.g[q], q, |w.g|), q), q), region, q)
  }

  /** The body of the layer loop of `heal_graph_structure`. */
  function HealLayer(w: Work, q: int, region: seq<int>, m: int, d: Dist): (r: Work)
    requires InRange(w.g) && 0 <= q < |w.g| && Labels(region, |w.g|) && m > 0
    ensures |r.g| == |w.g|
  {
    var orphans := Orphans(w.g[q], q, |w.g|);
    var w1 := Isolate(w, q, region);
    if |orphans| < 2 then w1
    else
      IsolateInRange(w, q, region);
      TryAll(w1, Sort(Pairs(orphans, |orphans|, d)), m, d)
  }

  // ----- what a single step does on any layer ---------------------------------------

  /** Conservation of edges, and lists that never grow past the cap. */
  ghost predicate Accounted(w: Work, r: Work, m: int) {
    && |r.g| == |w.g|
    && SumLen(r.g) - r.added + r.removed == SumLen(w.g) - w.added + w.removed
    && r.removed >= w.removed && r.added >= w.added
    && (forall k :: 0 <= k < |w.g| ==> |r.g[k]| <= |w.g[k]| || |r.g[k]| <= m)
  }

  lemma DropStep(w: Work, n: int, x: int, m: int)
    requires 0 <= n < |w.g|
    ensures Accounted(w, DropLabel(w, n, x), m) && DropLabel(w, n, x).added == w.added
  {
    SumLenUpdate(w.g, n, Without(w.g[n], x));
  }

  lemma SubgraphInRange(g: Layer, h: Layer)
    requires InRange(g) && |h| == |g|
    requires forall k, x :: 0 <= k < |g| && x in h[k] ==> x in g[k]
    ensures InRange(h)
  {
    forall k | 0 <= k < |h| ensures Labels(h[k], |h|) {
      forall i | 0 <= i < |h[k]| ensures 0 <= h[k][i] < |h| {
        var x := h[k][i];
        assert x in h[k] && x in g[k];
      }
    }
  }

  lemma EvictStep(w: Work, node: int, i: int, m: int)
    requires 0 <= node < |w.g| && InRange(w.g) && 0 <= i < |w.g[node]|
    ensures Accounted(w, Evict(w, node, i), m) && Evict(w, node, i).added == w.added
    ensures InRange(Evict(w, node, i).g)
    ensures forall k, x :: 0 <= k < |w.g| && x in Evict(w, node, i).g[k] ==> x in w.g[k]
    ensures forall k :: 0 <= k < |w.g| && k != node && k != w.g[node][i] ==> Evict(w, node, i).g[k] == w.g[k]
    ensures forall k :: 0 <= k < |w.g| ==> |Evict(w, node, i).g[k]| <= |w.g[k]|
  {
    var far := w.g[node][i];
    assert far in w.g[node];
    EraseAtElements(w.g[node], i);
    SumLenUpdate(w.g, node, EraseAt(w.g[node], i));
    DropStep(Work(w.g[node := EraseAt(w.g[node], i)], w.removed + 1, w.added), far, node, m);
    SubgraphInRange(w.g, Evict(w, node, i).g);
  }

  lemma CapacityStep(w: Work, node: int, cand: int, m: int, d: Dist)
    requires 0 <= node < |w.g| && InRange(w.g) && m > 0
    ensures var (r, ok) := EnsureCapacity(w, node, cand, m, d);
            && Accounted(w, r, m) && InRange(r.g) && r.added == w.added
            && (forall k, x :: 0 <= k < |w.g| && x in r.g[k] ==> x in w.g[k])
            && (forall k :: 0 <= k < |w.g| && k != node && k !in w.g[node] ==> r.g[k] == w.g[k])
            && (forall k :: 0 <= k < |w.g| ==> |r.g[k]| <= |w.g[k]|)
            && (!ok ==> r == w)
  {
    var list := w.g[node];
    if !(cand in list || |list| < m) {
      var i := Farthest(list, node, d);
      if d(node, cand) < d(node, list[i]) {
        EvictStep(w, node, i, m);
      }
    }
  }

  /** One if y is in the list after and was not in it before, else none. */
  ghost function New(before: seq<int>, after: seq<int>, y: int): (k: nat) {
    if y in after && y !in before then 1 else 0
  }

  lemma CommitStep(w: Work, node: int, cand: int, m: int, d: Dist)
    requires 0 <= node < |w.g| && InRange(w.g) && m > 0 && 0 <= cand < |w.g|
    ensures var r := Commit(w, node, cand, m, d);
            && Accounted(w, r, m) && InRange(r.g)
            && (forall k, x :: 0 <= k < |w.g| && x in r.g[k] ==> x in w.g[k] || (k == node && x == cand))
            && (forall k :: 0 <= k < |w.g| && k != node && k !in w.g[node] ==> r.g[k] == w.g[k])
  {
    CapacityStep(w, node, cand, m, d);
    var (w1, ok) := EnsureCapacity(w, node, cand, m, d);
    SumLenUpdate(w1.g, node, w1.g[node] + [cand]);
  }

  lemma CommitCounts(w: Work, node: int, cand: int, m: int, d: Dist)
    requires 0 <= node < |w.g| && InRange(w.g) && m > 0 && 0 <= cand < |w.g|
    ensures Commit(w, node, cand, m, d).added == w.added + New(w.g[node], Commit(w, node, cand, m, d).g[node], cand)
  {
    CapacityStep(w, node, cand, m, d);
  }

  ghost predicate Near(g: Layer, u: int, k: int) {
    k == u || (0 <= u < |g| && k in g[u])
  }

  /** One candidate edge: only the two end nodes and their neighbours are touched, only the edge itself is new. */
  lemma TryInsertStep(w: Work, u: int, v: int, m: int, d: Dist)
    requires InRange(w.g) && m > 0
    ensures var r := TryInsert(w, u, v, m, d);
            && Accounted(w, r, m) && InRange(r.g)
            && (forall k, x :: 0 <= k < |w.g| && x in r.g[k] ==> x in w.g[k] || (k == u && x == v) || (k == v && x == u))
            && (forall k :: 0 <= k < |w.g| && !Near(w.g, u, k) && !Near(w.g, v, k) ==> r.g[k] == w.g[k])
  {
    if u != v && 0 <= u < |w.g| && 0 <= v < |w.g| {
      var uHas, vHas := v in w.g[u], u in w.g[v];
      if uHas && !vHas {
        CommitStep(w, v, u, m, d);
      } else if vHas && !uHas {
        CommitStep(w, u, v, m, d);
      } else if !uHas {
        CapacityStep(w, u, v, m, d);
        var (w1, ok1) := EnsureCapacity(w, u, v, m, d);
        if ok1 {
          CapacityStep(w1, v, u, m, d);
          var (w2, ok2) := EnsureCapacity(w1, v, u, m, d);
          if ok2 {
            CommitStep(w2, u, v, m, d);
            CommitStep(Commit(w2, u, v, m, d), v, u, m, d);
          }
        }
      }
    }
  }

  /** The counter of added edges grows by the entries of the pair that are new, and by nothing else. */
  lemma TryInsertCounts(w: Work, u: int, v: int, m: int, d: Dist)
    requires InRange(w.g) && m > 0 && u != v && 0 <= u < |w.g| && 0 <= v < |w.g|
    ensures var r := TryInsert(w, u, v, m, d);
            r.added == w.added + New(w.g[u], r.g[u], v) + New(w.g[v], r.g[v], u)
  {
    var uHas, vHas := v in w.g[u], u in w.g[v];
    if uHas && !vHas {
      CommitCounts(w, v, u, m, d);
      CommitStep(w, v, u, m, d);
    } else if vHas && !uHas {
      CommitCounts(w, u, v, m, d);
      CommitStep(w, u, v, m, d);
    } else if !uHas {
      CapacityStep(w, u, v, m, d);
      var (w1, ok1) := EnsureCapacity(w, u, v, m, d);
      if ok1 {
        CapacityStep(w1, v, u, m, d);
        var (w2, ok2) := EnsureCapacity(w1, v, u, m, d);
        if ok2 {
          CommitStep(w2, u, v, m, d);
          CommitStep(Commit(w2, u, v, m, d), v, u, m, d);
          CommitCounts(w2, u, v, m, d);
          CommitCounts(Commit(w2, u, v, m, d), v, u, m, d);
        }
      }
    }
  }

  lemma {:induction false} DropFromStep(w: Work, nodes: seq<int>, x: int, m: int)
    requires Labels(nodes, |w.g|)
    ensures var r := DropFrom(w, nodes, x);
            && Accounted(w, r, m) && r.added == w.added
            && (forall k :: 0 <= k < |w.g| ==>
                  r.g[k] == if k in nodes && k != x then Without(w.g[k], x) else w.g[k])
  {
    if nodes != [] {
      var init, v := nodes[..|nodes| - 1], nodes[|nodes| - 1];
      assert forall y :: y in nodes <==> y in init || y == v;
      DropFromStep(w, init, x, m);
      if v != x {
        DropStep(DropFrom(w, init, x), v, x, m);
      }
    }
  }

  lemma IsolateAccounted(w: Work, q: int, region: seq<int>, m: int)
    requires InRange(w.g) && 0 <= q < |w.g| && Labels(region, |w.g|)
    ensures Accounted(w, Isolate(w, q, region), m) && Isolate(w, q, region).added == w.added
  {
    var orphans := Orphans(w.g[q], q, |w.g|);
    var w1 := DropFrom(w, orphans, q);
    assert Accounted(w, w1, m) && w1.added == w.added by { DropFromStep(w, orphans, q, m); }
    var w2 := ClearList(w1, q);
    assert Accounted(w1, w2, m) by { SumLenUpdate(w1.g, q, []); }
    var w3 := DropFrom(w2, region, q);
    assert Accounted(w2, w3, m) && w3.added == w2.added by { DropFromStep(w2, region, q, m); }
  }

  /** Isolation removes q from the lists of its neighbours and of the region, and empties q's own list. */
  lemma IsolateStep(w: Work, q: int, region: seq<int>, k: int)
    requires InRange(w.g) && 0 <= q < |w.g| && Labels(region, |w.g|) && 0 <= k < |w.g|
    ensures var list := Isolate(w, q, region).g[k];
            if k == q then list == []
            else list == if k in w.g[q] || k in region then Without(w.g[k], q) else w.g[k]
  {
    var orphans := Orphans(w.g[q], q, |w.g|);
    var w1 := DropFrom(w, orphans, q);
    DropFromStep(w, orphans, q, 0);
    DropFromStep(ClearList(w1, q), region, q, 0);
  }

  lemma IsolateInRange(w: Work, q: int, region: seq<int>)
    requires InRange(w.g) && 0 <= q < |w.g| && Labels(region, |w.g|)
    ensures InRange(Isolate(w, q, region).g)
  {
    var r := Isolate(w, q, region);
    forall k, x | 0 <= k < |w.g| && x in r.g[k] ensures x in w.g[k] {
      IsolateStep(w, q, region, k);
    }
    SubgraphInRange(w.g, r.g);
  }
}
