module HealLocality {
  /**
   * A heal reads and writes only the lists of its region, and only distances between nodes of the region.
   * Heals of disjoint regions therefore commute.
   */

  import opened Seqs
  import opened LayerHeal
  import opened HealBookkeeping
  import opened Layers
  import opened HnswIndex

  ghost predicate Agree(g: Layer, g': Layer, r: set<int>) {
    |g'| == |g| && forall k :: k in r && 0 <= k < |g| ==> g'[k] == g[k]
  }

  ghost predicate SameDist(d: Dist, d': Dist, r: set<int>) {
    forall a, b :: a in r && b in r ==> d(a, b) == d'(a, b)
  }

  lemma {:induction false} FarthestLocal(list: seq<int>, node: int, d: Dist, d': Dist, r: set<int>)
    requires SameDist(d, d', r) && node in r && list != [] && forall x :: x in list ==> x in r
    ensures Farthest(list, node, d) == Farthest(list, node, d')
  {
    var i, j := Farthest(list, node, d), Farthest(list, node, d');
    var x, y := list[i], list[j];
    assert x in list && y in list;
  }

  lemma EvictLocal(w: Work, w': Work, node: int, i: int, r: set<int>)
    requires Agree(w.g, w'.g, r) && 0 <= node < |w.g| && InRange(w.g) && InRange(w'.g) && node in r
    requires 0 <= i < |w.g[node]| && w.g[node][i] in r
    ensures Agree(Evict(w, node, i).g, Evict(w', node, i).g, r)
  {
    var far := w.g[node][i];
    assert w'.g[node] == w.g[node];
  }

  lemma CapacityLocal(w: Work, w': Work, node: int, cand: int, m: int, d: Dist, d': Dist, r: set<int>)
    requires Agree(w.g, w'.g, r) && SameDist(d, d', r) && 0 <= node < |w.g| && InRange(w.g) && InRange(w'.g) && m > 0
    requires node in r && cand in r && forall x :: x in w.g[node] ==> x in r
    ensures var (a, ok) := EnsureCapacity(w, node, cand, m, d); var (b, ok') := EnsureCapacity(w', node, cand, m, d');
            ok == ok' && Agree(a.g, b.g, r)
  {
    var list := w.g[node];
    assert w'.g[node] == list;
    if !(cand in list || |list| < m) {
      FarthestLocal(list, node, d, d', r);
      var i := Farthest(list, node, d);
      var far := list[i];
      assert far in list;
      EvictLocal(w, w', node, i, r);
    }
  }

  lemma CommitLocal(w: Work, w': Work, node: int, cand: int, m: int, d: Dist, d': Dist, r: set<int>)
    requires Agree(w.g, w'.g, r) && SameDist(d, d', r) && 0 <= node < |w.g| && InRange(w.g) && InRange(w'.g) && m > 0
    requires node in r && cand in r && forall x :: x in w.g[node] ==> x in r
    ensures Agree(Commit(w, node, cand, m, d).g, Commit(w', node, cand, m, d').g, r)
  {
    CapacityLocal(w, w', node, cand, m, d, d', r);
    assert w'.g[node] == w.g[node];
    var (a, ok) := EnsureCapacity(w, node, cand, m, d); var (b, ok') := EnsureCapacity(w', node, cand, m, d');
    assert b.g[node] == a.g[node];
  }

  /** The lists of u and v stay inside the region. */
  ghost predicate Inside(g: Layer, u: int, v: int, r: set<int>) {
    && 0 <= u < |g| && 0 <= v < |g| && u in r && v in r
    && (forall x :: x in g[u] ==> x in r) && (forall x :: x in g[v] ==> x in r)
  }

  lemma ReserveLocal(w: Work, w': Work, u: int, v: int, m: int, d: Dist, d': Dist, r: set<int>)
    requires Agree(w.g, w'.g, r) && SameDist(d, d', r) && InRange(w.g) && InRange(w'.g) && m > 0 && Inside(w.g, u, v, r)
    ensures var (a, ok) := EnsureCapacity(w, u, v, m, d); var (b, ok') := EnsureCapacity(w', u, v, m, d');
            && ok == ok' && Agree(a.g, b.g, r) && InRange(a.g) && InRange(b.g) && Inside(a.g, u, v, r)
  {
    CapacityLocal(w, w', u, v, m, d, d', r);
    CapacityStep(w, u, v, m, d);
    CapacityStep(w', u, v, m, d');
  }

  lemma TryInsertLocal(w: Work, w': Work, u: int, v: int, m: int, d: Dist, d': Dist, r: set<int>)
    requires Agree(w.g, w'.g, r) && SameDist(d, d', r) && InRange(w.g) && InRange(w'.g) && m > 0 && Inside(w.g, u, v, r)
    ensures Agree(TryInsert(w, u, v, m, d).g, TryInsert(w', u, v, m, d').g, r)
  {
    assert w'.g[u] == w.g[u] && w'.g[v] == w.g[v];
    var uHas, vHas := v in w.g[u], u in w.g[v];
    if uHas {
      CommitLocal(w, w', v, u, m, d, d', r);
    } else if vHas {
      CommitLocal(w, w', u, v, m, d, d', r);
    } else if u != v {
      ReserveLocal(w, w', u, v, m, d, d', r);
      var (a, ok) := EnsureCapacity(w, u, v, m, d); var (b, ok') := EnsureCapacity(w', u, v, m, d');
      if ok {
        ReserveLocal(a, b, v, u, m, d, d', r);
        var (a2, ok2) := EnsureCapacity(a, v, u, m, d); var (b2, ok2') := EnsureCapacity(b, v, u, m, d');
        if ok2 {
          CommitBothLocal(a2, b2, u, v, m, d, d', r);
        }
      }
    }
  }

  lemma CommitBothLocal(w: Work, w': Work, u: int, v: int, m: int, d: Dist, d': Dist, r: set<int>)
    requires Agree(w.g, w'.g, r) && SameDist(d, d', r) && InRange(w.g) && InRange(w'.g) && m > 0 && Inside(w.g, u, v, r)
    ensures InRange(Commit(w, u, v, m, d).g) && InRange(Commit(w', u, v, m, d').g)
    ensures Agree(Commit(Commit(w, u, v, m, d), v, u, m, d).g, Commit(Commit(w', u, v, m, d'), v, u, m, d').g, r)
  {
    CommitStep(w, u, v, m, d);
    CommitStep(w', u, v, m, d');
    CommitLocal(w, w', u, v, m, d, d', r);
    CommitLocal(Commit(w, u, v, m, d), Commit(w', u, v, m, d'), v, u, m, d, d', r);
  }

  lemma {:induction false} TryAllLocal(w: Work, w': Work, cs: seq<Candidate>, m: int, d: Dist, d': Dist,
                                       os: set<int>, r: set<int>)
    requires Agree(w.g, w'.g, r) && SameDist(d, d', r) && InRange(w.g) && InRange(w'.g) && m > 0
    requires EndsIn(cs, os) && Local(w.g, os, r) && forall x :: x in os ==> 0 <= x < |w.g|
    ensures Agree(TryAll(w, cs, m, d).g, TryAll(w', cs, m, d').g, r)
  {
    if cs != [] {
      var k := |cs| - 1;
      var init, u, v := cs[..k], cs[k].u, cs[k].w;
      TryAllLocal(w, w', init, m, d, d', os, r);
      TryAllConfined(w, init, m, d, os, r);
      ConfinedLocal(w.g, TryAll(w, init, m, d).g, os, r);
      TryInsertLocal(TryAll(w, init, m, d), TryAll(w', init, m, d'), u, v, m, d, d', r);
    }
  }

  lemma {:induction false} PairRowLocal(os: seq<int>, i: int, j: int, d: Dist, d': Dist, r: set<int>)
    requires SameDist(d, d', r) && 0 <= i < j <= |os| && forall k :: 0 <= k < |os| ==> os[k] in r
    ensures PairRow(os, i, j, d) == PairRow(os, i, j, d')
  {
    if j > i + 1 {
      PairRowLocal(os, i, j - 1, d, d', r);
    }
  }

  lemma {:induction false} PairsLocal(os: seq<int>, i: int, d: Dist, d': Dist, r: set<int>)
    requires SameDist(d, d', r) && 0 <= i <= |os| && forall k :: 0 <= k < |os| ==> os[k] in r
    ensures Pairs(os, i, d) == Pairs(os, i, d')
  {
    if i > 0 {
      PairsLocal(os, i - 1, d, d', r);
      PairRowLocal(os, i - 1, |os|, d, d', r);
    }
  }

  lemma IsolateLocal(w: Work, w': Work, q: int, region: seq<int>)
    requires Agree(w.g, w'.g, Elements(region)) && Covers(w.g, q, region) && InRange(w'.g)
    ensures Agree(Isolate(w, q, region).g, Isolate(w', q, region).g, Elements(region))
  {
    assert w'.g[q] == w.g[q];
    forall k | k in Elements(region) && 0 <= k < |w.g|
      ensures Isolate(w', q, region).g[k] == Isolate(w, q, region).g[k]
    {
      IsolateStep(w, q, region, k);
      IsolateStep(w', q, region, k);
    }
  }

  /** Two layers that agree on the region are healed alike there, whatever they look like elsewhere. */
  lemma HealLocal(w: Work, w': Work, q: int, region: seq<int>, m: int, d: Dist, d': Dist)
    requires Covers(w.g, q, region) && InRange(w'.g) && m > 0
    requires Agree(w.g, w'.g, Elements(region)) && SameDist(d, d', Elements(region))
    ensures Agree(HealLayer(w, q, region, m, d).g, HealLayer(w', q, region, m, d').g, Elements(region))
  {
    var os := Orphans(w.g[q], q, |w.g|);
    var r := Elements(region);
    assert w'.g[q] == w.g[q];
    IsolateLocal(w, w', q, region);
    if |os| >= 2 {
      OrphansLocal(w, q, region, d);
      IsolateInRange(w', q, region);
      forall k | 0 <= k < |os| ensures os[k] in r {
        var x := os[k];
        assert x in os;
      }
      PairsLocal(os, |os|, d, d', r);
      TryAllLocal(Isolate(w, q, region), Isolate(w', q, region), Sort(Pairs(os, |os|, d)), m, d, d',
                  Elements(w.g[q]) - {q}, r);
    }
  }

  // ----- the region itself ----------------------------------------------------------

  lemma {:induction false} AddHopsLocal(adj: Adjacency, adj': Adjacency, region: seq<int>, hop: seq<int>, k: nat)
    requires |adj'| == |adj| && 1 <= k <= |hop| && Labels(hop, |adj|)
    requires forall i :: 0 <= i < |hop| ==> adj'[hop[i]] == adj[hop[i]]
    ensures AddHops(adj', region, hop, k) == AddHops(adj, region, hop, k)
  {
    if k > 1 {
      AddHopsLocal(adj, adj', region, hop, k - 1);
    }
  }

  /** The region is determined by the lists inside it. */
  lemma RegionLocal(adj: Adjacency, adj': Adjacency, q: int)
    requires 0 <= q < |adj| && |adj'| == |adj|
    requires forall k :: 0 <= k < |adj| && k in HealRegion(adj, q) ==> adj'[k] == adj[k]
    ensures HealRegion(adj', q) == HealRegion(adj, q)
  {
    var hop := OneHop(adj, q);
    assert hop[0] in HealRegion(adj, q);
    forall i | 0 <= i < |hop| ensures adj'[hop[i]] == adj[hop[i]] {
      assert HealRegion(adj, q)[i] == hop[i];
      var x := hop[i];
      assert x in HealRegion(adj, q);
    }
    AddHopsLocal(adj, adj', hop, hop, |hop|);
  }

  // ----- commuting heals ------------------------------------------------------------

  ghost predicate Disjoint(a: seq<int>, b: seq<int>) {
    forall x :: x in a ==> x !in b
  }

  /** A heal that runs after another one with a disjoint region leaves its region as if it had run alone. */
  lemma HealedAlike(adj: Adjacency, mid: Adjacency, alone: Adjacency, after: Adjacency,
                    q: int, m: int, d: Dist, d': Dist, l: nat)
    requires Sound(adj) && Sound(mid) && |mid| == |adj| && 0 <= q < |adj| && m > 0
    requires forall k :: 0 <= k < |adj| && k in HealRegion(adj, q) ==> mid[k] == adj[k]
    requires SameDist(d, d', Elements(HealRegion(adj, q)))
    requires Healed(adj, alone, q, m, d) && Healed(mid, after, q, m, d')
    ensures HealRegion(mid, q) == HealRegion(adj, q)
    ensures Agree(LayerOf(alone, l), LayerOf(after, l), Elements(HealRegion(adj, q)))
  {
    var region := HealRegion(adj, q);
    RegionLocal(adj, mid, q);
    RegionCovers(adj, q, l);
    var w := WorkOf(adj, l, Tally(adj, q, m, d, l));
    var w' := WorkOf(mid, l, Tally(mid, q, m, d', l));
    assert InRange(w'.g);
    HealLocal(w, w', q, region, m, d, d');
  }

  /**
   * Heals of p and q with disjoint regions commute: both orders end with the same lists on every layer.
   * The distances may differ between the runs as long as they agree inside each region.
   */
  lemma HealsCommute(adj: Adjacency, p: int, q: int, m: int, m': int,
                     afterP: Adjacency, afterPQ: Adjacency, afterQ: Adjacency, afterQP: Adjacency,
                     dp: Dist, dq: Dist, dp': Dist, dq': Dist, l: nat)
    requires Sound(adj) && Sound(afterP) && Sound(afterQ) && m > 0 && m' > 0
    requires 0 <= p < |adj| && 0 <= q < |adj| && |afterP| == |adj| && |afterQ| == |adj|
    requires Disjoint(HealRegion(adj, p), HealRegion(adj, q))
    requires Healed(adj, afterP, p, m, dp) && Healed(afterP, afterPQ, q, m', dq')
    requires Healed(adj, afterQ, q, m', dq) && Healed(afterQ, afterQP, p, m, dp')
    requires SameDist(dp, dp', Elements(HealRegion(adj, p))) && SameDist(dq, dq', Elements(HealRegion(adj, q)))
    ensures LayerOf(afterPQ, l) == LayerOf(afterQP, l)
  {
    var rp, rq := HealRegion(adj, p), HealRegion(adj, q);
    HealedAlike(adj, afterP, afterQ, afterPQ, q, m', dq, dq', l);
    HealedAlike(adj, afterQ, afterP, afterQP, p, m, dp, dp', l);
    forall k | 0 <= k < |adj| ensures LayerOf(afterPQ, l)[k] == LayerOf(afterQP, l)[k] {
      if k in rp {
        assert afterPQ[k] == afterP[k];
        assert LayerOf(afterQP, l)[k] == LayerOf(afterP, l)[k];
      } else if k in rq {
        assert afterQP[k] == afterQ[k];
        assert LayerOf(afterPQ, l)[k] == LayerOf(afterQ, l)[k];
      } else {
        assert afterPQ[k] == afterP[k] == adj[k] && afterQP[k] == afterQ[k] == adj[k];
      }
    }
  }
}
