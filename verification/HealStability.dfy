module HealStability {
  /**
   * On a well-formed layer the greedy rewiring is a stable degree-capped matching of the former neighbours:
   * no two of them are left unlinked while both could still improve.
   */

  import opened Seqs
  import opened LayerHeal
  import opened HealBookkeeping

  ghost predicate Linked(g: Layer, u: int, v: int) {
    0 <= u < |g| && 0 <= v < |g| && v in g[u] && u in g[v]
  }

  /** Node x is full, and every neighbour it has is at distance at most `reach`. */
  ghost predicate Blocked(g: Layer, x: int, reach: real, m: int, d: Dist) {
    0 <= x < |g| && |g[x]| == m && forall y :: y in g[x] ==> d(x, y) <= reach
  }

  ghost predicate Settled(g: Layer, u: int, v: int, m: int, d: Dist) {
    Linked(g, u, v) || Blocked(g, u, d(u, v), m, d) || Blocked(g, v, d(u, v), m, d)
  }

  /** Every edge of length at most `reach` is still there. */
  ghost predicate Keeps(g: Layer, h: Layer, reach: real, d: Dist) {
    |h| == |g| && forall a, b {:trigger b in h[a]} {:trigger b in g[a]} ::
      0 <= a < |g| && b in g[a] && d(a, b) <= reach ==> b in h[a]
  }

  lemma KeepsTransitive(g: Layer, h: Layer, r: Layer, reach: real, d: Dist)
    requires Keeps(g, h, reach, d) && Keeps(h, r, reach, d)
    ensures Keeps(g, r, reach, d)
  {
  }

  lemma BlockedKept(g: Layer, h: Layer, x: int, reach: real, bound: real, xs: set<int>, m: int, d: Dist)
    requires Fit(g, xs, m) && Fit(h, xs, m) && Keeps(g, h, bound, d) && reach <= bound
    requires x in xs && Blocked(g, x, reach, m, d)
    ensures Blocked(h, x, reach, m, d)
  {
    forall y | y in g[x] ensures y in h[x] {
    }
    NoDupSubset(g[x], h[x]);
  }

  /** Settled pairs stay settled while only longer edges are given up. */
  lemma SettledKept(g: Layer, h: Layer, u: int, v: int, bound: real, xs: set<int>, m: int, d: Dist)
    requires IsDist(d) && Fit(g, xs, m) && Fit(h, xs, m) && Keeps(g, h, bound, d) && d(u, v) <= bound
    requires u in xs && v in xs && Settled(g, u, v, m, d)
    ensures Settled(h, u, v, m, d)
  {
    if Linked(g, u, v) {
      assert d(v, u) <= bound;
    } else if Blocked(g, u, d(u, v), m, d) {
      BlockedKept(g, h, u, d(u, v), bound, xs, m, d);
    } else {
      BlockedKept(g, h, v, d(u, v), bound, xs, m, d);
    }
  }

  // ----- one eviction ---------------------------------------------------------------

  ghost predicate EdgeRemoved(g: Layer, h: Layer, u: int, v: int) {
    |h| == |g| && forall a, b {:trigger b in h[a]} {:trigger b in g[a]} ::
      0 <= a < |g| ==> (b in h[a] <==> b in g[a] && !(a == u && b == v) && !(a == v && b == u))
  }

  lemma EvictEdges(w: Work, node: int, i: int)
    requires Simple(w.g) && 0 <= node < |w.g| && 0 <= i < |w.g[node]|
    ensures EdgeRemoved(w.g, Evict(w, node, i).g, node, w.g[node][i])
    ensures forall k :: 0 <= k < |w.g| ==> NoDup(Evict(w, node, i).g[k])
    ensures |Evict(w, node, i).g[node]| == |w.g[node]| - 1
  {
    var far := w.g[node][i];
    var list := w.g[node];
    assert far in list;
    EraseAtElements(list, i);
    WithoutNoDup(w.g[far], node);
    assert far != node;
  }

  lemma SubgraphFit(g: Layer, h: Layer, u: int, v: int, xs: set<int>, m: int)
    requires Fit(g, xs, m) && EdgeRemoved(g, h, u, v)
    requires forall k :: 0 <= k < |g| ==> NoDup(h[k]) && |h[k]| <= |g[k]|
    ensures Fit(h, xs, m)
  {
    SubgraphInRange(g, h);
  }

  lemma EvictFit(w: Work, node: int, i: int, xs: set<int>, m: int)
    requires Fit(w.g, xs, m) && 0 <= node < |w.g| && 0 <= i < |w.g[node]|
    ensures Fit(Evict(w, node, i).g, xs, m)
  {
    EvictEdges(w, node, i);
    EvictStep(w, node, i, m);
    SubgraphFit(w.g, Evict(w, node, i).g, node, w.g[node][i], xs, m);
  }

  /** Making room keeps the layer well-formed and every edge no longer than the candidate. */
  lemma CapacityKeeps(w: Work, node: int, cand: int, xs: set<int>, m: int, d: Dist)
    requires IsDist(d) && Fit(w.g, xs, m) && 0 <= node < |w.g| && 0 <= cand < |w.g| && cand != node
    requires node in xs && cand !in w.g[node] && m > 0
    ensures var (r, ok) := EnsureCapacity(w, node, cand, m, d);
            && Fit(r.g, xs, m)
            && Keeps(w.g, r.g, d(node, cand), d)
            && r.g[cand] == w.g[cand]
            && (if ok then |r.g[node]| < m else r == w && Blocked(w.g, node, d(node, cand), m, d))
  {
    var list := w.g[node];
    if |list| >= m {
      var i := Farthest(list, node, d);
      var far := list[i];
      assert far in list;
      if d(node, cand) < d(node, far) {
        EvictEdges(w, node, i);
        EvictFit(w, node, i, xs, m);
        EvictStep(w, node, i, m);
        assert d(far, node) == d(node, far);
      } else {
        forall y | y in list ensures d(node, y) <= d(node, cand) {
          var j :| 0 <= j < |list| && list[j] == y;
        }
      }
    }
  }

  // ----- one candidate --------------------------------------------------------------

  function Push(g: Layer, n: int, x: int): (h: Layer)
    requires 0 <= n < |g|
    ensures |h| == |g|
  {
    g[n := g[n] + [x]]
  }

  lemma CommitRoom(w: Work, node: int, cand: int, m: int, d: Dist)
    requires InRange(w.g) && m > 0 && 0 <= node < |w.g| && cand !in w.g[node] && |w.g[node]| < m
    ensures Commit(w, node, cand, m, d).g == Push(w.g, node, cand)
  {
  }

  lemma PushNoDup(list: seq<int>, x: int)
    requires NoDup(list) && x !in list
    ensures NoDup(list + [x])
  {
  }

  lemma LinkFit(g: Layer, u: int, v: int, xs: set<int>, m: int)
    requires Fit(g, xs, m) && 0 <= u < |g| && 0 <= v < |g| && u != v
    requires v !in g[u] && |g[u]| < m && |g[v]| < m
    ensures u !in g[v]
    ensures Fit(Push(Push(g, u, v), v, u), xs, m)
    ensures Linked(Push(Push(g, u, v), v, u), u, v)
    ensures forall a, b :: 0 <= a < |g| && b in g[a] ==> b in Push(Push(g, u, v), v, u)[a]
  {
    var h := Push(Push(g, u, v), v, u);
    assert h[u] == g[u] + [v] && h[v] == g[v] + [u];
    PushNoDup(g[u], v);
    PushNoDup(g[v], u);
  }

  /** After its turn a candidate pair is settled; the layer stays well-formed and keeps all shorter edges. */
  lemma TryInsertSettles(w: Work, u: int, v: int, xs: set<int>, m: int, d: Dist)
    requires IsDist(d) && Fit(w.g, xs, m) && m > 0 && 0 <= u < |w.g| && 0 <= v < |w.g| && u != v
    requires u in xs && v in xs
    ensures var r := TryInsert(w, u, v, m, d);
            && Fit(r.g, xs, m) && Keeps(w.g, r.g, d(u, v), d) && Settled(r.g, u, v, m, d)
  {
    if v !in w.g[u] {
      CapacityKeeps(w, u, v, xs, m, d);
      CapacityStep(w, u, v, m, d);
      var (w1, ok1) := EnsureCapacity(w, u, v, m, d);
      if ok1 {
        assert u !in w1.g[v];
        CapacityKeeps(w1, v, u, xs, m, d);
        CapacityStep(w1, v, u, m, d);
        var (w2, ok2) := EnsureCapacity(w1, v, u, m, d);
        KeepsTransitive(w.g, w1.g, w2.g, d(u, v), d);
        if ok2 {
          LinkFit(w2.g, u, v, xs, m);
          CommitRoom(w2, u, v, m, d);
          CommitStep(w2, u, v, m, d);
          CommitRoom(Commit(w2, u, v, m, d), v, u, m, d);
        }
      }
    }
  }

  // ----- the sorted pass over all candidates ----------------------------------------

  /** Candidates joining two distinct nodes at their true distance. */
  ghost predicate Proper(cs: seq<Candidate>, n: int, d: Dist) {
    forall i :: 0 <= i < |cs| ==>
      0 <= cs[i].u < n && 0 <= cs[i].w < n && cs[i].u != cs[i].w && cs[i].dist == d(cs[i].u, cs[i].w)
  }

  ghost predicate AllSettled(g: Layer, cs: seq<Candidate>, m: int, d: Dist) {
    forall i :: 0 <= i < |cs| ==> Settled(g, cs[i].u, cs[i].w, m, d)
  }

  lemma AllSettledKept(g: Layer, h: Layer, cs: seq<Candidate>, bound: real, xs: set<int>, m: int, d: Dist)
    requires IsDist(d) && Fit(g, xs, m) && Fit(h, xs, m) && Keeps(g, h, bound, d) && Proper(cs, |g|, d)
    requires EndsIn(cs, xs) && AllSettled(g, cs, m, d) && forall i :: 0 <= i < |cs| ==> cs[i].dist <= bound
    ensures AllSettled(h, cs, m, d)
  {
    forall i | 0 <= i < |cs| ensures Settled(h, cs[i].u, cs[i].w, m, d) {
      SettledKept(g, h, cs[i].u, cs[i].w, bound, xs, m, d);
    }
  }

  lemma OneMoreSettled(g: Layer, cs: seq<Candidate>, m: int, d: Dist)
    requires cs != [] && AllSettled(g, cs[..|cs| - 1], m, d)
    requires Settled(g, cs[|cs| - 1].u, cs[|cs| - 1].w, m, d)
    ensures AllSettled(g, cs, m, d)
  {
    forall i | 0 <= i < |cs| ensures Settled(g, cs[i].u, cs[i].w, m, d) {
      assert i < |cs| - 1 ==> cs[..|cs| - 1][i] == cs[i];
    }
  }

  lemma {:induction false} TryAllSettles(w: Work, cs: seq<Candidate>, xs: set<int>, m: int, d: Dist)
    requires IsDist(d) && Fit(w.g, xs, m) && m > 0
    requires SortedByDistance(cs) && Proper(cs, |w.g|, d) && EndsIn(cs, xs)
    ensures Fit(TryAll(w, cs, m, d).g, xs, m) && AllSettled(TryAll(w, cs, m, d).g, cs, m, d)
  {
    if cs != [] {
      var k := |cs| - 1;
      var init, c := cs[..k], cs[k];
      TryAllSettles(w, init, xs, m, d);
      var r0, r := TryAll(w, init, m, d), TryAll(w, cs, m, d);
      TryInsertSettles(r0, c.u, c.w, xs, m, d);
      AllSettledKept(r0.g, r.g, init, c.dist, xs, m, d);
      OneMoreSettled(r.g, cs, m, d);
    }
  }

  lemma {:induction false} InsertSortedSorted(c: Candidate, cs: seq<Candidate>)
    requires SortedByDistance(cs)
    ensures SortedByDistance(InsertSorted(c, cs))
  {
    if cs != [] && !Before(c, cs[0]) {
      InsertSortedSorted(c, cs[1..]);
      var r := InsertSorted(c, cs[1..]);
      forall i | 0 <= i < |r| ensures cs[0].dist <= r[i].dist {
        assert r[i] in multiset(r);
        assert r[i] in multiset(cs[1..]) + multiset{c};
      }
    }
  }

  lemma {:induction false} SortSorted(cs: seq<Candidate>)
    ensures SortedByDistance(Sort(cs))
  {
    if cs != [] {
      SortSorted(cs[1..]);
      InsertSortedSorted(cs[0], Sort(cs[1..]));
    }
  }

  /** a is not after b: nearer, or as near with the smaller labels. */
  ghost predicate NotAfter(a: Candidate, b: Candidate) {
    a.dist < b.dist || (a.dist == b.dist && (a.u < b.u || (a.u == b.u && a.w <= b.w)))
  }

  ghost predicate Ranked(cs: seq<Candidate>) {
    forall i, j :: 0 <= i < j < |cs| ==> NotAfter(cs[i], cs[j])
  }

  lemma {:induction false} InsertRanked(c: Candidate, cs: seq<Candidate>)
    requires Ranked(cs)
    ensures Ranked(InsertSorted(c, cs))
  {
    if cs != [] && !Before(c, cs[0]) {
      InsertRanked(c, cs[1..]);
      var r := InsertSorted(c, cs[1..]);
      forall j | 0 <= j < |r| ensures NotAfter(cs[0], r[j]) {
        assert r[j] in multiset(r);
        assert r[j] in multiset(cs[1..]) + multiset{c};
      }
    }
  }

  /** Ties are broken by the labels, so the order of the candidates does not depend on the sorting algorithm. */
  lemma {:induction false} SortRanked(cs: seq<Candidate>)
    ensures Ranked(Sort(cs)) && multiset(Sort(cs)) == multiset(cs)
  {
    if cs != [] {
      SortRanked(cs[1..]);
      InsertRanked(cs[0], Sort(cs[1..]));
    }
  }

  lemma {:induction false} PairRowComplete(os: seq<int>, i: int, j: int, d: Dist)
    requires 0 <= i < j <= |os|
    ensures |PairRow(os, i, j, d)| == j - i - 1
    ensures forall k :: 0 <= k < j - i - 1 ==>
              PairRow(os, i, j, d)[k] == Candidate(os[i], os[i + 1 + k], d(os[i], os[i + 1 + k]))
  {
    if j > i + 1 {
      PairRowComplete(os, i, j - 1, d);
    }
  }

  lemma {:induction false} PairsComplete(os: seq<int>, n: int, d: Dist, i: int, j: int)
    requires 0 <= i < j < |os| && i < n <= |os|
    ensures Candidate(os[i], os[j], d(os[i], os[j])) in Pairs(os, n, d)
  {
    if i == n - 1 {
      PairRowComplete(os, i, |os|, d);
      assert PairRow(os, i, |os|, d)[j - i - 1] == Candidate(os[i], os[j], d(os[i], os[j]));
    } else {
      PairsComplete(os, n - 1, d, i, j);
    }
  }

  lemma {:induction false} PairsProper(os: seq<int>, n: int, d: Dist)
    requires 0 <= n <= |os|
    ensures forall c :: c in Pairs(os, n, d) ==> c.dist == d(c.u, c.w)
  {
    if n > 0 {
      PairsProper(os, n - 1, d);
      PairRowComplete(os, n - 1, |os|, d);
    }
  }

  lemma CandidatesProper(os: seq<int>, n: int, d: Dist)
    requires NoDup(os) && Labels(os, n)
    ensures Proper(Sort(Pairs(os, |os|, d)), n, d)
  {
    var ps := Pairs(os, |os|, d);
    var cs := Sort(ps);
    CandidateEnds(os, d);
    PairsProper(os, |os|, d);
    SortMembers(ps);
    forall i | 0 <= i < |cs|
      ensures 0 <= cs[i].u < n && 0 <= cs[i].w < n && cs[i].u != cs[i].w && cs[i].dist == d(cs[i].u, cs[i].w)
    {
      var c := cs[i];
      assert c in cs && c in ps;
    }
  }

  // ----- isolation on a well-formed layer -------------------------------------------

  /** Exactly the edges at q are gone. */
  ghost predicate NodeRemoved(g: Layer, h: Layer, q: int) {
    |h| == |g| && forall a, b {:trigger b in h[a]} {:trigger b in g[a]} ::
      0 <= a < |g| ==> (b in h[a] <==> b in g[a] && a != q && b != q)
  }

  lemma IsolateRemoves(w: Work, q: int, region: seq<int>)
    requires InRange(w.g) && Symmetric(w.g) && 0 <= q < |w.g| && Labels(region, |w.g|)
    ensures NodeRemoved(w.g, Isolate(w, q, region).g, q)
  {
    var h := Isolate(w, q, region).g;
    forall a, b | 0 <= a < |w.g| ensures b in h[a] <==> b in w.g[a] && a != q && b != q {
      IsolateStep(w, q, region, a);
    }
  }

  /** Once q is gone its former neighbours have degree at most m. */
  ghost predicate CapFits(g: Layer, q: int, m: int)
    requires 0 <= q < |g|
  {
    forall u :: u in g[q] && 0 <= u < |g| ==> |Without(g[u], q)| <= m
  }

  lemma IsolateSimple(w: Work, q: int, region: seq<int>)
    requires Simple(w.g) && 0 <= q < |w.g| && Labels(region, |w.g|)
    ensures Simple(Isolate(w, q, region).g)
  {
    var h := Isolate(w, q, region).g;
    IsolateRemoves(w, q, region);
    IsolateInRange(w, q, region);
    forall k | 0 <= k < |h| ensures NoDup(h[k]) {
      IsolateStep(w, q, region, k);
      WithoutNoDup(w.g[k], q);
    }
  }

  lemma IsolateFit(w: Work, q: int, region: seq<int>, m: int)
    requires Simple(w.g) && 0 <= q < |w.g| && Labels(region, |w.g|) && CapFits(w.g, q, m)
    ensures Fit(Isolate(w, q, region).g, Elements(Orphans(w.g[q], q, |w.g|)), m)
  {
    IsolateSimple(w, q, region);
    forall k | 0 <= k < |w.g| && k in w.g[q] ensures |Isolate(w, q, region).g[k]| <= m {
      IsolateStep(w, q, region, k);
    }
  }

  lemma PairSettled(h: Layer, cs: seq<Candidate>, os: seq<int>, u: int, v: int, m: int, d: Dist)
    requires IsDist(d) && u in os && v in os && u != v
    requires forall c :: c in Pairs(os, |os|, d) ==> c in cs
    requires AllSettled(h, cs, m, d)
    ensures Settled(h, u, v, m, d)
  {
    var i :| 0 <= i < |os| && os[i] == u;
    var j :| 0 <= j < |os| && os[j] == v;
    var a, b := if i < j then i else j, if i < j then j else i;
    PairsComplete(os, |os|, d, a, b);
    var c := Candidate(os[a], os[b], d(os[a], os[b]));
    assert c in cs;
    var k :| 0 <= k < |cs| && cs[k] == c;
    assert Settled(h, os[a], os[b], m, d);
  }

  lemma RewireStable(w: Work, os: seq<int>, m: int, d: Dist)
    requires IsDist(d) && Fit(w.g, Elements(os), m) && m > 0 && NoDup(os) && Labels(os, |w.g|)
    ensures var h := TryAll(w, Sort(Pairs(os, |os|, d)), m, d).g;
            && Fit(h, Elements(os), m)
            && forall u, v :: u in os && v in os && u != v ==> Settled(h, u, v, m, d)
  {
    var ps := Pairs(os, |os|, d);
    CandidatesProper(os, |w.g|, d);
    CandidateEnds(os, d);
    SortSorted(ps);
    SortMembers(ps);
    TryAllSettles(w, Sort(ps), Elements(os), m, d);
    forall u, v | u in os && v in os && u != v
      ensures Settled(TryAll(w, Sort(ps), m, d).g, u, v, m, d)
    {
      PairSettled(TryAll(w, Sort(ps), m, d).g, Sort(ps), os, u, v, m, d);
    }
  }

  /**
   * The heal keeps a layer simple, and leaves every two former neighbours of q linked both ways or one of them
   * full of neighbours at least as near as the other. Of the degrees it needs only that those of the former
   * neighbours are within the cap once q is gone; lists grow up to the cap at most.
   */
  lemma HealStable(w: Work, q: int, region: seq<int>, m: int, d: Dist)
    requires IsDist(d) && Simple(w.g) && m > 0 && 0 <= q < |w.g| && Labels(region, |w.g|) && CapFits(w.g, q, m)
    ensures var h := HealLayer(w, q, region, m, d).g;
            && Fit(h, Elements(w.g[q]), m)
            && (forall u, v :: u in w.g[q] && v in w.g[q] && u != v ==> Settled(h, u, v, m, d))
            && (forall k :: 0 <= k < |h| ==> |h[k]| <= |w.g[k]| || |h[k]| <= m)
  {
    var os := Orphans(w.g[q], q, |w.g|);
    assert Elements(os) == Elements(w.g[q]);
    HealSettles(w, q, region, m, d);
    forall u, v | u in w.g[q] && v in w.g[q] && u != v
      ensures Settled(HealLayer(w, q, region, m, d).g, u, v, m, d)
    {
      assert u in os && v in os;
    }
    HealCapped(w, q, region, m, d);
  }

  lemma HealSettles(w: Work, q: int, region: seq<int>, m: int, d: Dist)
    requires IsDist(d) && Simple(w.g) && m > 0 && 0 <= q < |w.g| && Labels(region, |w.g|) && CapFits(w.g, q, m)
    ensures var h, os := HealLayer(w, q, region, m, d).g, Orphans(w.g[q], q, |w.g|);
            Fit(h, Elements(os), m) && forall u, v :: u in os && v in os && u != v ==> Settled(h, u, v, m, d)
  {
    var os := Orphans(w.g[q], q, |w.g|);
    assert Elements(os) == Elements(w.g[q]);
    IsolateFit(w, q, region, m);
    if |os| >= 2 {
      RewireStable(Isolate(w, q, region), os, m, d);
    }
  }
}
