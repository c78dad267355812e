module HealBookkeeping {
  /** What the heal of one layer does on any in-range adjacency, duplicates and self-loops included. */

  import opened Seqs
  import opened LayerHeal

  /** The 2-hop region of q on this layer lies in `region`. */
  ghost predicate Covers(g: Layer, q: int, region: seq<int>) {
    && InRange(g) && 0 <= q < |g| && Labels(region, |g|) && q in region
    && (forall u :: u in g[q] ==> u in region)
    && (forall u, x :: u in g[q] && 0 <= u < |g| && x in g[u] ==> x in region)
  }

  ghost predicate EndsIn(cs: seq<Candidate>, os: set<int>) {
    forall i :: 0 <= i < |cs| ==> cs[i].u in os && cs[i].w in os && cs[i].u != cs[i].w
  }

  lemma {:induction false} PairRowEnds(os: seq<int>, i: int, j: int, d: Dist)
    requires NoDup(os) && 0 <= i < j <= |os|
    ensures EndsIn(PairRow(os, i, j, d), Elements(os))
  {
    if j > i + 1 {
      PairRowEnds(os, i, j - 1, d);
    }
  }

  lemma {:induction false} PairsEnds(os: seq<int>, i: int, d: Dist)
    requires NoDup(os) && 0 <= i <= |os|
    ensures EndsIn(Pairs(os, i, d), Elements(os))
  {
    if i > 0 {
      PairsEnds(os, i - 1, d);
      PairRowEnds(os, i - 1, |os|, d);
    }
  }

  /** Sorting only reorders. */
  lemma SortMembers(cs: seq<Candidate>)
    ensures forall c :: c in Sort(cs) <==> c in cs
  {
    forall c ensures c in Sort(cs) <==> c in cs {
      assert c in multiset(Sort(cs)) <==> c in multiset(cs);
    }
  }

  lemma CandidateEnds(os: seq<int>, d: Dist)
    requires NoDup(os)
    ensures EndsIn(Sort(Pairs(os, |os|, d)), Elements(os))
  {
    var cs := Pairs(os, |os|, d);
    PairsEnds(os, |os|, d);
    SortMembers(cs);
    forall i | 0 <= i < |Sort(cs)|
      ensures Sort(cs)[i].u in os && Sort(cs)[i].w in os && Sort(cs)[i].u != Sort(cs)[i].w
    {
      var c := Sort(cs)[i];
      assert c in Sort(cs) && c in cs;
    }
  }

  /** The lists of `os` stay inside the region. */
  ghost predicate Local(g: Layer, os: set<int>, region: set<int>) {
    os <= region && forall u, x :: u in os && 0 <= u < |g| && x in g[u] ==> x in region
  }

  /** The change from g to h is confined to the region, and every new entry links two members of `os`. */
  ghost predicate Confined(g: Layer, h: Layer, os: set<int>, region: set<int>) {
    && |h| == |g|
    && (forall k :: 0 <= k < |g| && k !in region ==> h[k] == g[k])
    && (forall k, x {:trigger x in h[k]} :: 0 <= k < |g| && x in h[k] ==> x in g[k] || (k in os && x in os))
  }

  lemma ConfinedTransitive(g: Layer, h: Layer, r: Layer, os: set<int>, region: set<int>)
    requires Confined(g, h, os, region) && Confined(h, r, os, region)
    ensures Confined(g, r, os, region)
  {
  }

  lemma AccountedTransitive(a: Work, b: Work, c: Work, m: int)
    requires Accounted(a, b, m) && Accounted(b, c, m)
    ensures Accounted(a, c, m)
  {
  }

  lemma TryInsertConfined(w: Work, u: int, v: int, m: int, d: Dist, os: set<int>, region: set<int>)
    requires InRange(w.g) && m > 0 && Local(w.g, os, region) && u in os && v in os
    ensures Confined(w.g, TryInsert(w, u, v, m, d).g, os, region)
  {
    var r := TryInsert(w, u, v, m, d);
    TryInsertStep(w, u, v, m, d);
    forall k | 0 <= k < |w.g| && k !in region ensures r.g[k] == w.g[k] {
      assert !Near(w.g, u, k) && !Near(w.g, v, k);
    }
  }

  lemma ConfinedLocal(g: Layer, h: Layer, os: set<int>, region: set<int>)
    requires Local(g, os, region) && Confined(g, h, os, region)
    ensures Local(h, os, region)
  {
  }

  lemma {:induction false} TryAllConfined(w: Work, cs: seq<Candidate>, m: int, d: Dist, os: set<int>, region: set<int>)
    requires InRange(w.g) && m > 0 && EndsIn(cs, os) && Local(w.g, os, region)
    ensures Accounted(w, TryAll(w, cs, m, d), m) && Confined(w.g, TryAll(w, cs, m, d).g, os, region)
  {
    if cs != [] {
      var k := |cs| - 1;
      TryAllConfined(w, cs[..k], m, d, os, region);
      var r := TryAll(w, cs[..k], m, d);
      ConfinedLocal(w.g, r.g, os, region);
      TryInsertConfined(r, cs[k].u, cs[k].w, m, d, os, region);
      var r' := TryInsert(r, cs[k].u, cs[k].w, m, d);
      assert Accounted(r, r', m) by { TryInsertStep(r, cs[k].u, cs[k].w, m, d); }
      ConfinedTransitive(w.g, r.g, r'.g, os, region);
      AccountedTransitive(w, r, r', m);
    }
  }

  /** Conservation and growth for any region, with no more known of the layer than that its labels are in range. */
  lemma HealCapped(w: Work, q: int, region: seq<int>, m: int, d: Dist)
    requires InRange(w.g) && m > 0 && 0 <= q < |w.g| && Labels(region, |w.g|)
    ensures Accounted(w, HealLayer(w, q, region, m, d), m)
  {
    var os, all := Orphans(w.g[q], q, |w.g|), set x {:trigger w.g[x]} | 0 <= x < |w.g|;
    var w1 := Isolate(w, q, region);
    IsolateAccounted(w, q, region, m);
    IsolateInRange(w, q, region);
    if |os| >= 2 {
      var cs := Sort(Pairs(os, |os|, d));
      CandidateEnds(os, d);
      assert Elements(os) <= all;
      assert Local(w1.g, all, all);
      TryAllConfined(w1, cs, m, d, all, all);
      AccountedTransitive(w, w1, TryAll(w1, cs, m, d), m);
    }
  }

  lemma IsolateConfined(w: Work, q: int, region: seq<int>, os: set<int>)
    requires Covers(w.g, q, region)
    ensures Confined(w.g, Isolate(w, q, region).g, os, Elements(region))
    ensures forall k :: 0 <= k < |w.g| && k in region ==> q !in Isolate(w, q, region).g[k]
    ensures Isolate(w, q, region).g[q] == []
  {
    var w1 := Isolate(w, q, region);
    forall k | 0 <= k < |w.g|
      ensures k !in region ==> w1.g[k] == w.g[k]
      ensures forall x :: x in w1.g[k] ==> x in w.g[k]
      ensures k in region ==> q !in w1.g[k]
    {
      IsolateStep(w, q, region, k);
    }
    IsolateStep(w, q, region, q);
  }

  lemma HealPairs(w: Work, w1: Work, cs: seq<Candidate>, q: int, region: seq<int>, m: int, d: Dist, os: set<int>)
    requires Covers(w.g, q, region) && InRange(w1.g) && m > 0 && EndsIn(cs, os) && q !in os
    requires Accounted(w, w1, m) && Confined(w.g, w1.g, os, Elements(region)) && Local(w1.g, os, Elements(region))
    requires forall k :: 0 <= k < |w.g| && k in region ==> q !in w1.g[k]
    requires w1.g[q] == []
    ensures var r := TryAll(w1, cs, m, d);
            && Accounted(w, r, m) && Confined(w.g, r.g, os, Elements(region))
            && r.g[q] == []
            && (forall k :: 0 <= k < |w.g| && k in region ==> q !in r.g[k])
  {
    var r := TryAll(w1, cs, m, d);
    TryAllConfined(w1, cs, m, d, os, Elements(region));
    ConfinedTransitive(w.g, w1.g, r.g, os, Elements(region));
    AccountedTransitive(w, w1, r, m);
    assert forall x :: x !in r.g[q];
    SomeElement(r.g[q]);
  }

  /**
   * Conservation of edges, locality of the writes, the degree cap and the isolation of q, for any layer
   * whose labels are in range.
   */
  lemma HealAccounts(w: Work, q: int, region: seq<int>, m: int, d: Dist)
    requires Covers(w.g, q, region) && m > 0
    ensures var r := HealLayer(w, q, region, m, d);
            && Accounted(w, r, m)
            && Confined(w.g, r.g, Elements(w.g[q]) - {q}, Elements(region))
            && r.g[q] == []
            && (forall k :: 0 <= k < |w.g| && k in region ==> q !in r.g[k])
  {
    var os := Orphans(w.g[q], q, |w.g|);
    var oset, rset := Elements(w.g[q]) - {q}, Elements(region);
    var w1 := Isolate(w, q, region);
    IsolateAccounted(w, q, region, m);
    IsolateInRange(w, q, region);
    IsolateConfined(w, q, region, oset);
    if |os| >= 2 {
      var cs := Sort(Pairs(os, |os|, d));
      CandidateEnds(os, d);
      assert Elements(os) == oset;
      assert Local(w1.g, oset, rset);
      HealPairs(w, w1, cs, q, region, m, d, oset);
    }
  }
}
