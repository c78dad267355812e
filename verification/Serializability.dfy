module Serializability {
  /**
   * Heals whose region still spans the 2-hop neighbourhood when they start are serializable: whatever the
   * interleaving, the lists are those of a serial history in which each heal and each `set_neighbors` happens at
   * once, in the order they finished.
   */

  import opened Seqs
  import opened LayerHeal
  import opened HealBookkeeping
  import opened HealLocality
  import opened Layers
  import opened HnswIndex
  import opened Locks
  import opened LockProtocol
  import opened Options
  import opened Reachability

  /** On every layer the region holds q, its neighbours and their neighbours, and perhaps more. */
  ghost predicate Spans(region: seq<int>, adj: Adjacency, q: int) {
    Sound(adj) && 0 <= q < |adj| && Labels(region, |adj|) && forall l: nat :: Covers(LayerOf(adj, l), q, region)
  }

  /** No heal proceeds with a region that has become too small; one that has become too large does no harm. */
  ghost predicate UsesSpanningRegions(ws: seq<World>, es: seq<Event>) {
    && |ws| == |es| + 1
    && forall i :: 0 <= i < |es| ==> Current(ws[i], es[i])
  }

  ghost predicate Current(w: World, e: Event) {
    e.Proceed? ==>
      e.id in w.threads && w.threads[e.id].Locking? && Spans(w.threads[e.id].region, w.adj, w.threads[e.id].q)
  }

  lemma UpToDateSpans(region: seq<int>, adj: Adjacency, q: int)
    requires Sound(adj) && 0 <= q < |adj| && Labels(region, |adj|) && UpToDate(region, adj, q)
    ensures Spans(region, adj, q)
  {
    forall l: nat ensures Covers(LayerOf(adj, l), q, region) {
      RegionCovers(adj, q, l);
      assert forall x :: x in Elements(HealRegion(adj, q)) ==> x in region;
      CoversMore(LayerOf(adj, l), q, HealRegion(adj, q), region);
    }
  }

  lemma CoversMore(g: Layer, q: int, r: seq<int>, r': seq<int>)
    requires Covers(g, q, r) && Labels(r', |g|) && forall x :: x in Elements(r) ==> x in r'
    ensures Covers(g, q, r')
  {
    assert forall x :: x in r ==> x in Elements(r);
  }

  /** One layer as a heal with this region leaves it. */
  ghost function HealedOn(s: Adjacency, q: int, region: seq<int>, m: int, d: Dist, l: nat): (g: Layer)
    requires Spans(region, s, q) && m > 0
    ensures |g| == |s|
  {
    assert Covers(LayerOf(s, l), q, region);
    HealLayer(WorkOf(s, l, HealingMetrics(0, 0)), q, region, m, d).g
  }

  /** A heal alone, with this region. */
  ghost predicate HealedWith(s: Adjacency, s': Adjacency, q: int, region: seq<int>, m: int, d: Dist) {
    && Spans(region, s, q) && m > 0 && |s'| == |s|
    && (forall l: nat :: LayerOf(s', l) == HealedOn(s, q, region, m, d, l))
    && (forall k :: 0 <= k < |s| && k !in region ==> s'[k] == s[k])
  }

  // ----- the serial history that shadows a run --------------------------------------

  ghost predicate InHeal(w: World, k: int) {
    exists id :: IsHeal(w, id) && k in w.threads[id].region
  }

  /** On its region a heal has turned layers below `t.layer` of the serial lists into healed ones, and no others. */
  ghost predicate Partly(t: Thread, adj: Adjacency, s: Adjacency, d: Dist)
    requires t.Healing? && Spans(t.region, s, t.q) && |s| == |adj| && t.m > 0
  {
    forall l: nat ::
      Agree(if l < t.layer then HealedOn(s, t.q, t.region, t.m, d, l) else LayerOf(s, l), LayerOf(adj, l),
            Elements(t.region))
  }

  ghost predicate HealShadow(t: Thread, adj: Adjacency, s: Adjacency, d: Dist)
    requires t.Healing? && Sound(s) && |s| == |adj| && 0 <= t.q < |s| && t.m > 0
  {
    && Spans(t.region, s, t.q)
    && (forall k :: k in t.region && 0 <= k < |s| ==> |s[k]| <= t.top)
    && Partly(t, adj, s, d)
  }

  ghost predicate Shadow(w: World, s: Adjacency, pool: nat, metric: Metric)
    requires pool > 0
  {
    && AllFine(w, pool) && Sound(s) && |s| == |w.adj| && SameAtRest(w, s)
    && (forall id :: IsHeal(w, id) ==> ShadowOf(w, s, id, pool, metric))
  }

  ghost predicate IsHeal(w: World, id: nat) {
    id in w.threads && w.threads[id].Healing?
  }

  /** Nodes that no heal has in its region have their serial lists. */
  ghost predicate SameAtRest(w: World, s: Adjacency) {
    |s| == |w.adj| && forall k :: 0 <= k < |s| && !InHeal(w, k) ==> s[k] == w.adj[k]
  }

  ghost predicate ShadowOf(w: World, s: Adjacency, id: nat, pool: nat, metric: Metric)
    requires pool > 0 && Sound(s) && |s| == |w.adj|
  {
    IsHeal(w, id) && Fine(w.threads[id], |s|, pool) && HealShadow(w.threads[id], w.adj, s, NodeDist(metric, w.rows))
  }

  /** The serial history: a heal or a write takes effect when it finishes. */
  ghost predicate SerialStep(w: World, e: Event, s: Adjacency, s': Adjacency, pool: nat, metric: Metric)
    requires pool > 0
  {
    match e
    case Finish(id) =>
      && id in w.threads && w.threads[id].Healing? && Fine(w.threads[id], |s|, pool)
      && var t := w.threads[id]; HealedWith(s, s', t.q, t.region, t.m, NodeDist(metric, w.rows))
    case Write(id) =>
      && id in w.threads && w.threads[id].Setting? && Fine(w.threads[id], |s|, pool)
      && s' == SetSlot(s, w.threads[id].node, w.threads[id].slot, w.threads[id].list)
    case _ => s' == s
  }

  // ----- locality, as the heals in progress need it ---------------------------------

  ghost predicate SameOn(a: Adjacency, b: Adjacency, region: seq<int>) {
    |b| == |a| && forall k :: 0 <= k < |a| && k in region ==> b[k] == a[k]
  }

  lemma SameLayers(a: Adjacency, b: Adjacency, region: seq<int>, l: nat)
    requires SameOn(a, b, region)
    ensures Agree(LayerOf(a, l), LayerOf(b, l), Elements(region))
  {
  }

  /** What a region spans, and what the heal does on it, depends on the lists and distances of the region only. */
  lemma HealedOnLocal(s: Adjacency, s': Adjacency, q: int, region: seq<int>, m: int, d: Dist, d': Dist, l: nat)
    requires Spans(region, s, q) && Spans(region, s', q) && m > 0 && SameOn(s, s', region)
    requires SameDist(d, d', Elements(region))
    ensures Agree(HealedOn(s, q, region, m, d, l), HealedOn(s', q, region, m, d', l), Elements(region))
  {
    SameLayers(s, s', region, l);
    assert Covers(LayerOf(s, l), q, region) && InRange(LayerOf(s', l));
    HealLocal(WorkOf(s, l, HealingMetrics(0, 0)), WorkOf(s', l, HealingMetrics(0, 0)), q, region, m, d, d');
  }

  lemma CoversLocal(g: Layer, h: Layer, q: int, region: seq<int>)
    requires Covers(g, q, region) && InRange(h) && Agree(g, h, Elements(region))
    ensures Covers(h, q, region)
  {
    assert q in Elements(region);
    forall u, x | u in h[q] && 0 <= u < |h| && x in h[u] ensures x in region {
      assert u in Elements(region);
    }
  }

  lemma SpansLocal(s: Adjacency, s': Adjacency, q: int, region: seq<int>)
    requires Spans(region, s, q) && Sound(s') && SameOn(s, s', region)
    ensures Spans(region, s', q)
  {
    forall l: nat ensures Covers(LayerOf(s', l), q, region) {
      SameLayers(s, s', region, l);
      assert Covers(LayerOf(s, l), q, region) && InRange(LayerOf(s', l));
      CoversLocal(LayerOf(s, l), LayerOf(s', l), q, region);
    }
  }

  /** A heal in progress is not disturbed by changes outside its region. */
  lemma HealUndisturbed(t: Thread, adj: Adjacency, adj': Adjacency, s: Adjacency, s': Adjacency, d: Dist, d': Dist)
    requires t.Healing? && Sound(s) && Sound(s') && |s| == |adj| && 0 <= t.q < |s| && t.m > 0
    requires HealShadow(t, adj, s, d)
    requires SameOn(adj, adj', t.region) && SameOn(s, s', t.region) && SameDist(d, d', Elements(t.region))
    ensures HealShadow(t, adj', s', d')
  {
    SpansLocal(s, s', t.q, t.region);
    forall l: nat
      ensures Agree(if l < t.layer then HealedOn(s', t.q, t.region, t.m, d', l) else LayerOf(s', l), LayerOf(adj', l),
                    Elements(t.region))
    {
      HealedOnLocal(s, s', t.q, t.region, t.m, d, d', l);
      SameLayers(s, s', t.region, l);
      SameLayers(adj, adj', t.region, l);
    }
  }

  // ----- when the region makes no difference ----------------------------------------

  /** The region plays a part in the isolation only. */
  lemma RegionsAlike(w: Work, w': Work, q: int, r: seq<int>, r': seq<int>, m: int, d: Dist)
    requires Covers(w.g, q, r) && w'.g == w.g && Labels(r', |w.g|) && m > 0
    requires Isolate(w, q, r).g == Isolate(w', q, r').g
    ensures HealLayer(w', q, r', m, d).g == HealLayer(w, q, r, m, d).g
  {
    var os := Orphans(w.g[q], q, |w.g|);
    if |os| >= 2 {
      IsolateInRange(w, q, r);
      SameInserts(Isolate(w, q, r), Isolate(w', q, r'), Sort(Pairs(os, |os|, d)), m, d);
    }
  }

  /** In which order the region is listed makes no difference. */
  lemma RegionOrder(w: Work, w': Work, q: int, r: seq<int>, r': seq<int>, m: int, d: Dist)
    requires Covers(w.g, q, r) && w'.g == w.g && Labels(r', |w.g|) && Elements(r) == Elements(r') && m > 0
    ensures HealLayer(w', q, r', m, d).g == HealLayer(w, q, r, m, d).g
  {
    forall k | 0 <= k < |w.g| ensures Isolate(w, q, r).g[k] == Isolate(w', q, r').g[k] {
      IsolateStep(w, q, r, k);
      IsolateStep(w', q, r', k);
      assert k in Elements(r) <==> k in Elements(r');
    }
    RegionsAlike(w, w', q, r, r', m, d);
  }

  /** On a symmetric layer not even what else it lists does: nobody but the neighbours of q lists q. */
  lemma RegionFree(w: Work, w': Work, q: int, r: seq<int>, r': seq<int>, m: int, d: Dist)
    requires Covers(w.g, q, r) && w'.g == w.g && Symmetric(w.g) && Labels(r', |w.g|) && m > 0
    ensures HealLayer(w', q, r', m, d).g == HealLayer(w, q, r, m, d).g
  {
    forall k | 0 <= k < |w.g| ensures Isolate(w, q, r).g[k] == Isolate(w', q, r').g[k] {
      IsolateStep(w, q, r, k);
      IsolateStep(w', q, r', k);
      assert q in w.g[k] ==> k in w.g[q];
    }
    RegionsAlike(w, w', q, r, r', m, d);
  }

  /**
   * A heal alone with the region it holds is the heal of the index if that region is up to date, or whatever else
   * it holds if the layers are symmetric.
   */
  lemma HealedWithIsHealed(s: Adjacency, s': Adjacency, q: int, region: seq<int>, m: int, d: Dist)
    requires HealedWith(s, s', q, region, m, d)
    requires Elements(region) == Elements(HealRegion(s, q)) || forall l: nat :: Symmetric(LayerOf(s, l))
    ensures forall l: nat :: LayerOf(s', l) == HealedWork(s, q, m, d, l).g
    ensures Elements(region) == Elements(HealRegion(s, q)) ==> Healed(s, s', q, m, d)
  {
    var r := HealRegion(s, q);
    forall l: nat ensures LayerOf(s', l) == HealedWork(s, q, m, d, l).g {
      var w, w' := WorkOf(s, l, HealingMetrics(0, 0)), WorkOf(s, l, Tally(s, q, m, d, l));
      assert LayerOf(s', l) == HealedOn(s, q, region, m, d, l);
      assert Covers(w.g, q, region);
      if Elements(region) == Elements(r) {
        RegionOrder(w, w', q, region, r, m, d);
      } else {
        RegionFree(w, w', q, region, r, m, d);
      }
    }
    if Elements(region) == Elements(r) {
      forall k | 0 <= k < |s| && k !in r ensures s'[k] == s[k] {
        assert k !in Elements(region);
      }
    }
  }

  lemma {:induction false} SameInserts(a: Work, b: Work, cs: seq<Candidate>, m: int, d: Dist)
    requires InRange(a.g) && a.g == b.g && m > 0
    ensures TryAll(a, cs, m, d).g == TryAll(b, cs, m, d).g
  {
    if cs != [] {
      var k := |cs| - 1;
      SameInserts(a, b, cs[..k], m, d);
      SameInsert(TryAll(a, cs[..k], m, d), TryAll(b, cs[..k], m, d), cs[k].u, cs[k].w, m, d);
    }
  }

  lemma SameInsert(a: Work, b: Work, u: int, v: int, m: int, d: Dist)
    requires InRange(a.g) && a.g == b.g && m > 0
    ensures TryInsert(a, u, v, m, d).g == TryInsert(b, u, v, m, d).g
  {
    var r := Below(|a.g|);
    if u != v && 0 <= u < |a.g| && 0 <= v < |a.g| {
      assert Labels(a.g[u], |a.g|) && Labels(a.g[v], |a.g|);
      TryInsertLocal(a, b, u, v, m, d, d, r);
    }
  }

  // ----- the steps of the heal itself -----------------------------------------------

  /** On the layers still to be healed the region spans the stored lists as well. */
  lemma RegionHolds(t: Thread, adj: Adjacency, s: Adjacency, d: Dist, layer: nat)
    requires t.Healing? && Sound(s) && Sound(adj) && |s| == |adj| && 0 <= t.q < |s| && t.m > 0
    requires HealShadow(t, adj, s, d) && layer >= t.layer
    ensures Covers(LayerOf(adj, layer), t.q, t.region)
  {
    assert Agree(LayerOf(s, layer), LayerOf(adj, layer), Elements(t.region));
    assert Covers(LayerOf(s, layer), t.q, t.region) && InRange(LayerOf(adj, layer));
    CoversLocal(LayerOf(s, layer), LayerOf(adj, layer), t.q, t.region);
  }

  lemma LayerShadowed(t: Thread, adj: Adjacency, after: Adjacency, s: Adjacency, d: Dist)
    requires t.Healing? && Spans(t.region, s, t.q) && Sound(adj) && |s| == |adj| && t.m > 0
    requires Agree(LayerOf(s, t.layer), LayerOf(adj, t.layer), Elements(t.region))
    requires HealsOne(adj, after, t.q, t.m, t.region, t.layer, d)
    ensures Agree(HealedOn(s, t.q, t.region, t.m, d, t.layer), LayerOf(after, t.layer), Elements(t.region))
  {
    var w, w' := WorkOf(s, t.layer, HealingMetrics(0, 0)), WorkOf(adj, t.layer, HealingMetrics(0, 0));
    assert Covers(w.g, t.q, t.region) && InRange(w'.g);
    HealLocal(w, w', t.q, t.region, t.m, d, d);
  }

  lemma OutsideKept(t: Thread, adj: Adjacency, after: Adjacency, d: Dist)
    requires t.Healing? && Sound(adj) && 0 <= t.q < |adj| && t.m > 0 && Labels(t.region, |adj|)
    requires HealsOne(adj, after, t.q, t.m, t.region, t.layer, d) && Covers(LayerOf(adj, t.layer), t.q, t.region)
    ensures forall k :: 0 <= k < |adj| && k !in t.region ==> after[k] == adj[k]
  {
  }

  /** One layer more has been healed, nothing outside the region has changed. */
  lemma HealsShadowed(t: Thread, adj: Adjacency, after: Adjacency, s: Adjacency, d: Dist)
    requires t.Healing? && Sound(s) && Sound(adj) && |s| == |adj| && 0 <= t.q < |s| && t.m > 0
    requires HealShadow(t, adj, s, d) && Labels(t.region, |adj|)
    requires HealsOne(adj, after, t.q, t.m, t.region, t.layer, d)
    ensures HealShadow(t.(layer := t.layer + 1), after, s, d)
    ensures forall k :: 0 <= k < |adj| && k !in t.region ==> after[k] == adj[k]
  {
    RegionHolds(t, adj, s, d, t.layer);
    OutsideKept(t, adj, after, d);
    LayerShadowed(t, adj, after, s, d);
    forall l: nat
      ensures Agree(if l < t.layer + 1 then HealedOn(s, t.q, t.region, t.m, d, l) else LayerOf(s, l), LayerOf(after, l),
                    Elements(t.region))
    {
      if l != t.layer {
        OtherLayer(t, adj, after, s, d, l);
      }
    }
  }

  lemma OtherLayer(t: Thread, adj: Adjacency, after: Adjacency, s: Adjacency, d: Dist, l: nat)
    requires t.Healing? && Spans(t.region, s, t.q) && |s| == |adj| && t.m > 0 && Partly(t, adj, s, d)
    requires OnlyLayer(adj, after, t.layer) && l != t.layer
    ensures Agree(if l < t.layer + 1 then HealedOn(s, t.q, t.region, t.m, d, l) else LayerOf(s, l), LayerOf(after, l),
                  Elements(t.region))
  {
    assert LayerOf(after, l) == LayerOf(adj, l);
    assert Agree(if l < t.layer then HealedOn(s, t.q, t.region, t.m, d, l) else LayerOf(s, l), LayerOf(adj, l),
                 Elements(t.region));
  }

  /** The lists after a finished heal: those of the region as they are stored, all others as in the history. */
  function Spliced(s: Adjacency, adj: Adjacency, region: seq<int>): (r: Adjacency)
    requires |s| == |adj|
    ensures |r| == |s|
    ensures forall k :: 0 <= k < |s| ==> r[k] == if k in region then adj[k] else s[k]
  {
    seq(|s|, k requires 0 <= k < |s| => if k in region then adj[k] else s[k])
  }

  lemma SplicedSound(s: Adjacency, adj: Adjacency, region: seq<int>)
    requires |s| == |adj| && Sound(s) && Sound(adj)
    ensures Sound(Spliced(s, adj, region))
  {
    forall l: nat ensures InRange(LayerOf(Spliced(s, adj, region), l)) {
      assert InRange(LayerOf(s, l)) && InRange(LayerOf(adj, l));
      forall k | 0 <= k < |s| ensures Labels(LayerOf(Spliced(s, adj, region), l)[k], |s|) {
        assert LayerOf(Spliced(s, adj, region), l)[k] == if k in region then LayerOf(adj, l)[k] else LayerOf(s, l)[k];
      }
    }
  }

  /** A layer above all lists of the region is healed by doing nothing. */
  lemma NothingAbove(s: Adjacency, q: int, region: seq<int>, m: int, d: Dist, l: nat)
    requires Spans(region, s, q) && m > 0 && forall k :: k in region && 0 <= k < |s| ==> |s[k]| <= l
    ensures HealedOn(s, q, region, m, d, l) == LayerOf(s, l)
  {
    var g := LayerOf(s, l);
    assert Covers(g, q, region);
    assert g[q] == [] && forall k :: 0 <= k < |g| && k in region ==> g[k] == [];
    HealEmpty(WorkOf(s, l, HealingMetrics(0, 0)), q, region, m, d);
  }

  /** When the last layer is done, every layer of the region is healed. */
  lemma AllHealed(t: Thread, adj: Adjacency, s: Adjacency, d: Dist, l: nat)
    requires t.Healing? && Sound(s) && |s| == |adj| && 0 <= t.q < |s| && t.m > 0 && t.layer == t.top
    requires HealShadow(t, adj, s, d)
    ensures Agree(HealedOn(s, t.q, t.region, t.m, d, l), LayerOf(adj, l), Elements(t.region))
    ensures HealedOn(s, t.q, t.region, t.m, d, l)[t.q] == []
    ensures forall k :: 0 <= k < |s| && k !in t.region ==> HealedOn(s, t.q, t.region, t.m, d, l)[k] == LayerOf(s, l)[k]
  {
    assert Agree(if l < t.layer then HealedOn(s, t.q, t.region, t.m, d, l) else LayerOf(s, l), LayerOf(adj, l),
                 Elements(t.region));
    if l >= t.top {
      NothingAbove(s, t.q, t.region, t.m, d, l);
    }
    assert Covers(LayerOf(s, l), t.q, t.region);
    HealAccounts(WorkOf(s, l, HealingMetrics(0, 0)), t.q, t.region, t.m, d);
    forall k | 0 <= k < |s| && k !in t.region
      ensures HealedOn(s, t.q, t.region, t.m, d, l)[k] == LayerOf(s, l)[k]
    {
      assert k !in Elements(t.region);
    }
  }

  lemma ClearedSame(adj: Adjacency, q: int, l: nat)
    requires 0 <= q < |adj| && LayerOf(adj, l)[q] == []
    ensures LayerOf(Cleared(adj, q), l) == LayerOf(adj, l)
  {
    forall k | 0 <= k < |adj| ensures LayerOf(Cleared(adj, q), l)[k] == LayerOf(adj, l)[k] {
    }
  }

  /** A heal that finishes has done to the serial lists exactly what a heal alone does. */
  lemma FinishedHeal(t: Thread, adj: Adjacency, s: Adjacency, d: Dist)
    requires t.Healing? && Sound(s) && Sound(adj) && |s| == |adj| && 0 <= t.q < |s| && t.m > 0 && t.layer == t.top
    requires HealShadow(t, adj, s, d) && t.q in t.region
    ensures HealedWith(s, Spliced(s, Cleared(adj, t.q), t.region), t.q, t.region, t.m, d)
  {
    var s' := Spliced(s, Cleared(adj, t.q), t.region);
    forall l: nat ensures LayerOf(s', l) == HealedOn(s, t.q, t.region, t.m, d, l) {
      AllHealed(t, adj, s, d, l);
      assert t.q in Elements(t.region);
      ClearedSame(adj, t.q, l);
      var h := HealedOn(s, t.q, t.region, t.m, d, l);
      forall k | 0 <= k < |s| ensures LayerOf(s', l)[k] == h[k] {
        if k in t.region {
          assert k in Elements(t.region);
          assert LayerOf(s', l)[k] == LayerOf(Cleared(adj, t.q), l)[k];
        }
      }
    }
  }

  // ----- nobody else touches the region of a heal -----------------------------------

  lemma Elsewhere(w: World, i: nat, j: nat, x: int, pool: nat)
    requires pool > 0 && AllFine(w, pool) && Exclusion(w, pool) && i in w.threads && j in w.threads && i != j
    requires w.threads[i].Healing? && x in w.threads[i].region
    ensures !Owns(w.threads[j], x, pool) && StripeIn(x, pool) !in LockProtocol.Shared(w.threads[j], pool)
  {
    var t := w.threads[i];
    assert Fine(t, |w.adj|, pool);
    FullCovers(t.guard, t.region, x, pool);
    OwnedAlone(w, i, j, x, pool);
  }

  /** A node of a held region, or of a held guard on one node, is in no other heal. */
  lemma RegionsApart(w: World, i: nat, j: nat, x: int, pool: nat)
    requires pool > 0 && AllFine(w, pool) && Exclusion(w, pool) && i in w.threads && j in w.threads && i != j
    requires w.threads[j].Healing? && Owns(w.threads[i], x, pool)
    ensures x !in w.threads[j].region
  {
    if x in w.threads[j].region {
      Elsewhere(w, j, i, x, pool);
    }
  }

  // ----- every step of the run is shadowed ------------------------------------------

  /** Thread j's heal has not been touched by a step of another thread. */
  ghost predicate Untouched(w: World, s: Adjacency, w': World, s': Adjacency, j: nat, metric: Metric) {
    && IsHeal(w, j) && IsHeal(w', j) && w'.threads[j] == w.threads[j]
    && SameOn(w.adj, w'.adj, w.threads[j].region) && SameOn(s, s', w.threads[j].region)
    && SameDist(NodeDist(metric, w.rows), NodeDist(metric, w'.rows), Elements(w.threads[j].region))
  }

  lemma OtherShadowed(w: World, s: Adjacency, w': World, s': Adjacency, j: nat, pool: nat, metric: Metric)
    requires pool > 0 && Sound(s) && Sound(s') && |s| == |w.adj| == |w'.adj| == |s'|
    requires ShadowOf(w, s, j, pool, metric) && Untouched(w, s, w', s', j, metric)
    ensures ShadowOf(w', s', j, pool, metric)
  {
    HealUndisturbed(w.threads[j], w.adj, w'.adj, s, s', NodeDist(metric, w.rows), NodeDist(metric, w'.rows));
  }

  /** A step of thread id is shadowed when it leaves the other heals alone and its own heal is shadowed. */
  lemma Together(w: World, s: Adjacency, w': World, s': Adjacency, id: nat, pool: nat, metric: Metric)
    requires pool > 0 && Shadow(w, s, pool, metric) && AllFine(w', pool) && Sound(s') && |s'| == |s|
    requires SameAtRest(w', s')
    requires forall j :: IsHeal(w', j) && j != id ==> Untouched(w, s, w', s', j, metric)
    requires IsHeal(w', id) ==> ShadowOf(w', s', id, pool, metric)
    ensures Shadow(w', s', pool, metric)
  {
    forall j | IsHeal(w', j) ensures ShadowOf(w', s', j, pool, metric) {
      if j != id {
        assert Untouched(w, s, w', s', j, metric);
        OtherShadowed(w, s, w', s', j, pool, metric);
      }
    }
  }

  /** A heal that goes on keeps its region out of the comparison. */
  lemma RestKept(w: World, s: Adjacency, w': World, s': Adjacency)
    requires SameAtRest(w, s) && |s'| == |s| && |w'.adj| == |w.adj|
    requires forall j :: IsHeal(w, j) ==> IsHeal(w', j) && w'.threads[j].region == w.threads[j].region
    requires forall k :: 0 <= k < |s| && !InHeal(w', k) && s[k] == w.adj[k] ==> s'[k] == w'.adj[k]
    ensures SameAtRest(w', s')
  {
    forall k | 0 <= k < |s| && InHeal(w, k) ensures InHeal(w', k) {
      var j :| IsHeal(w, j) && k in w.threads[j].region;
      assert IsHeal(w', j);
    }
  }

  /** The heals in progress are the same ones, and lists and vectors have not changed. */
  lemma IdleStep(w: World, w': World, s: Adjacency, id: nat, pool: nat, metric: Metric)
    requires pool > 0 && Shadow(w, s, pool, metric) && AllFine(w', pool) && w'.adj == w.adj && w'.rows == w.rows
    requires !IsHeal(w, id) && !IsHeal(w', id)
    requires forall j :: j != id ==> (j in w'.threads <==> j in w.threads)
    requires forall j :: j != id && j in w.threads ==> w'.threads[j] == w.threads[j]
    ensures Shadow(w', s, pool, metric)
  {
    RestKept(w, s, w', s);
    Together(w, s, w', s, id, pool, metric);
  }

  lemma WipeApart(w: World, id: nat, w': World, s: Adjacency, j: nat, pool: nat, dim: nat, metric: Metric)
    requires pool > 0 && Exclusion(w, pool) && Step(w, Wipe(id), w', pool, dim, metric) && IsHeal(w', j)
    ensures Untouched(w, s, w', s, j, metric)
  {
    var q := w.threads[id].q;
    assert Fine(w.threads[id], |w.adj|, pool) && Fine(w.threads[j], |w.adj|, pool);
    FullCovers(w.threads[id].guard, [q], q, pool);
    RegionsApart(w, id, j, q, pool);
    RowsApart(w.rows, w'.rows, w.threads[j].region, q, metric);
  }

  lemma WipeStep(w: World, id: nat, w': World, s: Adjacency, pool: nat, dim: nat, metric: Metric)
    requires pool > 0 && Shadow(w, s, pool, metric) && Exclusion(w, pool)
    requires Step(w, Wipe(id), w', pool, dim, metric) && AllFine(w', pool)
    ensures Shadow(w', s, pool, metric)
  {
    forall j | IsHeal(w', j) ensures Untouched(w, s, w', s, j, metric) {
      WipeApart(w, id, w', s, j, pool, dim, metric);
    }
    RestKept(w, s, w', s);
    Together(w, s, w', s, id, pool, metric);
  }

  lemma RowsApart(rows: seq<Vector>, rows': seq<Vector>, region: seq<int>, q: int, metric: Metric)
    requires 0 <= q < |rows| && |rows'| == |rows| && q !in region
    requires forall k :: 0 <= k < |rows| && k != q ==> rows'[k] == rows[k]
    ensures SameDist(NodeDist(metric, rows), NodeDist(metric, rows'), Elements(region))
  {
  }

  /** The nodes of a region whose stripes are held are at rest until the heal starts. */
  lemma RegionAtRest(w: World, id: nat, s: Adjacency, pool: nat)
    requires pool > 0 && AllFine(w, pool) && Exclusion(w, pool) && SameAtRest(w, s)
    requires id in w.threads && w.threads[id].Locking? && w.threads[id].guard.Full()
    ensures SameOn(w.adj, s, w.threads[id].region)
  {
    var t := w.threads[id];
    assert Fine(t, |w.adj|, pool);
    forall k | 0 <= k < |s| && k in t.region ensures s[k] == w.adj[k] {
      FullCovers(t.guard, t.region, k, pool);
      if InHeal(w, k) {
        var j :| IsHeal(w, j) && k in w.threads[j].region;
        RegionsApart(w, id, j, k, pool);
      }
    }
  }

  /** A heal starts: its region is shadowed as it stands. */
  lemma StartOwn(w: World, id: nat, w': World, s: Adjacency, pool: nat, metric: Metric)
    requires pool > 0 && AllFine(w, pool) && Exclusion(w, pool) && SameAtRest(w, s) && Sound(s)
    requires id in w.threads && w.threads[id].Locking? && w.threads[id].guard.Full()
    requires var t := w.threads[id];
             && Fine(t, |w.adj|, pool) && Spans(t.region, w.adj, t.q)
             && w' == Put(w, id, Healing(t.q, t.m, t.guard, t.region, 0, Height(w.adj, t.q, t.region)))
    ensures ShadowOf(w', s, id, pool, metric) && SameAtRest(w', s)
  {
    RegionAtRest(w, id, s, pool);
    HealStarts(w'.threads[id], w.adj, s, NodeDist(metric, w.rows));
    RestKept(w, s, w', s);
  }

  lemma StartStep(w: World, id: nat, w': World, s: Adjacency, pool: nat, metric: Metric)
    requires pool > 0 && Shadow(w, s, pool, metric) && Exclusion(w, pool) && AllFine(w', pool)
    requires w'.adj == w.adj && w'.rows == w.rows && ShadowOf(w', s, id, pool, metric) && SameAtRest(w', s)
    requires forall j :: j != id ==> (j in w'.threads <==> j in w.threads)
    requires forall j :: j != id && j in w.threads ==> w'.threads[j] == w.threads[j]
    ensures Shadow(w', s, pool, metric)
  {
    Together(w, s, w', s, id, pool, metric);
  }

  lemma HealStarts(t: Thread, adj: Adjacency, s: Adjacency, d: Dist)
    requires t.Healing? && Sound(s) && Sound(adj) && |s| == |adj| && 0 <= t.q < |s| && t.m > 0 && t.layer == 0
    requires Spans(t.region, adj, t.q) && SameOn(adj, s, t.region)
    requires t.top == Height(adj, t.q, t.region)
    ensures HealShadow(t, adj, s, d)
  {
    SpansLocal(adj, s, t.q, t.region);
    forall k | k in t.region && 0 <= k < |s| ensures |s[k]| <= t.top {
      var i :| 0 <= i < |t.region| && t.region[i] == k;
    }
    forall l: nat ensures Agree(LayerOf(s, l), LayerOf(adj, l), Elements(t.region)) {
      SameLayers(adj, s, t.region, l);
    }
  }

  /** Two heals in progress have disjoint regions. */
  lemma ApartFrom(w: World, i: nat, j: nat, pool: nat)
    requires pool > 0 && AllFine(w, pool) && Exclusion(w, pool) && i != j && IsHeal(w, i) && IsHeal(w, j)
    ensures Disjoint(w.threads[i].region, w.threads[j].region)
  {
    assert Fine(w.threads[i], |w.adj|, pool);
    forall x | x in w.threads[i].region ensures x !in w.threads[j].region {
      FullCovers(w.threads[i].guard, w.threads[i].region, x, pool);
      RegionsApart(w, i, j, x, pool);
    }
  }

  /** A heal step changes lists of its own region only. */
  lemma OwnRegion(w: World, id: nat, after: Adjacency, w': World, s: Adjacency, pool: nat, dim: nat, metric: Metric)
    requires pool > 0 && Shadow(w, s, pool, metric) && Step(w, HealOne(id, after), w', pool, dim, metric)
    ensures forall k :: 0 <= k < |w.adj| && k !in w.threads[id].region ==> w'.adj[k] == w.adj[k]
    ensures |w'.adj| == |s| ==> ShadowOf(w', s, id, pool, metric)
  {
    var t := w.threads[id];
    assert IsHeal(w, id) && Fine(t, |w.adj|, pool);
    assert ShadowOf(w, s, id, pool, metric);
    HealsShadowed(t, w.adj, after, s, NodeDist(metric, w.rows));
  }

  lemma HealApart(w: World, id: nat, w': World, s: Adjacency, s': Adjacency, j: nat, pool: nat, metric: Metric)
    requires pool > 0 && AllFine(w, pool) && Exclusion(w, pool) && IsHeal(w, id) && IsHeal(w, j) && j != id
    requires IsHeal(w', j) && w'.threads[j] == w.threads[j] && w'.rows == w.rows
    requires |w'.adj| == |w.adj| && |s'| == |s| == |w.adj|
    requires forall k :: 0 <= k < |s| && k !in w.threads[id].region ==> w'.adj[k] == w.adj[k] && s'[k] == s[k]
    ensures Untouched(w, s, w', s', j, metric)
  {
    ApartFrom(w, id, j, pool);
  }

  lemma OthersApart(w: World, id: nat, w': World, s: Adjacency, s': Adjacency, pool: nat, metric: Metric)
    requires pool > 0 && AllFine(w, pool) && Exclusion(w, pool) && IsHeal(w, id) && w'.rows == w.rows
    requires forall j :: j != id && j in w'.threads ==> j in w.threads && w'.threads[j] == w.threads[j]
    requires |w'.adj| == |w.adj| && |s'| == |s| == |w.adj|
    requires forall k :: 0 <= k < |s| && k !in w.threads[id].region ==> w'.adj[k] == w.adj[k] && s'[k] == s[k]
    ensures forall j :: IsHeal(w', j) && j != id ==> Untouched(w, s, w', s', j, metric)
  {
    forall j | IsHeal(w', j) && j != id ensures Untouched(w, s, w', s', j, metric) {
      HealApart(w, id, w', s, s', j, pool, metric);
    }
  }

  lemma HealStep(w: World, id: nat, t': Thread, w': World, s: Adjacency, pool: nat, metric: Metric)
    requires pool > 0 && AllFine(w, pool) && Exclusion(w, pool) && SameAtRest(w, s)
    requires IsHeal(w, id) && t'.Healing? && t'.region == w.threads[id].region
    requires w'.threads == w.threads[id := t'] && w'.rows == w.rows && |w'.adj| == |w.adj|
    requires forall k :: 0 <= k < |s| && k !in t'.region ==> w'.adj[k] == w.adj[k]
    ensures SameAtRest(w', s) && forall j :: IsHeal(w', j) && j != id ==> Untouched(w, s, w', s, j, metric)
  {
    HealRest(w, id, w', s);
    OthersApart(w, id, w', s, s, pool, metric);
  }

  lemma HealRest(w: World, id: nat, w': World, s: Adjacency)
    requires SameAtRest(w, s) && IsHeal(w, id) && |w'.adj| == |w.adj|
    requires forall j :: IsHeal(w, j) ==> IsHeal(w', j) && w'.threads[j].region == w.threads[j].region
    requires forall k :: 0 <= k < |s| && k !in w.threads[id].region ==> w'.adj[k] == w.adj[k]
    ensures SameAtRest(w', s)
  {
    assert forall k :: k in w.threads[id].region ==> InHeal(w, k);
    assert IsHeal(w', id);
    RestKept(w, s, w', s);
  }

  /** After the heal the nodes of its region are at rest again. */
  lemma RestAfterFinish(w: World, id: nat, w': World, s: Adjacency, s': Adjacency)
    requires SameAtRest(w, s) && IsHeal(w, id) && |w'.adj| == |w.adj|
    requires s' == Spliced(s, w'.adj, w.threads[id].region)
    requires forall j :: IsHeal(w, j) && j != id ==> IsHeal(w', j) && w'.threads[j] == w.threads[j]
    requires forall k :: 0 <= k < |s| && k !in w.threads[id].region ==> w'.adj[k] == w.adj[k]
    ensures SameAtRest(w', s')
  {
    forall k | k !in w.threads[id].region && InHeal(w, k) ensures InHeal(w', k) {
      var j :| IsHeal(w, j) && k in w.threads[j].region;
      assert IsHeal(w', j);
    }
  }

  lemma FinishStep(w: World, id: nat, w': World, s: Adjacency, pool: nat, dim: nat, metric: Metric)
    returns (s': Adjacency)
    requires pool > 0 && Shadow(w, s, pool, metric) && Exclusion(w, pool)
    requires Step(w, Finish(id), w', pool, dim, metric) && AllFine(w', pool)
    ensures Shadow(w', s', pool, metric) && SerialStep(w, Finish(id), s, s', pool, metric)
  {
    var t := w.threads[id];
    assert IsHeal(w, id) && Fine(t, |w.adj|, pool) && ShadowOf(w, s, id, pool, metric);
    s' := Spliced(s, w'.adj, t.region);
    assert SerialStep(w, Finish(id), s, s', pool, metric) by {
      FinishedHeal(t, w.adj, s, NodeDist(metric, w.rows));
    }
    SplicedSound(s, w'.adj, t.region);
    OthersApart(w, id, w', s, s', pool, metric);
    RestAfterFinish(w, id, w', s, s');
    Together(w, s, w', s', id, pool, metric);
  }

  lemma WriteApart(w: World, id: nat, w': World, s: Adjacency, s': Adjacency, j: nat,
                   pool: nat, dim: nat, metric: Metric)
    requires pool > 0 && Exclusion(w, pool) && Step(w, Write(id), w', pool, dim, metric) && IsHeal(w', j)
    requires |s| == |w.adj| && s' == SetSlot(s, w.threads[id].node, w.threads[id].slot, w.threads[id].list)
    ensures Untouched(w, s, w', s', j, metric) && w.threads[id].node !in w.threads[j].region
  {
    var t := w.threads[id];
    assert Fine(t, |w.adj|, pool);
    FullCovers(t.guard, [t.node], t.node, pool);
    RegionsApart(w, id, j, t.node, pool);
  }

  lemma WriteStep(w: World, id: nat, w': World, s: Adjacency, pool: nat, dim: nat, metric: Metric)
    returns (s': Adjacency)
    requires pool > 0 && Shadow(w, s, pool, metric) && Exclusion(w, pool)
    requires Step(w, Write(id), w', pool, dim, metric) && AllFine(w', pool)
    ensures Shadow(w', s', pool, metric) && SerialStep(w, Write(id), s, s', pool, metric)
  {
    var t := w.threads[id];
    assert Fine(t, |w.adj|, pool);
    s' := SetSlot(s, t.node, t.slot, t.list);
    SlotSound(s, t.node, t.slot, t.list);
    forall j | IsHeal(w', j) ensures Untouched(w, s, w', s', j, metric) && t.node !in w.threads[j].region {
      WriteApart(w, id, w', s, s', j, pool, dim, metric);
    }
    RestKept(w, s, w', s');
    Together(w, s, w', s', id, pool, metric);
  }

  lemma ShadowStep(w: World, e: Event, w': World, s: Adjacency, pool: nat, dim: nat, metric: Metric)
    returns (s': Adjacency)
    requires pool > 0 && Shadow(w, s, pool, metric) && Exclusion(w, pool)
    requires Step(w, e, w', pool, dim, metric) && Current(w, e)
    ensures Shadow(w', s', pool, metric) && SerialStep(w, e, s, s', pool, metric)
  {
    StepFine(w, e, w', pool, dim, metric);
    s' := s;
    if e.Finish? {
      s' := FinishStep(w, e.id, w', s, pool, dim, metric);
    } else if e.Write? {
      s' := WriteStep(w, e.id, w', s, pool, dim, metric);
    } else if e.HealOne? {
      OwnRegion(w, e.id, e.after, w', s, pool, dim, metric);
      HealStep(w, e.id, w'.threads[e.id], w', s, pool, metric);
      Together(w, s, w', s, e.id, pool, metric);
    } else if e.Wipe? {
      WipeStep(w, e.id, w', s, pool, dim, metric);
    } else {
      LockStep(w, e, w', s, pool, dim, metric);
    }
  }

  /** The steps that only move locks. */
  lemma LockStep(w: World, e: Event, w': World, s: Adjacency, pool: nat, dim: nat, metric: Metric)
    requires pool > 0 && Shadow(w, s, pool, metric) && Exclusion(w, pool)
    requires Step(w, e, w', pool, dim, metric) && Current(w, e) && AllFine(w', pool)
    requires !e.Finish? && !e.Write? && !e.HealOne? && !e.Wipe?
    ensures Shadow(w', s, pool, metric)
  {
    if IsHeal(w', e.id) && !IsHeal(w, e.id) {
      var t := w.threads[e.id];
      assert Fine(t, |w.adj|, pool);
      if e.Check? {
        UpToDateSpans(t.region, w.adj, t.q);
      }
      StartOwn(w, e.id, w', s, pool, metric);
      StepOthers(w, e, w', pool, dim, metric);
      StartStep(w, e.id, w', s, pool, metric);
    } else {
      StepOthers(w, e, w', pool, dim, metric);
      IdleStep(w, w', s, e.id, pool, metric);
    }
  }

  ghost predicate IsHistory(ws: seq<World>, es: seq<Event>, ss: seq<Adjacency>, pool: nat, metric: Metric)
    requires pool > 0
  {
    && |ws| == |es| + 1 == |ss| && ss[0] == ws[0].adj
    && forall i :: 0 <= i < |es| ==> SerialStep(ws[i], es[i], ss[i], ss[i + 1], pool, metric)
  }

  lemma {:induction false} History(ws: seq<World>, es: seq<Event>, pool: nat, dim: nat, metric: Metric)
    returns (ss: seq<Adjacency>)
    requires pool > 0 && IsRun(ws, es, pool, dim, metric) && UsesSpanningRegions(ws, es)
    ensures IsHistory(ws, es, ss, pool, metric) && forall i :: 0 <= i < |ws| ==> Shadow(ws[i], ss[i], pool, metric)
  {
    if es == [] {
      ss := [ws[0].adj];
    } else {
      var k := |es| - 1;
      assert IsRun(ws[..k + 1], es[..k], pool, dim, metric);
      assert UsesSpanningRegions(ws[..k + 1], es[..k]);
      var past := History(ws[..k + 1], es[..k], pool, dim, metric);
      RunExcludes(ws[..k + 1], es[..k], pool, dim, metric);
      var s := ShadowStep(ws[k], es[k], ws[k + 1], past[k], pool, dim, metric);
      ss := past + [s];
    }
  }

  /** The serial lists are the stored ones where nobody heals. */
  ghost predicate Matches(w: World, s: Adjacency) {
    SameAtRest(w, s) && ((forall id :: !IsHeal(w, id)) ==> s == w.adj)
  }

  lemma ShadowMatches(w: World, s: Adjacency, pool: nat, metric: Metric)
    requires pool > 0 && Shadow(w, s, pool, metric)
    ensures Matches(w, s)
  {
    if forall id :: !IsHeal(w, id) {
      assert forall k :: 0 <= k < |s| ==> !InHeal(w, k);
    }
  }

  /**
   * Serializability. The heals and writes of a run, each done at once at the moment it finished, form a
   * history whose lists are the stored ones for every node that is not being healed, and for all nodes when
   * no heal is in progress.
   */
  lemma Serializable(ws: seq<World>, es: seq<Event>, pool: nat, dim: nat, metric: Metric)
    requires pool > 0 && IsRun(ws, es, pool, dim, metric) && UsesSpanningRegions(ws, es)
    ensures exists ss :: IsHistory(ws, es, ss, pool, metric) && forall i :: 0 <= i < |ws| ==> Matches(ws[i], ss[i])
  {
    var ss := History(ws, es, pool, dim, metric);
    forall i | 0 <= i < |ws| ensures Matches(ws[i], ss[i]) {
      ShadowMatches(ws[i], ss[i], pool, metric);
    }
  }

  // ----- nobody reads what is being written -----------------------------------------

  ghost predicate Changes(w: World, w': World, k: int) {
    && |w'.adj| == |w.adj| && |w'.rows| == |w.rows| == |w.adj| && 0 <= k < |w.adj|
    && (w'.adj[k] != w.adj[k] || w'.rows[k] != w.rows[k])
  }

  lemma ChangedOwned(w: World, e: Event, w': World, s: Adjacency, k: int, pool: nat, dim: nat, metric: Metric)
    requires pool > 0 && Shadow(w, s, pool, metric) && Step(w, e, w', pool, dim, metric) && Changes(w, w', k)
    ensures e.id in w.threads && Owns(w.threads[e.id], k, pool)
  {
    assert e.id in w.threads ==> Fine(w.threads[e.id], |w.adj|, pool);
    if e.HealOne? || e.Finish? {
      var t := w.threads[e.id];
      if e.HealOne? {
        OwnRegion(w, e.id, e.after, w', s, pool, dim, metric);
      }
      FullCovers(t.guard, t.region, k, pool);
    } else if e.Wipe? {
      FullCovers(w.threads[e.id].guard, [k], k, pool);
    } else if e.Write? {
      FullCovers(w.threads[e.id].guard, [k], k, pool);
    }
  }

  /**
   * Whenever a step changes a node's lists or vector, the thread that takes it holds the node's stripe
   * exclusively and no other thread holds it in any way: nobody else writes the node and no walker, which
   * reads a node only while its cursor is on it, reads it.
   */
  lemma WritesProtected(ws: seq<World>, es: seq<Event>, i: nat, k: int, j: nat, pool: nat, dim: nat, metric: Metric)
    requires pool > 0 && IsRun(ws, es, pool, dim, metric) && UsesSpanningRegions(ws, es)
    requires i < |es| && Changes(ws[i], ws[i + 1], k) && j in ws[i].threads && j != es[i].id
    ensures es[i].id in ws[i].threads && Owns(ws[i].threads[es[i].id], k, pool)
    ensures !Owns(ws[i].threads[j], k, pool) && StripeIn(k, pool) !in LockProtocol.Shared(ws[i].threads[j], pool)
    ensures ws[i].threads[j].Walking? ==> ws[i].threads[j].at != k && ws[i].threads[j].next != Some(k)
  {
    var s := ShadowAt(ws, es, i, pool, dim, metric);
    ChangedOwned(ws[i], es[i], ws[i + 1], s, k, pool, dim, metric);
    OwnedAlone(ws[i], es[i].id, j, k, pool);
  }

  lemma ShadowAt(ws: seq<World>, es: seq<Event>, i: nat, pool: nat, dim: nat, metric: Metric) returns (s: Adjacency)
    requires pool > 0 && IsRun(ws, es, pool, dim, metric) && UsesSpanningRegions(ws, es) && i < |ws|
    ensures Shadow(ws[i], s, pool, metric) && Exclusion(ws[i], pool)
  {
    var ss := History(ws, es, pool, dim, metric);
    s := ss[i];
    RunExcludes(ws[..i + 1], es[..i], pool, dim, metric);
  }

  // ----- a region that misses a neighbour -------------------------------------------

  /** On a symmetric layer the heal takes q out of the list of every neighbour, region or no region. */
  lemma NeighbourLosesQ(w: Work, q: int, region: seq<int>, m: int, d: Dist, u: int)
    requires InRange(w.g) && Symmetric(w.g) && m > 0 && 0 <= q < |w.g| && Labels(region, |w.g|)
    requires u in w.g[q] && u != q
    ensures 0 <= u < |w.g| && q in w.g[u] && q !in HealLayer(w, q, region, m, d).g[u]
  {
    var os, all := Orphans(w.g[q], q, |w.g|), Nodes(w.g);
    var w1 := Isolate(w, q, region);
    assert Labels(w.g[q], |w.g|);
    IsolateStep(w, q, region, u);
    IsolateInRange(w, q, region);
    if |os| >= 2 {
      var cs := Sort(Pairs(os, |os|, d));
      CandidateEnds(os, d);
      assert Local(w1.g, Elements(os), all);
      TryAllConfined(w1, cs, m, d, Elements(os), all);
      assert q !in Elements(os);
    }
  }

  /**
   * The condition on regions is needed: on a symmetric layer a heal whose region misses a neighbour of q writes the
   * list of that neighbour, and holds its stripe only if a node of the region happens to have the same one.
   */
  lemma MissedNeighbourWritten(w: World, id: nat, after: Adjacency, w': World, u: int, pool: nat, dim: nat,
                               metric: Metric)
    requires pool > 0 && Step(w, HealOne(id, after), w', pool, dim, metric)
    requires var t := w.threads[id];
             && 0 <= t.q < |w.adj| && Symmetric(LayerOf(w.adj, t.layer))
             && u in LayerOf(w.adj, t.layer)[t.q] && u != t.q && u !in t.region
    ensures !Spans(w.threads[id].region, w.adj, w.threads[id].q) && Changes(w, w', u)
    ensures Owns(w.threads[id], u, pool) <==>
              exists k :: k in w.threads[id].region && StripeIn(k, pool) == StripeIn(u, pool)
  {
    var t := w.threads[id];
    var g := LayerOf(w.adj, t.layer);
    assert Fine(t, |w.adj|, pool) && InRange(g);
    NeighbourLosesQ(WorkOf(w.adj, t.layer, HealingMetrics(0, 0)), t.q, t.region, t.m, NodeDist(metric, w.rows), u);
    assert LayerOf(after, t.layer)[u] != g[u];
    assert Taken(t.guard) == Elements(t.guard.stripes);
  }
}
