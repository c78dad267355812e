module HealReachability {
  /** With room for every former neighbour to be linked to every other, the heal disconnects nobody. */

  import opened Seqs
  import opened LayerHeal
  import opened HealBookkeeping
  import opened HealStability
  import opened Reachability

  /** Each list of `os` has only been extended, by distinct other members of `os` that it did not hold. */
  ghost predicate Grown(g: Layer, h: Layer, os: seq<int>) {
    && |h| == |g|
    && (forall k :: 0 <= k < |g| ==> |g[k]| <= |h[k]| && h[k][..|g[k]|] == g[k])
    && (forall k :: 0 <= k < |g| ==> Extra(h[k][|g[k]|..], g[k], k, os))
  }

  ghost predicate Extra(ext: seq<int>, list: seq<int>, k: int, os: seq<int>) {
    NoDup(ext) && forall x :: x in ext ==> x in Newcomers(os, list, k)
  }

  /** The members of `os` other than k that its list does not hold yet. */
  ghost function Newcomers(os: seq<int>, list: seq<int>, k: int): (s: set<int>)
    ensures forall x :: x in s <==> x in os && x != k && x !in list
  {
    Elements(os) - {k} - Elements(list)
  }

  /** Room for the list of each orphan to take in all the others. */
  ghost predicate Roomy(g: Layer, os: seq<int>, m: int) {
    forall k :: 0 <= k < |g| && k in os ==> |g[k]| + |Newcomers(os, g[k], k)| <= m
  }

  lemma RoomLeft(g: Layer, h: Layer, os: seq<int>, m: int, u: int, v: int)
    requires Grown(g, h, os) && Roomy(g, os, m) && 0 <= u < |g| && u in os && v in os && u != v && v !in h[u]
    ensures |h[u]| < m
  {
    var ext := h[u][|g[u]|..];
    HeldBefore(g[u], h[u]);
    PushNoDup(ext, v);
    NoDupCardinality(ext + [v]);
    assert Extra(ext, g[u], u, os);
    SubsetCardinality(Elements(ext + [v]), Newcomers(os, g[u], u));
  }

  lemma HeldBefore(list: seq<int>, longer: seq<int>)
    requires |list| <= |longer| && longer[..|list|] == list
    ensures forall x :: x in longer <==> x in list || x in longer[|list|..]
  {
    assert longer == list + longer[|list|..];
  }

  lemma PushGrown(g: Layer, h: Layer, os: seq<int>, u: int, v: int)
    requires Grown(g, h, os) && 0 <= u < |g| && v in os && u != v && v !in h[u]
    ensures Grown(g, Push(h, u, v), os)
  {
    var r := Push(h, u, v);
    var ext := h[u][|g[u]|..];
    HeldBefore(g[u], h[u]);
    assert r[u][|g[u]|..] == ext + [v];
    assert r[u][..|g[u]|] == h[u][..|g[u]|];
    PushNoDup(ext, v);
  }

  lemma CommitGrows(g: Layer, w: Work, os: seq<int>, m: int, d: Dist, u: int, v: int)
    requires Grown(g, w.g, os) && Roomy(g, os, m) && InRange(w.g) && m > 0
    requires 0 <= u < |g| && 0 <= v < |g| && u in os && v in os && u != v && v !in w.g[u]
    ensures |w.g[u]| < m && Commit(w, u, v, m, d).g == Push(w.g, u, v)
    ensures Grown(g, Push(w.g, u, v), os) && InRange(Push(w.g, u, v))
  {
    RoomLeft(g, w.g, os, m, u, v);
    PushGrown(g, w.g, os, u, v);
    CommitRoom(w, u, v, m, d);
    PushInRange(w.g, u, v);
  }

  lemma PushInRange(g: Layer, u: int, v: int)
    requires InRange(g) && 0 <= u < |g| && 0 <= v < |g|
    ensures InRange(Push(g, u, v))
  {
    assert Labels(g[u], |g|);
  }

  lemma PushLinks(g: Layer, u: int, v: int)
    requires 0 <= u < |g|
    ensures forall a, b {:trigger Linked(g, a, b)} :: Linked(g, a, b) ==> Linked(Push(g, u, v), a, b)
    ensures 0 <= v < |g| && u in Push(g, u, v)[v] ==> Linked(Push(g, u, v), u, v)
  {
  }

  lemma TryInsertGrows(g: Layer, w: Work, os: seq<int>, m: int, d: Dist, u: int, v: int)
    requires Grown(g, w.g, os) && Roomy(g, os, m) && InRange(w.g) && m > 0
    requires 0 <= u < |g| && 0 <= v < |g| && u in os && v in os && u != v
    ensures var r := TryInsert(w, u, v, m, d);
            && Grown(g, r.g, os) && Linked(r.g, u, v)
            && forall a, b {:trigger Linked(w.g, a, b)} :: Linked(w.g, a, b) ==> Linked(r.g, a, b)
  {
    var uHas, vHas := v in w.g[u], u in w.g[v];
    if uHas && !vHas {
      CommitGrows(g, w, os, m, d, v, u);
      PushLinks(w.g, v, u);
    } else if vHas && !uHas {
      CommitGrows(g, w, os, m, d, u, v);
      PushLinks(w.g, u, v);
    } else if !uHas {
      BothGrow(g, w, os, m, d, u, v);
    }
  }

  lemma BothGrow(g: Layer, w: Work, os: seq<int>, m: int, d: Dist, u: int, v: int)
    requires Grown(g, w.g, os) && Roomy(g, os, m) && InRange(w.g) && m > 0
    requires 0 <= u < |g| && 0 <= v < |g| && u in os && v in os && u != v && v !in w.g[u] && u !in w.g[v]
    ensures TryInsert(w, u, v, m, d).g == Push(Push(w.g, u, v), v, u)
    ensures Grown(g, Push(Push(w.g, u, v), v, u), os) && Linked(Push(Push(w.g, u, v), v, u), u, v)
    ensures forall a, b {:trigger Linked(w.g, a, b)} ::
              Linked(w.g, a, b) ==> Linked(Push(Push(w.g, u, v), v, u), a, b)
  {
    CommitGrows(g, w, os, m, d, v, u);
    CommitGrows(g, w, os, m, d, u, v);
    CommitStep(w, u, v, m, d);
    CommitGrows(g, Commit(w, u, v, m, d), os, m, d, v, u);
    PushLinks(w.g, u, v);
    PushLinks(Push(w.g, u, v), v, u);
  }

  ghost predicate AllLinked(h: Layer, cs: seq<Candidate>) {
    forall i :: 0 <= i < |cs| ==> Linked(h, cs[i].u, cs[i].w)
  }

  lemma {:induction false} TryAllGrows(w: Work, cs: seq<Candidate>, os: seq<int>, m: int, d: Dist)
    requires InRange(w.g) && m > 0 && Roomy(w.g, os, m) && EndsIn(cs, Elements(os)) && Labels(os, |w.g|)
    ensures Grown(w.g, TryAll(w, cs, m, d).g, os)
    ensures AllLinked(TryAll(w, cs, m, d).g, cs)
  {
    if cs == [] {
      assert forall k :: 0 <= k < |w.g| ==> w.g[k][|w.g[k]|..] == [];
    } else {
      var k := |cs| - 1;
      var init, u, v := cs[..k], cs[k].u, cs[k].w;
      TryAllGrows(w, init, os, m, d);
      var r := TryAll(w, init, m, d);
      assert u in os && v in os;
      TryInsertGrows(w.g, r, os, m, d, u, v);
      LinkedMore(r.g, TryAll(w, cs, m, d).g, cs);
    }
  }

  lemma LinkedMore(g: Layer, h: Layer, cs: seq<Candidate>)
    requires cs != [] && AllLinked(g, cs[..|cs| - 1]) && Linked(h, cs[|cs| - 1].u, cs[|cs| - 1].w)
    requires forall a, b {:trigger Linked(g, a, b)} :: Linked(g, a, b) ==> Linked(h, a, b)
    ensures AllLinked(h, cs)
  {
    forall i | 0 <= i < |cs| ensures Linked(h, cs[i].u, cs[i].w) {
      if i < |cs| - 1 {
        assert cs[..|cs| - 1][i] == cs[i];
      }
    }
  }

  lemma PairLinked(h: Layer, cs: seq<Candidate>, os: seq<int>, u: int, v: int, d: Dist)
    requires u in os && v in os && u != v
    requires forall c :: c in Pairs(os, |os|, d) ==> c in cs
    requires AllLinked(h, cs)
    ensures Linked(h, u, v)
  {
    var i :| 0 <= i < |os| && os[i] == u;
    var j :| 0 <= j < |os| && os[j] == v;
    var a, b := if i < j then i else j, if i < j then j else i;
    PairsComplete(os, |os|, d, a, b);
    var c := Candidate(os[a], os[b], d(os[a], os[b]));
    assert c in cs;
    var k :| 0 <= k < |cs| && cs[k] == c;
  }

  /**
   * Room on layer g for every former neighbour of q to keep its list and be linked to all the others: what it
   * holds besides q and what it does not hold yet fit under the cap.
   */
  ghost predicate HasRoom(g: Layer, q: int, m: int)
    requires 0 <= q < |g|
  {
    forall u :: u in g[q] && u != q && 0 <= u < |g| ==>
      |Without(g[u], q)| + |Newcomers(Orphans(g[q], q, |g|), Without(g[u], q), u)| <= m
  }

  lemma IsolateRoomy(w: Work, q: int, region: seq<int>, m: int)
    requires InRange(w.g) && 0 <= q < |w.g| && Labels(region, |w.g|) && HasRoom(w.g, q, m)
    ensures Roomy(Isolate(w, q, region).g, Orphans(w.g[q], q, |w.g|), m)
  {
    var os := Orphans(w.g[q], q, |w.g|);
    forall k | 0 <= k < |w.g| && k in os
      ensures |Isolate(w, q, region).g[k]| + |Newcomers(os, Isolate(w, q, region).g[k], k)| <= m
    {
      IsolateStep(w, q, region, k);
    }
  }

  lemma AllCandidatesLinked(w: Work, os: seq<int>, m: int, d: Dist)
    requires InRange(w.g) && m > 0 && Roomy(w.g, os, m) && NoDup(os) && Labels(os, |w.g|)
    ensures var cs := Sort(Pairs(os, |os|, d)); var h := TryAll(w, cs, m, d).g; Grown(w.g, h, os) && AllLinked(h, cs)
  {
    CandidateEnds(os, d);
    TryAllGrows(w, Sort(Pairs(os, |os|, d)), os, m, d);
  }

  lemma RewireLinksAll(w: Work, os: seq<int>, m: int, d: Dist)
    requires InRange(w.g) && m > 0 && Roomy(w.g, os, m) && NoDup(os) && Labels(os, |w.g|)
    ensures var h := TryAll(w, Sort(Pairs(os, |os|, d)), m, d).g;
            Grown(w.g, h, os) && forall u, v :: u in os && v in os && u != v ==> Linked(h, u, v)
  {
    var cs := Sort(Pairs(os, |os|, d));
    var h := TryAll(w, cs, m, d).g;
    AllCandidatesLinked(w, os, m, d);
    SortMembers(Pairs(os, |os|, d));
    forall u, v | u in os && v in os && u != v ensures Linked(h, u, v) {
      PairLinked(h, cs, os, u, v, d);
    }
  }

  lemma FewOrphans(os: seq<int>, u: int, v: int)
    requires |os| < 2 && u in os && v in os
    ensures u == v
  {
  }

  lemma IsolatedLinksAll(w: Work, w1: Work, q: int, os: seq<int>, m: int, d: Dist)
    requires InRange(w1.g) && m > 0 && 0 <= q < |w.g| && NodeRemoved(w.g, w1.g, q)
    requires Roomy(w1.g, os, m) && NoDup(os) && Labels(os, |w1.g|)
    ensures var h := TryAll(w1, Sort(Pairs(os, |os|, d)), m, d).g;
            && (forall a, b {:trigger b in w.g[a]} :: 0 <= a < |w.g| && b in w.g[a] && a != q && b != q ==> b in h[a])
            && (forall u, v :: u in os && v in os && u != v ==> Linked(h, u, v))
  {
    RewireLinksAll(w1, os, m, d);
    GrownKeeps(w1.g, TryAll(w1, Sort(Pairs(os, |os|, d)), m, d).g, os);
  }

  /** What the heal leaves of the edges away from q, and what it links. */
  ghost predicate AllJoined(g: Layer, h: Layer, q: int)
    requires |h| == |g| && 0 <= q < |g|
  {
    && (forall a, b {:trigger b in g[a]} :: 0 <= a < |g| && b in g[a] && a != q && b != q ==> b in h[a])
    && (forall u, v :: u in g[q] && v in g[q] && u != q && v != q && u != v ==> Linked(h, u, v))
  }

  lemma ManyJoined(w: Work, w1: Work, q: int, os: seq<int>, m: int, d: Dist)
    requires InRange(w.g) && InRange(w1.g) && m > 0 && 0 <= q < |w.g| && NodeRemoved(w.g, w1.g, q)
    requires Roomy(w1.g, os, m) && os == Orphans(w.g[q], q, |w.g|)
    ensures AllJoined(w.g, TryAll(w1, Sort(Pairs(os, |os|, d)), m, d).g, q)
  {
    IsolatedLinksAll(w, w1, q, os, m, d);
    LabelsOf(w.g, q);
  }

  lemma FewJoined(g: Layer, h: Layer, q: int, os: seq<int>)
    requires InRange(g) && 0 <= q < |g| && NodeRemoved(g, h, q) && os == Orphans(g[q], q, |g|) && |os| < 2
    ensures AllJoined(g, h, q)
  {
    LabelsOf(g, q);
    forall u, v | u in g[q] && v in g[q] && u != q && v != q ensures u == v {
      FewOrphans(os, u, v);
    }
  }

  /** With room, no edge away from q is lost and every two former neighbours of q end up linked. */
  lemma HealLinksAll(w: Work, q: int, region: seq<int>, m: int, d: Dist)
    requires InRange(w.g) && Symmetric(w.g) && m > 0 && 0 <= q < |w.g| && Labels(region, |w.g|)
    requires HasRoom(w.g, q, m)
    ensures AllJoined(w.g, HealLayer(w, q, region, m, d).g, q)
  {
    var os := Orphans(w.g[q], q, |w.g|);
    var w1 := Isolate(w, q, region);
    IsolateRemoves(w, q, region);
    IsolateInRange(w, q, region);
    if |os| >= 2 {
      IsolateRoomy(w, q, region, m);
      ManyJoined(w, w1, q, os, m, d);
    } else {
      FewJoined(w.g, w1.g, q, os);
    }
  }

  /**
   * On a simple layer the capacity condition is exact: no edge away from q is lost and every two former
   * neighbours end up linked if and only if each of them has the room.
   */
  lemma LinksAllExactly(w: Work, q: int, region: seq<int>, m: int, d: Dist)
    requires IsDist(d) && Simple(w.g) && m > 0 && 0 <= q < |w.g| && Labels(region, |w.g|) && CapFits(w.g, q, m)
    ensures AllJoined(w.g, HealLayer(w, q, region, m, d).g, q) <==> HasRoom(w.g, q, m)
  {
    var h := HealLayer(w, q, region, m, d).g;
    if HasRoom(w.g, q, m) {
      HealLinksAll(w, q, region, m, d);
    } else {
      HealStable(w, q, region, m, d);
      var os := Orphans(w.g[q], q, |w.g|);
      var u :| u in w.g[q] && u != q && 0 <= u < |w.g|
               && |Without(w.g[u], q)| + |Newcomers(os, Without(w.g[u], q), u)| > m;
      if AllJoined(w.g, h, q) {
        JoinedFits(w.g, h, q, u, m);
      }
    }
  }

  /** A list that holds all it held besides q, and all the other former neighbours, has had the room. */
  lemma JoinedFits(g: Layer, h: Layer, q: int, u: int, m: int)
    requires Simple(g) && |h| == |g| && 0 <= q < |g| && u in g[q] && 0 <= u < |g| && u != q
    requires NoDup(h[u]) && |h[u]| <= m && AllJoined(g, h, q)
    ensures |Without(g[u], q)| + |Newcomers(Orphans(g[q], q, |g|), Without(g[u], q), u)| <= m
  {
    var kept := Without(g[u], q);
    var more := Newcomers(Orphans(g[q], q, |g|), kept, u);
    WithoutNoDup(g[u], q);
    NoDupCardinality(kept);
    NoDupCardinality(h[u]);
    assert |Elements(kept) + more| == |Elements(kept)| + |more|;
    forall x | x in Elements(kept) + more ensures x in h[u] {
      if x in more {
        assert Linked(h, u, x);
      }
    }
    SubsetCardinality(Elements(kept) + more, Elements(h[u]));
  }

  lemma LabelsOf(g: Layer, q: int)
    requires InRange(g) && 0 <= q < |g|
    ensures forall x :: x in g[q] ==> 0 <= x < |g|
  {
  }

  lemma GrownKeeps(g: Layer, h: Layer, os: seq<int>)
    requires Grown(g, h, os)
    ensures forall a, b {:trigger b in g[a]} {:trigger b in h[a]} :: 0 <= a < |g| && b in g[a] ==> b in h[a]
  {
    forall a, b | 0 <= a < |g| && b in g[a] ensures b in h[a] {
      var i :| 0 <= i < |g[a]| && g[a][i] == b;
      assert h[a][..|g[a]|][i] == h[a][i];
    }
  }

  // ----- rerouting a path around q --------------------------------------------------

  /** Without q, the ends of every other edge reach each other, and so do every two former neighbours of q. */
  ghost predicate Bridged(g: Layer, h: Layer, q: int)
    requires |h| == |g| && 0 <= q < |g|
  {
    && (forall a, b :: 0 <= a < |g| && b in g[a] && a != q && b != q ==> Reach(h, Nodes(h) - {q}, a, b))
    && (forall a, b :: a in g[q] && b in g[q] && a != q && b != q ==> Reach(h, Nodes(h) - {q}, a, b))
  }

  /** Nodes other than q that were connected are connected without q. */
  ghost predicate KeepsConnected(g: Layer, h: Layer, q: int) {
    forall a, b :: a != q && b != q && Reach(g, Nodes(g), a, b) ==> Reach(h, Nodes(h) - {q}, a, b)
  }

  /** From the first node of the path that is not q, or from some former neighbour of q, its end is reachable without q. */
  lemma {:induction false} Reroute(g: Layer, h: Layer, q: int, p: seq<int>) returns (start: int)
    requires |h| == |g| && Symmetric(g) && 0 <= q < |g| && Bridged(g, h, q)
    requires IsPath(g, Nodes(g), p) && p[|p| - 1] != q
    ensures if p[0] == q then start in g[q] && start != q else start == p[0]
    ensures Reach(h, Nodes(h) - {q}, start, p[|p| - 1])
    decreases |p|
  {
    var ok, last := Nodes(h) - {q}, p[|p| - 1];
    if |p| == 1 {
      ReachSelf(h, ok, last);
      return last;
    }
    var r := p[1..];
    assert forall i :: 0 <= i < |r| ==> r[i] == p[i + 1];
    assert p[0 + 1] in g[p[0]];
    start := Reroute(g, h, q, r);
    if p[0] != q {
      assert p[1] == q ==> q in g[p[0]] && p[0] in g[q];
      ReachTransitive(h, ok, p[0], start, last);
      start := p[0];
    }
  }

  /** Whatever replaces a symmetric layer, connectivity survives the loss of q if and only if q is bridged. */
  lemma ConnectedExactly(g: Layer, h: Layer, q: int)
    requires InRange(g) && Symmetric(g) && |h| == |g| && 0 <= q < |g|
    ensures KeepsConnected(g, h, q) <==> Bridged(g, h, q)
  {
    if Bridged(g, h, q) {
      forall a, b | a != q && b != q && Reach(g, Nodes(g), a, b) ensures Reach(h, Nodes(h) - {q}, a, b) {
        var p :| IsPath(g, Nodes(g), p) && p[0] == a && p[|p| - 1] == b;
        var start := Reroute(g, h, q, p);
      }
    }
    if KeepsConnected(g, h, q) {
      forall a, b | 0 <= a < |g| && b in g[a] ensures Reach(g, Nodes(g), a, b) {
        LabelsOf(g, a);
        ReachStep(g, Nodes(g), a, b);
      }
      forall a, b | a in g[q] && b in g[q] ensures Reach(g, Nodes(g), a, b) {
        LabelsOf(g, q);
        ReachStep(g, Nodes(g), q, b);
        ReachBack(g, Nodes(g), a, q, b);
      }
    }
  }

  /**
   * The spanning-rewire claim, for every heal of a symmetric layer: any two nodes other than q that were connected
   * are connected afterwards without q, if and only if that holds of the ends of each edge the pass has evicted
   * and of each two former neighbours.
   */
  lemma HealConnectedExactly(w: Work, q: int, region: seq<int>, m: int, d: Dist)
    requires InRange(w.g) && Symmetric(w.g) && m > 0 && 0 <= q < |w.g| && Labels(region, |w.g|)
    ensures var g, h := w.g, HealLayer(w, q, region, m, d).g;
            KeepsConnected(g, h, q) <==>
              && (forall a, b :: 0 <= a < |g| && b in g[a] && b !in h[a] && a != q && b != q ==>
                    Reach(h, Nodes(h) - {q}, a, b))
              && (forall a, b :: a in g[q] && b in g[q] && a != q && b != q ==> Reach(h, Nodes(h) - {q}, a, b))
  {
    var g, h := w.g, HealLayer(w, q, region, m, d).g;
    ConnectedExactly(g, h, q);
    forall a, b | 0 <= a < |g| && b in g[a] && b in h[a] && a != q && b != q ensures Reach(h, Nodes(h) - {q}, a, b) {
      LabelsOf(g, a);
      ReachStep(h, Nodes(h) - {q}, a, b);
    }
  }

  lemma JoinedBridged(g: Layer, h: Layer, q: int)
    requires InRange(g) && |h| == |g| && 0 <= q < |g| && AllJoined(g, h, q)
    ensures Bridged(g, h, q)
  {
    var ok := Nodes(h) - {q};
    forall a, b | 0 <= a < |g| && b in g[a] && a != q && b != q ensures Reach(h, ok, a, b) {
      LabelsOf(g, a);
      ReachStep(h, ok, a, b);
    }
    forall a, b | a in g[q] && b in g[q] && a != q && b != q ensures Reach(h, ok, a, b) {
      LabelsOf(g, q);
      if a == b {
        ReachSelf(h, ok, a);
      } else {
        assert Linked(h, a, b);
        ReachStep(h, ok, a, b);
      }
    }
  }

  /** With room for the rewiring connectivity survives. */
  lemma HealPreservesReachability(w: Work, q: int, region: seq<int>, m: int, d: Dist)
    requires InRange(w.g) && Symmetric(w.g) && m > 0 && 0 <= q < |w.g| && Labels(region, |w.g|)
    requires HasRoom(w.g, q, m)
    ensures KeepsConnected(w.g, HealLayer(w, q, region, m, d).g, q)
  {
    HealLinksAll(w, q, region, m, d);
    JoinedBridged(w.g, HealLayer(w, q, region, m, d).g, q);
    ConnectedExactly(w.g, HealLayer(w, q, region, m, d).g, q);
  }
}
