module RewiringGuarantee {
  /**
   * The local guarantee claimed for the rewiring, that two former neighbours with free capacity become
   * connected. It fails for an arbitrary pair. What holds is decided here: the fate of a pair is settled at its
   * own turn, exactly; and before the heal starts, a pair is sure to be linked if each end has fewer rivals for
   * its slots than the cap, a nearest pair if each end has a free slot.
   */

  import opened Seqs
  import opened LayerHeal
  import opened HealBookkeeping
  import opened HealStability
  import opened HealReachability

  /** Neither end of the pair is full of neighbours at least as near. */
  ghost predicate BothOpen(g: Layer, u: int, v: int, m: int, d: Dist) {
    !Blocked(g, u, d(u, v), m, d) && !Blocked(g, v, d(u, v), m, d)
  }

  // ----- one turn -------------------------------------------------------------------

  lemma BlockedRefuses(w: Work, x: int, cand: int, m: int, d: Dist)
    requires InRange(w.g) && m > 0 && Blocked(w.g, x, d(x, cand), m, d) && cand !in w.g[x]
    ensures EnsureCapacity(w, x, cand, m, d) == (w, false)
  {
    var far := w.g[x][Farthest(w.g[x], x, d)];
    assert far in w.g[x];
  }

  /** One candidate pair ends its turn linked exactly when it was linked before or both ends are open. */
  lemma TurnLinks(w: Work, u: int, v: int, xs: set<int>, m: int, d: Dist)
    requires IsDist(d) && Fit(w.g, xs, m) && m > 0 && 0 <= u < |w.g| && 0 <= v < |w.g| && u != v
    requires u in xs && v in xs
    ensures Linked(TryInsert(w, u, v, m, d).g, u, v) <==> Linked(w.g, u, v) || BothOpen(w.g, u, v, m, d)
  {
    if v !in w.g[u] {
      if Blocked(w.g, u, d(u, v), m, d) {
        BlockedRefuses(w, u, v, m, d);
      } else {
        OpenTurn(w, u, v, xs, m, d);
      }
    }
  }

  lemma OpenTurn(w: Work, u: int, v: int, xs: set<int>, m: int, d: Dist)
    requires IsDist(d) && Fit(w.g, xs, m) && m > 0 && 0 <= u < |w.g| && 0 <= v < |w.g| && u != v
    requires u in xs && v in xs && v !in w.g[u] && !Blocked(w.g, u, d(u, v), m, d)
    ensures Linked(TryInsert(w, u, v, m, d).g, u, v) <==> !Blocked(w.g, v, d(v, u), m, d)
  {
    CapacityKeeps(w, u, v, xs, m, d);
    CapacityStep(w, u, v, m, d);
    var (w1, ok1) := EnsureCapacity(w, u, v, m, d);
    assert ok1 && u !in w1.g[v] && v !in w1.g[u];
    CapacityKeeps(w1, v, u, xs, m, d);
    CapacityStep(w1, v, u, m, d);
    var (w2, ok2) := EnsureCapacity(w1, v, u, m, d);
    if ok2 {
      LinkFit(w2.g, u, v, xs, m);
      CommitRoom(w2, u, v, m, d);
      CommitStep(w2, u, v, m, d);
      CommitRoom(Commit(w2, u, v, m, d), v, u, m, d);
      if Blocked(w.g, v, d(v, u), m, d) {
        BlockedRefuses(w1, v, u, m, d);
      }
    }
  }

  // ----- the turns after it ---------------------------------------------------------

  /** A pass over candidates that the heal may make. */
  ghost predicate Pass(g: Layer, cs: seq<Candidate>, xs: set<int>, m: int, d: Dist) {
    IsDist(d) && Fit(g, xs, m) && m > 0 && SortedByDistance(cs) && Proper(cs, |g|, d) && EndsIn(cs, xs)
  }

  lemma PassPrefix(g: Layer, cs: seq<Candidate>, k: nat, xs: set<int>, m: int, d: Dist)
    requires Pass(g, cs, xs, m, d) && k <= |cs|
    ensures Pass(g, cs[..k], xs, m, d)
  {
  }

  lemma PassFit(w: Work, cs: seq<Candidate>, k: nat, xs: set<int>, m: int, d: Dist)
    requires Pass(w.g, cs, xs, m, d) && k <= |cs|
    ensures Fit(TryAll(w, cs[..k], m, d).g, xs, m)
  {
    PassPrefix(w.g, cs, k, xs, m, d);
    TryAllSettles(w, cs[..k], xs, m, d);
  }

  /** One more turn keeps every edge no longer than its candidate. */
  lemma TurnKeeps(w: Work, cs: seq<Candidate>, k: nat, reach: real, xs: set<int>, m: int, d: Dist)
    requires Pass(w.g, cs, xs, m, d) && k < |cs| && reach <= cs[k].dist
    ensures Keeps(TryAll(w, cs[..k], m, d).g, TryAll(w, cs[..k + 1], m, d).g, reach, d)
  {
    PassFit(w, cs, k, xs, m, d);
    NextTurn(w, cs, k, m, d);
    TryInsertSettles(TryAll(w, cs[..k], m, d), cs[k].u, cs[k].w, xs, m, d);
  }

  /** The turns from k + 1 to n keep every edge no longer than the candidate of turn k. */
  lemma {:induction false} LaterTurnsKeep(w: Work, cs: seq<Candidate>, k: nat, n: nat, xs: set<int>, m: int, d: Dist)
    requires Pass(w.g, cs, xs, m, d) && k < n <= |cs|
    ensures Keeps(TryAll(w, cs[..k + 1], m, d).g, TryAll(w, cs[..n], m, d).g, cs[k].dist, d)
  {
    if n > k + 1 {
      LaterTurnsKeep(w, cs, k, n - 1, xs, m, d);
      TurnKeeps(w, cs, n - 1, cs[k].dist, xs, m, d);
      KeepsTransitive(TryAll(w, cs[..k + 1], m, d).g, TryAll(w, cs[..n - 1], m, d).g, TryAll(w, cs[..n], m, d).g,
                      cs[k].dist, d);
    }
  }

  /** A full node whose edges are all kept gains no edge. */
  lemma BlockedGainsNothing(g: Layer, h: Layer, x: int, y: int, reach: real, xs: set<int>, m: int, d: Dist)
    requires Fit(g, xs, m) && Fit(h, xs, m) && x in xs
    requires Keeps(g, h, reach, d) && Blocked(g, x, reach, m, d) && y !in g[x]
    ensures y !in h[x]
  {
    forall z | z in g[x] ensures z in h[x] {
    }
    NoDupSubset(g[x], h[x]);
  }

  lemma NextTurn(w: Work, cs: seq<Candidate>, k: nat, m: int, d: Dist)
    requires InRange(w.g) && m > 0 && k < |cs|
    ensures TryAll(w, cs[..k + 1], m, d) == TryInsert(TryAll(w, cs[..k], m, d), cs[k].u, cs[k].w, m, d)
  {
    assert cs[..k + 1][..k] == cs[..k] && cs[..k + 1][k] == cs[k];
  }

  lemma TurnSettles(w: Work, cs: seq<Candidate>, k: nat, xs: set<int>, m: int, d: Dist)
    requires Pass(w.g, cs, xs, m, d) && k < |cs|
    ensures Fit(TryAll(w, cs[..k + 1], m, d).g, xs, m)
    ensures Settled(TryAll(w, cs[..k + 1], m, d).g, cs[k].u, cs[k].w, m, d)
  {
    PassPrefix(w.g, cs, k + 1, xs, m, d);
    TryAllSettles(w, cs[..k + 1], xs, m, d);
    assert cs[..k + 1][k] == cs[k];
  }

  /** Once a pair has had its turn, later turns change nothing about it. */
  lemma TurnIsFinal(w: Work, cs: seq<Candidate>, k: nat, xs: set<int>, m: int, d: Dist)
    requires Pass(w.g, cs, xs, m, d) && k < |cs|
    ensures Linked(TryAll(w, cs, m, d).g, cs[k].u, cs[k].w) <==> Linked(TryAll(w, cs[..k + 1], m, d).g, cs[k].u, cs[k].w)
  {
    var c, g, h := cs[k], TryAll(w, cs[..k + 1], m, d).g, TryAll(w, cs, m, d).g;
    LaterTurnsKeep(w, cs, k, |cs|, xs, m, d);
    assert cs[..|cs|] == cs;
    PassFit(w, cs, |cs|, xs, m, d);
    TurnSettles(w, cs, k, xs, m, d);
    if Linked(g, c.u, c.w) {
      assert d(c.w, c.u) <= c.dist;
    } else if Blocked(g, c.u, c.dist, m, d) {
      BlockedGainsNothing(g, h, c.u, c.w, c.dist, xs, m, d);
    } else {
      BlockedGainsNothing(g, h, c.w, c.u, c.dist, xs, m, d);
    }
  }

  /** Every candidate of a pass ends linked exactly when, at its turn, it was linked already or both ends were open. */
  lemma DecidedAtTurn(w: Work, cs: seq<Candidate>, k: nat, xs: set<int>, m: int, d: Dist)
    requires Pass(w.g, cs, xs, m, d) && k < |cs|
    ensures var c, g := cs[k], TryAll(w, cs[..k], m, d).g;
            && Fit(g, xs, m)
            && (Linked(TryAll(w, cs, m, d).g, c.u, c.w) <==> Linked(g, c.u, c.w) || BothOpen(g, c.u, c.w, m, d))
  {
    TurnIsFinal(w, cs, k, xs, m, d);
    NextTurn(w, cs, k, m, d);
    PassFit(w, cs, k, xs, m, d);
    TurnLinks(TryAll(w, cs[..k], m, d), cs[k].u, cs[k].w, xs, m, d);
  }

  // ----- rivals ---------------------------------------------------------------------

  ghost predicate Joins(c: Candidate, x: int, y: int) {
    (c.u == x && c.w == y) || (c.u == y && c.w == x)
  }

  /** Only partners that have had their turn are new in a list. */
  lemma {:induction false} NewEntriesTried(w: Work, cs: seq<Candidate>, m: int, d: Dist, x: int, y: int)
    requires InRange(w.g) && m > 0 && 0 <= x < |w.g| && y in TryAll(w, cs, m, d).g[x] && y !in w.g[x]
    ensures exists i :: 0 <= i < |cs| && Joins(cs[i], x, y)
  {
    if cs != [] {
      var k := |cs| - 1;
      var r := TryAll(w, cs[..k], m, d);
      if y in r.g[x] {
        NewEntriesTried(w, cs[..k], m, d, x, y);
        var i :| 0 <= i < k && Joins(cs[..k][i], x, y);
        assert Joins(cs[i], x, y);
      } else {
        TryInsertStep(r, cs[k].u, cs[k].w, m, d);
        assert Joins(cs[k], x, y);
      }
    }
  }

  /**
   * The nodes that may take a slot of x before its pair with y is tried, or keep theirs then: its neighbours on g
   * that are at least as near as y, and its partners in the first k candidates.
   */
  ghost function EarlierRivals(g: Layer, cs: seq<Candidate>, k: nat, x: int, y: int, d: Dist): (s: set<int>)
    requires 0 <= x < |g| && k <= |cs|
    ensures forall z :: z in s <==>
              z != y && ((z in g[x] && d(x, z) <= d(x, y)) || exists i :: 0 <= i < k && Joins(cs[i], x, z))
  {
    (set z | z in g[x] && z != y && d(x, z) <= d(x, y))
    + (set i {:trigger cs[i]} | 0 <= i < k && cs[i].u == x && cs[i].w != y :: cs[i].w)
    + (set i {:trigger cs[i]} | 0 <= i < k && cs[i].w == x && cs[i].u != y :: cs[i].u)
  }

  /** A node that is full at the turn of a pair it does not have yet is full of rivals. */
  lemma FullOfRivals(w: Work, cs: seq<Candidate>, k: nat, x: int, y: int, xs: set<int>, m: int, d: Dist)
    requires Pass(w.g, cs, xs, m, d) && k <= |cs| && 0 <= x < |w.g|
    requires Simple(TryAll(w, cs[..k], m, d).g) && y !in TryAll(w, cs[..k], m, d).g[x]
    requires Blocked(TryAll(w, cs[..k], m, d).g, x, d(x, y), m, d)
    ensures |EarlierRivals(w.g, cs, k, x, y, d)| >= m
  {
    var list := TryAll(w, cs[..k], m, d).g[x];
    forall z | z in list ensures z in EarlierRivals(w.g, cs, k, x, y, d) {
      if z !in w.g[x] {
        NewEntriesTried(w, cs[..k], m, d, x, z);
        var i :| 0 <= i < k && Joins(cs[..k][i], x, z);
        assert Joins(cs[i], x, z);
      }
    }
    NoDupCardinality(list);
    SubsetCardinality(Elements(list), EarlierRivals(w.g, cs, k, x, y, d));
  }

  /** A candidate with fewer earlier rivals at each end than the cap ends linked. */
  lemma FewRivalsLinked(w: Work, cs: seq<Candidate>, k: nat, xs: set<int>, m: int, d: Dist)
    requires Pass(w.g, cs, xs, m, d) && k < |cs|
    requires |EarlierRivals(w.g, cs, k, cs[k].u, cs[k].w, d)| < m && |EarlierRivals(w.g, cs, k, cs[k].w, cs[k].u, d)| < m
    ensures Linked(TryAll(w, cs, m, d).g, cs[k].u, cs[k].w)
  {
    var c, g := cs[k], TryAll(w, cs[..k], m, d).g;
    DecidedAtTurn(w, cs, k, xs, m, d);
    if !Linked(g, c.u, c.w) {
      assert d(c.w, c.u) == d(c.u, c.w);
      if Blocked(g, c.u, c.dist, m, d) {
        FullOfRivals(w, cs, k, c.u, c.w, xs, m, d);
      } else if Blocked(g, c.w, c.dist, m, d) {
        FullOfRivals(w, cs, k, c.w, c.u, xs, m, d);
      }
    }
  }

  // ----- the heal of one layer ------------------------------------------------------

  /** The candidates of a heal, in the order in which they are tried. */
  function Candidates(g: Layer, q: int, d: Dist): (cs: seq<Candidate>)
    requires 0 <= q < |g|
  {
    var os := Orphans(g[q], q, |g|);
    Sort(Pairs(os, |os|, d))
  }

  /** What the lemmas below ask of a layer. */
  ghost predicate Healable(w: Work, q: int, region: seq<int>, m: int, d: Dist) {
    IsDist(d) && Simple(w.g) && m > 0 && 0 <= q < |w.g| && Labels(region, |w.g|) && CapFits(w.g, q, m)
  }

  lemma HealPasses(w: Work, q: int, region: seq<int>, m: int, d: Dist)
    requires Healable(w, q, region, m, d)
    ensures Pass(Isolate(w, q, region).g, Candidates(w.g, q, d), Elements(w.g[q]), m, d)
    ensures Candidates(w.g, q, d) != [] ==>
              HealLayer(w, q, region, m, d) == TryAll(Isolate(w, q, region), Candidates(w.g, q, d), m, d)
  {
    var os := Orphans(w.g[q], q, |w.g|);
    assert Elements(os) == Elements(w.g[q]);
    IsolateFit(w, q, region, m);
    CandidatesProper(os, |w.g|, d);
    CandidateEnds(os, d);
    SortSorted(Pairs(os, |os|, d));
    if |os| < 2 {
      FewCandidates(os, d);
    }
  }

  lemma FewCandidates(os: seq<int>, d: Dist)
    requires |os| < 2
    ensures Sort(Pairs(os, |os|, d)) == []
  {
    assert |os| == 1 ==> Pairs(os, 1, d) == Pairs(os, 0, d) + PairRow(os, 0, 1, d);
  }

  /** Every two former neighbours have their turn. */
  lemma PairHasTurn(g: Layer, q: int, u: int, v: int, d: Dist) returns (k: nat)
    requires IsDist(d) && InRange(g) && 0 <= q < |g| && q !in g[q] && u in g[q] && v in g[q] && u != v
    ensures k < |Candidates(g, q, d)|
    ensures Joins(Candidates(g, q, d)[k], u, v) && Candidates(g, q, d)[k].dist == d(u, v)
  {
    var os := Orphans(g[q], q, |g|);
    var cs := Candidates(g, q, d);
    assert u in os && v in os;
    var i :| 0 <= i < |os| && os[i] == u;
    var j :| 0 <= j < |os| && os[j] == v;
    var a, b := if i < j then i else j, if i < j then j else i;
    PairsComplete(os, |os|, d, a, b);
    SortMembers(Pairs(os, |os|, d));
    var c := Candidate(os[a], os[b], d(os[a], os[b]));
    assert c in cs;
    k :| 0 <= k < |cs| && cs[k] == c;
  }

  /**
   * Which pairs of former neighbours end linked, exactly and for all of them: a pair does if and only if at its
   * turn it was linked already or neither end was full of neighbours at least as near. Nothing that happens
   * later makes a difference.
   */
  lemma PairDecided(w: Work, q: int, region: seq<int>, m: int, d: Dist, k: nat)
    requires Healable(w, q, region, m, d) && k < |Candidates(w.g, q, d)|
    ensures var c, w1 := Candidates(w.g, q, d)[k], Isolate(w, q, region);
            && InRange(w1.g) && c.u in w.g[q] && c.w in w.g[q] && c.dist == d(c.u, c.w)
            && var g := TryAll(w1, Candidates(w.g, q, d)[..k], m, d).g;
               Linked(HealLayer(w, q, region, m, d).g, c.u, c.w) <==> Linked(g, c.u, c.w) || BothOpen(g, c.u, c.w, m, d)
  {
    HealPasses(w, q, region, m, d);
    DecidedAtTurn(Isolate(w, q, region), Candidates(w.g, q, d), k, Elements(w.g[q]), m, d);
  }

  /**
   * The rivals of v at u, as they can be listed before the heal: what u keeps or may be offered that is at least
   * as near as v.
   */
  ghost function Rivals(g: Layer, q: int, u: int, v: int, d: Dist): (s: set<int>)
    requires 0 <= u < |g| && 0 <= q < |g|
    ensures forall y :: y in s <==> (y in g[u] || y in g[q]) && y != q && y != u && y != v && d(u, y) <= d(u, v)
  {
    set y | y in g[u] + g[q] && y != q && y != u && y != v && d(u, y) <= d(u, v)
  }

  /** Whoever is tried with x before y is a former neighbour at least as near. */
  lemma TriedIsRival(g: Layer, q: int, cs: seq<Candidate>, i: nat, k: nat, x: int, y: int, z: int, d: Dist)
    requires IsDist(d) && SortedByDistance(cs) && Proper(cs, |g|, d) && 0 <= q < |g| && q !in g[q]
    requires EndsIn(cs, Elements(g[q])) && i < k < |cs| && Joins(cs[i], x, z) && Joins(cs[k], x, y)
    ensures z in g[q] && z != q && z != x && d(x, z) <= d(x, y)
  {
    assert cs[i].dist <= cs[k].dist;
    assert cs[i].u in g[q] && cs[i].w in g[q];
    assert d(x, z) == d(z, x) && d(x, y) == d(y, x);
  }

  lemma RivalsBefore(w: Work, q: int, region: seq<int>, m: int, d: Dist, k: nat, x: int, y: int)
    requires Healable(w, q, region, m, d) && k < |Candidates(w.g, q, d)| && Joins(Candidates(w.g, q, d)[k], x, y)
    requires 0 <= x < |w.g|
    ensures EarlierRivals(Isolate(w, q, region).g, Candidates(w.g, q, d), k, x, y, d) <= Rivals(w.g, q, x, y, d)
  {
    var cs, g := Candidates(w.g, q, d), Isolate(w, q, region).g;
    HealPasses(w, q, region, m, d);
    IsolateRemoves(w, q, region);
    forall z | z in EarlierRivals(g, cs, k, x, y, d) ensures z in Rivals(w.g, q, x, y, d) {
      if z in g[x] && d(x, z) <= d(x, y) {
        assert z in w.g[x];
      } else {
        var i :| 0 <= i < k && Joins(cs[i], x, z);
        TriedIsRival(w.g, q, cs, i, k, x, y, z, d);
      }
    }
  }

  /**
   * The local guarantee that does hold for every pair of former neighbours: if each end has fewer rivals for its
   * slots than the cap, the pair ends linked.
   */
  lemma UncontestedPairLinked(w: Work, q: int, region: seq<int>, m: int, d: Dist, u: int, v: int)
    requires Healable(w, q, region, m, d) && u in w.g[q] && v in w.g[q] && u != v
    requires 0 <= u < |w.g| && 0 <= v < |w.g|
    requires |Rivals(w.g, q, u, v, d)| < m && |Rivals(w.g, q, v, u, d)| < m
    ensures Linked(HealLayer(w, q, region, m, d).g, u, v)
  {
    var k := PairHasTurn(w.g, q, u, v, d);
    var w1, cs := Isolate(w, q, region), Candidates(w.g, q, d);
    HealPasses(w, q, region, m, d);
    RivalsBefore(w, q, region, m, d, k, u, v);
    RivalsBefore(w, q, region, m, d, k, v, u);
    SubsetCardinality(EarlierRivals(w1.g, cs, k, u, v, d), Rivals(w.g, q, u, v, d));
    SubsetCardinality(EarlierRivals(w1.g, cs, k, v, u, d), Rivals(w.g, q, v, u, d));
    FewRivalsLinked(w1, cs, k, Elements(w.g[q]), m, d);
  }

  /** What u keeps and what it may be offered. */
  ghost function Slots(g: Layer, q: int, u: int): (s: set<int>)
    requires 0 <= q < |g| && 0 <= u < |g|
  {
    Elements(Without(g[u], q)) + Newcomers(Orphans(g[q], q, |g|), Without(g[u], q), u)
  }

  lemma SlotMembers(g: Layer, q: int, u: int, y: int)
    requires InRange(g) && 0 <= q < |g| && 0 <= u < |g| && y != q && y != u && (y in g[u] || y in g[q])
    ensures y in Slots(g, q, u)
  {
    assert y in g[q] ==> y in Orphans(g[q], q, |g|);
  }

  /** With room for every link at both ends no pair is contested, so the guarantee covers the spanning rewire. */
  lemma RoomUncontested(g: Layer, q: int, u: int, v: int, m: int, d: Dist)
    requires Simple(g) && 0 <= q < |g| && HasRoom(g, q, m) && u in g[q] && v in g[q] && u != v && 0 <= u < |g|
    ensures |Rivals(g, q, u, v, d)| < m
  {
    RivalsInSlots(g, q, u, v, d);
    SlotsFit(g, q, u, m);
    SubsetCardinality(Rivals(g, q, u, v, d) + {v}, Slots(g, q, u));
  }

  lemma RivalsInSlots(g: Layer, q: int, u: int, v: int, d: Dist)
    requires Simple(g) && 0 <= q < |g| && v in g[q] && u != v && 0 <= u < |g|
    ensures Rivals(g, q, u, v, d) + {v} <= Slots(g, q, u)
  {
    assert v != q;
    forall y | y in Rivals(g, q, u, v, d) + {v} ensures y in Slots(g, q, u) {
      SlotMembers(g, q, u, y);
    }
  }

  lemma SlotsFit(g: Layer, q: int, u: int, m: int)
    requires Simple(g) && 0 <= q < |g| && HasRoom(g, q, m) && u in g[q] && 0 <= u < |g|
    ensures |Slots(g, q, u)| <= m
  {
    var kept := Without(g[u], q);
    var more := Newcomers(Orphans(g[q], q, |g|), kept, u);
    NoDupCardinalityOf(g[u], q);
    assert |Elements(kept) + more| == |Elements(kept)| + |more|;
  }

  lemma NoDupCardinalityOf(list: seq<int>, q: int)
    requires NoDup(list)
    ensures |Elements(Without(list, q))| == |Without(list, q)|
  {
    WithoutNoDup(list, q);
    NoDupCardinality(Without(list, q));
  }

  /** The spanning rewire, pair by pair. */
  lemma RoomyPairLinked(w: Work, q: int, region: seq<int>, m: int, d: Dist, u: int, v: int)
    requires Healable(w, q, region, m, d) && HasRoom(w.g, q, m) && u in w.g[q] && v in w.g[q] && u != v
    requires 0 <= u < |w.g| && 0 <= v < |w.g|
    ensures Linked(HealLayer(w, q, region, m, d).g, u, v)
  {
    RoomUncontested(w.g, q, u, v, m, d);
    RoomUncontested(w.g, q, v, u, m, d);
    UncontestedPairLinked(w, q, region, m, d, u, v);
  }

  // ----- a nearest pair -------------------------------------------------------------

  /** The first candidate is a nearest pair. */
  lemma FirstPairNearest(w: Work, q: int, region: seq<int>, m: int, d: Dist, u: int, v: int)
    requires Healable(w, q, region, m, d) && u in w.g[q] && v in w.g[q] && u != v
    ensures Candidates(w.g, q, d) != [] && Candidates(w.g, q, d)[0].dist <= d(u, v)
  {
    var k := PairHasTurn(w.g, q, u, v, d);
    HealPasses(w, q, region, m, d);
  }

  /**
   * The first pair tried ends linked exactly when it is linked already or, once q is isolated, neither of the
   * two is full of neighbours at least as near.
   */
  lemma NearestPairLinked(w: Work, q: int, region: seq<int>, m: int, d: Dist)
    requires Healable(w, q, region, m, d) && Candidates(w.g, q, d) != []
    ensures var c, g := Candidates(w.g, q, d)[0], Isolate(w, q, region).g;
            && c.u in w.g[q] && c.w in w.g[q] && c.dist == d(c.u, c.w)
            && (Linked(HealLayer(w, q, region, m, d).g, c.u, c.w) <==>
                  Linked(g, c.u, c.w) || BothOpen(g, c.u, c.w, m, d))
  {
    PairDecided(w, q, region, m, d, 0);
    assert TryAll(Isolate(w, q, region), Candidates(w.g, q, d)[..0], m, d) == Isolate(w, q, region);
  }

  /** A list shorter than the cap, and no earlier candidate: fewer rivals than the cap. */
  lemma FreeNearestPairLinked(w: Work, q: int, region: seq<int>, m: int, d: Dist)
    requires Healable(w, q, region, m, d) && Candidates(w.g, q, d) != []
    requires var c, g := Candidates(w.g, q, d)[0], Isolate(w, q, region).g;
             forall x :: (x == c.u || x == c.w) && 0 <= x < |g| ==> |g[x]| < m
    ensures var c := Candidates(w.g, q, d)[0];
            && Linked(HealLayer(w, q, region, m, d).g, c.u, c.w)
            && forall x, y :: x in w.g[q] && y in w.g[q] && x != y ==> d(c.u, c.w) <= d(x, y)
  {
    NearestPairLinked(w, q, region, m, d);
    HealPasses(w, q, region, m, d);
    forall x, y | x in w.g[q] && y in w.g[q] && x != y ensures Candidates(w.g, q, d)[0].dist <= d(x, y) {
      FirstPairNearest(w, q, region, m, d, x, y);
    }
  }

  // ----- other pairs ----------------------------------------------------------------

  function Unit(a: int, b: int): real {
    if a == b then 0.0 else 1.0
  }

  /** Node q and three neighbours that know only q, with a cap of one edge. */
  const STAR: Layer := [[1, 2, 3], [0], [0], [0]]

  lemma StarIsolated(w: Work)
    requires w.g == STAR
    ensures InRange(w.g) && Isolate(w, 0, [0, 1, 2, 3]).g == [[], [], [], []]
  {
    var h := Isolate(w, 0, [0, 1, 2, 3]).g;
    assert Without([0], 0) == [];
    forall k | 0 <= k < 4 ensures h[k] == [] {
      IsolateStep(w, 0, [0, 1, 2, 3], k);
    }
  }

  /**
   * Two former neighbours that both have free capacity once q is isolated need not become connected: in the
   * star all three have, and node 1 can take only one of the other two. As many rivals as the cap are too many,
   * and it is no help that no two former neighbours are nearer.
   */
  lemma OpenPairMayStayApart(w: Work)
    requires w.g == STAR
    ensures InRange(w.g) && IsDist(Unit)
    ensures exists v :: v in w.g[0] && v != 1
              && |Rivals(w.g, 0, 1, v, Unit)| == 1
              && (forall x, y :: x in w.g[0] && y in w.g[0] && x != y ==> Unit(1, v) <= Unit(x, y))
              && |Isolate(w, 0, [0, 1, 2, 3]).g[1]| < 1 && |Isolate(w, 0, [0, 1, 2, 3]).g[v]| < 1
              && !Linked(HealLayer(w, 0, [0, 1, 2, 3], 1, Unit).g, 1, v)
  {
    StarIsolated(w);
    StarHealed(w);
    StarRivals(w.g, 2);
    StarRivals(w.g, 3);
    var h := HealLayer(w, 0, [0, 1, 2, 3], 1, Unit).g;
    assert !Linked(h, 1, 2) || !Linked(h, 1, 3);
  }

  lemma StarRivals(g: Layer, v: int)
    requires g == STAR && (v == 2 || v == 3)
    ensures v in g[0] && |Rivals(g, 0, 1, v, Unit)| == 1
  {
    assert g[0] == [1, 2, 3] && g[1] == [0];
    assert g[0][1] == 2 && g[0][2] == 3;
    assert Rivals(g, 0, 1, v, Unit) == {5 - v};
  }

  lemma StarHealed(w: Work)
    requires w.g == STAR && InRange(w.g)
    ensures |HealLayer(w, 0, [0, 1, 2, 3], 1, Unit).g[1]| <= 1
  {
    StarIsolated(w);
    var w1, os := Isolate(w, 0, [0, 1, 2, 3]), Orphans(w.g[0], 0, 4);
    assert Fit(w1.g, Elements(os), 1);
    RewireStable(w1, os, 1, Unit);
  }
}
