module HalfEdges {
  /**
   * When the heal of a simple layer leaves half an edge. One turn does if and only if both ends make room and
   * exactly one of them then takes the other in; a heal does if and only if one of its turns does.
   */

  import opened Seqs
  import opened LayerHeal
  import opened HealBookkeeping
  import opened HealStability
  import opened RewiringGuarantee

  // ----- what the two ends of a turn do ---------------------------------------------

  /** The neighbours of x at least as near as y. */
  ghost function Nearer(g: Layer, x: int, y: int, d: Dist): (s: set<int>)
    requires 0 <= x < |g|
    ensures forall z :: z in s <==> z in g[x] && d(x, z) <= d(x, y)
  {
    set z | z in g[x] && d(x, z) <= d(x, y)
  }

  /** x has a free slot, or a neighbour to give up for y. */
  ghost predicate MakesRoom(g: Layer, x: int, y: int, m: int, d: Dist)
    requires 0 <= x < |g|
  {
    |g[x]| < m || |Nearer(g, x, y, d)| < |g[x]|
  }

  /** x is at most one over the cap and has fewer than m neighbours at least as near as y. */
  ghost predicate TakesIn(g: Layer, x: int, y: int, m: int, d: Dist)
    requires 0 <= x < |g|
  {
    |g[x]| <= m + 1 && |Nearer(g, x, y, d)| < m
  }

  /** Both ends make room and exactly one takes the other in. */
  ghost predicate HalfTurn(g: Layer, u: int, v: int, m: int, d: Dist) {
    && 0 <= u < |g| && 0 <= v < |g| && v !in g[u]
    && MakesRoom(g, u, v, m, d) && MakesRoom(g, v, u, m, d)
    && TakesIn(g, u, v, m, d) != TakesIn(g, v, u, m, d)
  }

  /** A layer that is simple except perhaps for one half of the edge between u and v. */
  ghost predicate Tidy(g: Layer, u: int, v: int) {
    && InRange(g) && 0 <= u < |g| && 0 <= v < |g| && u != v
    && (forall n :: 0 <= n < |g| ==> NoDup(g[n]) && n !in g[n])
    && (forall a, b {:trigger b in g[a]} ::
          0 <= a < |g| && 0 <= b < |g| && b in g[a] && !(a == u && b == v) && !(a == v && b == u) ==> a in g[b])
  }

  lemma SimpleTidy(g: Layer, u: int, v: int)
    requires 0 <= u < |g| && 0 <= v < |g| && u != v
    ensures Simple(g) ==> Tidy(g, u, v)
    ensures Tidy(g, u, v) && (v in g[u] <==> u in g[v]) ==> Simple(g)
  {
  }

  // ----- making room ----------------------------------------------------------------

  lemma EvictTidy(w: Work, x: int, y: int, i: int)
    requires Tidy(w.g, x, y) && 0 <= i < |w.g[x]| && y !in w.g[x]
    ensures Tidy(Evict(w, x, i).g, x, y)
    ensures Evict(w, x, i).g[x] == EraseAt(w.g[x], i) && Evict(w, x, i).g[y] == w.g[y]
  {
    var list, far, r := w.g[x], w.g[x][i], Evict(w, x, i);
    assert far in list && far != x && far != y;
    EraseAtElements(list, i);
    WithoutNoDup(w.g[far], x);
    EvictStep(w, x, i, 0);
    forall a, b {:trigger b in r.g[a]} | 0 <= a < |r.g| && 0 <= b < |r.g| && b in r.g[a]
        && !(a == x && b == y) && !(a == y && b == x) ensures a in r.g[b]
    {
      assert b in w.g[a];
    }
  }

  /** Giving up the farthest neighbour, which is farther than y, leaves the others at least as near as y. */
  lemma NearerKept(g: Layer, h: Layer, x: int, y: int, i: int, d: Dist)
    requires |h| == |g| && 0 <= x < |g| && 0 <= i < |g[x]| && NoDup(g[x])
    requires h[x] == EraseAt(g[x], i) && d(x, y) < d(x, g[x][i])
    ensures Nearer(h, x, y, d) == Nearer(g, x, y, d)
  {
    EraseAtElements(g[x], i);
  }

  /** There is a neighbour to give up exactly when the farthest is farther than y. */
  lemma FarthestDecides(g: Layer, x: int, y: int, d: Dist)
    requires 0 <= x < |g| && g[x] != [] && NoDup(g[x])
    ensures |Nearer(g, x, y, d)| < |g[x]| <==> d(x, y) < d(x, g[x][Farthest(g[x], x, d)])
  {
    var list, i := g[x], Farthest(g[x], x, d);
    NoDupCardinality(list);
    assert Nearer(g, x, y, d) <= Elements(list);
    SubsetCardinality(Nearer(g, x, y, d), Elements(list));
    if d(x, y) < d(x, list[i]) {
      assert list[i] in Elements(list) && list[i] !in Nearer(g, x, y, d);
    } else {
      forall z | z in Elements(list) ensures z in Nearer(g, x, y, d) {
        var j :| 0 <= j < |list| && list[j] == z;
      }
      assert Nearer(g, x, y, d) == Elements(list);
    }
  }

  lemma NearerFew(g: Layer, x: int, y: int, d: Dist)
    requires 0 <= x < |g|
    ensures |Nearer(g, x, y, d)| <= |g[x]|
  {
    SetBound(g[x]);
    assert Nearer(g, x, y, d) <= Elements(g[x]);
    SubsetCardinality(Nearer(g, x, y, d), Elements(g[x]));
  }

  /** `ensure_capacity_for` at one end. */
  lemma RoomMade(w: Work, x: int, y: int, m: int, d: Dist)
    requires Tidy(w.g, x, y) && m > 0 && y !in w.g[x]
    ensures var (r, ok) := EnsureCapacity(w, x, y, m, d);
            && Tidy(r.g, x, y) && r.g[y] == w.g[y] && y !in r.g[x]
            && (ok <==> MakesRoom(w.g, x, y, m, d))
            && (!ok ==> r == w)
            && Nearer(r.g, x, y, d) == Nearer(w.g, x, y, d)
            && |r.g[x]| == if ok && |w.g[x]| >= m then |w.g[x]| - 1 else |w.g[x]|
  {
    var list := w.g[x];
    if |list| >= m {
      var i := Farthest(list, x, d);
      FarthestDecides(w.g, x, y, d);
      if d(x, y) < d(x, list[i]) {
        EvictTidy(w, x, y, i);
        EraseAtElements(list, i);
        NearerKept(w.g, Evict(w, x, i).g, x, y, i, d);
      }
    }
  }

  lemma PushTidy(g: Layer, x: int, y: int)
    requires Tidy(g, x, y) && y !in g[x]
    ensures Tidy(Push(g, x, y), x, y)
  {
    var h := Push(g, x, y);
    assert h[x] == g[x] + [y];
    PushNoDup(g[x], y);
    assert Labels(g[x], |g|);
  }

  /** `commit_half_edge` at one end. */
  lemma HalfCommitted(w: Work, x: int, y: int, m: int, d: Dist)
    requires Tidy(w.g, x, y) && m > 0 && y !in w.g[x]
    ensures var r := Commit(w, x, y, m, d);
            && Tidy(r.g, x, y) && r.g[y] == w.g[y]
            && (y in r.g[x] <==> |w.g[x]| <= m && |Nearer(w.g, x, y, d)| < m)
  {
    RoomMade(w, x, y, m, d);
    NearerFew(w.g, x, y, d);
    var (r, ok) := EnsureCapacity(w, x, y, m, d);
    if ok && |r.g[x]| < m {
      PushTidy(r.g, x, y);
    }
  }

  // ----- one turn -------------------------------------------------------------------

  lemma TidySame(g: Layer, u: int, v: int)
    ensures Tidy(g, u, v) <==> Tidy(g, v, u)
  {
  }

  /** Room at both ends: the two lists keep what is near, and each is one shorter if it was full. */
  lemma BothMakeRoom(w: Work, u: int, v: int, m: int, d: Dist)
    requires Simple(w.g) && m > 0 && 0 <= u < |w.g| && 0 <= v < |w.g| && u != v && v !in w.g[u]
    requires MakesRoom(w.g, u, v, m, d)
    ensures var (w1, ok1) := EnsureCapacity(w, u, v, m, d);
            && ok1 && InRange(w1.g) && u !in w1.g[v]
            && var (w2, ok2) := EnsureCapacity(w1, v, u, m, d);
               && Simple(w2.g) && v !in w2.g[u] && u !in w2.g[v]
               && (ok2 <==> MakesRoom(w.g, v, u, m, d))
               && (ok2 ==> Trimmed(w.g, w2.g, u, v, m, d) && Trimmed(w.g, w2.g, v, u, m, d))
  {
    SimpleTidy(w.g, u, v);
    RoomMade(w, u, v, m, d);
    var (w1, ok1) := EnsureCapacity(w, u, v, m, d);
    assert u !in w1.g[v];
    TidySame(w1.g, u, v);
    RoomMade(w1, v, u, m, d);
    var (w2, ok2) := EnsureCapacity(w1, v, u, m, d);
    SimpleTidy(w2.g, v, u);
    assert Nearer(w1.g, v, u, d) == Nearer(w.g, v, u, d);
    assert w2.g[u] == w1.g[u];
  }

  ghost predicate Trimmed(g: Layer, h: Layer, x: int, y: int, m: int, d: Dist) {
    && |h| == |g| && 0 <= x < |g|
    && |Nearer(h, x, y, d)| == |Nearer(g, x, y, d)|
    && |h[x]| == if |g[x]| >= m then |g[x]| - 1 else |g[x]|
  }

  lemma BothCommit(w: Work, u: int, v: int, m: int, d: Dist)
    requires Simple(w.g) && m > 0 && 0 <= u < |w.g| && 0 <= v < |w.g| && u != v && v !in w.g[u] && u !in w.g[v]
    ensures InRange(Commit(w, u, v, m, d).g)
    ensures var h := Commit(Commit(w, u, v, m, d), v, u, m, d).g;
            && Tidy(h, u, v)
            && (v in h[u] <==> |w.g[u]| <= m && |Nearer(w.g, u, v, d)| < m)
            && (u in h[v] <==> |w.g[v]| <= m && |Nearer(w.g, v, u, d)| < m)
  {
    SimpleTidy(w.g, u, v);
    HalfCommitted(w, u, v, m, d);
    var w1 := Commit(w, u, v, m, d);
    TidySame(w1.g, u, v);
    assert Nearer(w1.g, v, u, d) == Nearer(w.g, v, u, d);
    HalfCommitted(w1, v, u, m, d);
    TidySame(Commit(w1, v, u, m, d).g, u, v);
  }

  /**
   * One turn on a simple layer of any degree leaves the layer simple if and only if it is not a half turn, and
   * after a half turn it is this pair of nodes of which one lists the other in vain.
   */
  lemma TurnSimpleExactly(w: Work, u: int, v: int, m: int, d: Dist)
    requires Simple(w.g) && m > 0 && 0 <= u < |w.g| && 0 <= v < |w.g| && u != v
    ensures var h := TryInsert(w, u, v, m, d).g;
            && (Simple(h) <==> !HalfTurn(w.g, u, v, m, d))
            && (HalfTurn(w.g, u, v, m, d) <==> ((v in h[u]) != (u in h[v])))
  {
    if v !in w.g[u] && MakesRoom(w.g, u, v, m, d) {
      BothMakeRoom(w, u, v, m, d);
      var (w1, ok1) := EnsureCapacity(w, u, v, m, d);
      var (w2, ok2) := EnsureCapacity(w1, v, u, m, d);
      if ok2 {
        BothCommit(w2, u, v, m, d);
        SimpleTidy(Commit(Commit(w2, u, v, m, d), v, u, m, d).g, u, v);
      }
    } else if v !in w.g[u] {
      SimpleTidy(w.g, u, v);
      RoomMade(w, u, v, m, d);
    }
  }

  // ----- a half edge is never repaired ----------------------------------------------

  /** a lists b, b does not list a. */
  ghost predicate HalfEdge(g: Layer, a: int, b: int) {
    0 <= a < |g| && 0 <= b < |g| && b in g[a] && a !in g[b]
  }

  /** Making room for a candidate no nearer than b does not cost a its half edge. */
  lemma RoomKeepsHalf(w: Work, x: int, y: int, m: int, d: Dist, a: int, b: int)
    requires InRange(w.g) && m > 0 && 0 <= x < |w.g| && HalfEdge(w.g, a, b) && d(a, b) <= d(x, y)
    ensures HalfEdge(EnsureCapacity(w, x, y, m, d).0.g, a, b)
  {
    var list := w.g[x];
    if !(y in list || |list| < m) {
      var i := Farthest(list, x, d);
      if d(x, y) < d(x, list[i]) {
        assert list[i] in list;
        EraseAtElements(list, i);
      }
    }
  }

  lemma CommitKeepsHalf(w: Work, x: int, y: int, m: int, d: Dist, a: int, b: int)
    requires InRange(w.g) && m > 0 && 0 <= x < |w.g| && 0 <= y < |w.g|
    requires HalfEdge(w.g, a, b) && d(a, b) <= d(x, y) && !(x == b && y == a)
    ensures HalfEdge(Commit(w, x, y, m, d).g, a, b)
  {
    RoomKeepsHalf(w, x, y, m, d, a, b);
  }

  lemma TurnKeepsHalf(w: Work, x: int, y: int, m: int, d: Dist, a: int, b: int)
    requires IsDist(d) && InRange(w.g) && m > 0 && 0 <= x < |w.g| && 0 <= y < |w.g|
    requires HalfEdge(w.g, a, b) && d(a, b) <= d(x, y) && !(x == b && y == a) && !(x == a && y == b)
    ensures HalfEdge(TryInsert(w, x, y, m, d).g, a, b)
  {
    assert d(y, x) == d(x, y);
    if x != y {
      var xHas, yHas := y in w.g[x], x in w.g[y];
      if xHas && !yHas {
        CommitKeepsHalf(w, y, x, m, d, a, b);
      } else if yHas && !xHas {
        CommitKeepsHalf(w, x, y, m, d, a, b);
      } else if !xHas {
        NewPairKeepsHalf(w, x, y, m, d, a, b);
      }
    }
  }

  lemma NewPairKeepsHalf(w: Work, x: int, y: int, m: int, d: Dist, a: int, b: int)
    requires IsDist(d) && InRange(w.g) && m > 0 && 0 <= x < |w.g| && 0 <= y < |w.g| && x != y
    requires y !in w.g[x] && x !in w.g[y]
    requires HalfEdge(w.g, a, b) && d(a, b) <= d(x, y) && !(x == b && y == a) && !(x == a && y == b)
    ensures HalfEdge(TryInsert(w, x, y, m, d).g, a, b)
  {
    assert d(y, x) == d(x, y);
    RoomKeepsHalf(w, x, y, m, d, a, b);
    CapacityStep(w, x, y, m, d);
    var (w1, ok1) := EnsureCapacity(w, x, y, m, d);
    if ok1 {
      RoomKeepsHalf(w1, y, x, m, d, a, b);
      CapacityStep(w1, y, x, m, d);
      var (w2, ok2) := EnsureCapacity(w1, y, x, m, d);
      if ok2 {
        CommitStep(w2, x, y, m, d);
        CommitKeepsHalf(w2, x, y, m, d, a, b);
        CommitKeepsHalf(Commit(w2, x, y, m, d), y, x, m, d, a, b);
      }
    }
  }

  // ----- the whole pass -------------------------------------------------------------

  /** Every pair is tried once. */
  ghost predicate Once(cs: seq<Candidate>) {
    forall i, j :: 0 <= i < j < |cs| ==> !Joins(cs[j], cs[i].u, cs[i].w)
  }

  /** What a heal may try one after the other. */
  ghost predicate Trials(cs: seq<Candidate>, n: int, d: Dist) {
    IsDist(d) && SortedByDistance(cs) && Proper(cs, n, d) && Once(cs)
  }

  /** A half edge left by turn k is still there after n turns. */
  lemma HalfStays(w: Work, cs: seq<Candidate>, k: nat, n: nat, m: int, d: Dist, a: int, b: int)
    requires InRange(w.g) && m > 0 && Trials(cs, |w.g|, d) && k < n <= |cs| && Joins(cs[k], a, b)
    requires HalfEdge(TryAll(w, cs[..k + 1], m, d).g, a, b)
    ensures HalfEdge(TryAll(w, cs[..n], m, d).g, a, b)
  {
    forall j | k < j < |cs| ensures TurnKeeps(w, cs, j, m, d, a, b) {
      LaterTurnKeeps(w, cs, k, j, m, d, a, b);
    }
    TurnsKeep(w, cs, k + 1, n, m, d, a, b);
  }

  /** Turn j leaves the half edge alone if it is there. */
  ghost predicate TurnKeeps(w: Work, cs: seq<Candidate>, j: nat, m: int, d: Dist, a: int, b: int)
    requires InRange(w.g) && m > 0 && j < |cs|
  {
    HalfEdge(TryAll(w, cs[..j], m, d).g, a, b) ==> HalfEdge(TryAll(w, cs[..j + 1], m, d).g, a, b)
  }

  lemma LaterTurnKeeps(w: Work, cs: seq<Candidate>, k: nat, j: nat, m: int, d: Dist, a: int, b: int)
    requires InRange(w.g) && m > 0 && Trials(cs, |w.g|, d) && k < j < |cs| && Joins(cs[k], a, b)
    ensures TurnKeeps(w, cs, j, m, d, a, b)
  {
    if HalfEdge(TryAll(w, cs[..j], m, d).g, a, b) {
      var c := cs[j];
      NextTurn(w, cs, j, m, d);
      assert !Joins(c, cs[k].u, cs[k].w) && d(a, b) == cs[k].dist <= c.dist;
      TurnKeepsHalf(TryAll(w, cs[..j], m, d), c.u, c.w, m, d, a, b);
    }
  }

  lemma {:induction false} TurnsKeep(w: Work, cs: seq<Candidate>, i: nat, n: nat, m: int, d: Dist, a: int, b: int)
    requires InRange(w.g) && m > 0 && i <= n <= |cs| && forall j :: i <= j < n ==> TurnKeeps(w, cs, j, m, d, a, b)
    requires HalfEdge(TryAll(w, cs[..i], m, d).g, a, b)
    ensures HalfEdge(TryAll(w, cs[..n], m, d).g, a, b)
  {
    if i < n {
      TurnsKeep(w, cs, i, n - 1, m, d, a, b);
      assert TurnKeeps(w, cs, n - 1, m, d, a, b);
    }
  }

  /** Turn k of the pass is a half turn. */
  ghost predicate HalfAt(w: Work, cs: seq<Candidate>, k: nat, m: int, d: Dist)
    requires InRange(w.g) && m > 0 && k < |cs|
  {
    HalfTurn(TryAll(w, cs[..k], m, d).g, cs[k].u, cs[k].w, m, d)
  }

  /** Without half turns the layer is simple all along. */
  lemma {:induction false} WholeTurnsSimple(w: Work, cs: seq<Candidate>, n: nat, m: int, d: Dist)
    requires Simple(w.g) && m > 0 && Trials(cs, |w.g|, d) && n <= |cs|
    requires forall k :: 0 <= k < n ==> !HalfAt(w, cs, k, m, d)
    ensures Simple(TryAll(w, cs[..n], m, d).g)
  {
    if n == 0 {
      assert cs[..0] == [];
    } else {
      var c := cs[n - 1];
      WholeTurnsSimple(w, cs, n - 1, m, d);
      NextTurn(w, cs, n - 1, m, d);
      assert !HalfAt(w, cs, n - 1, m, d);
      TurnSimpleExactly(TryAll(w, cs[..n - 1], m, d), c.u, c.w, m, d);
    }
  }

  lemma {:induction false} FirstHalf(w: Work, cs: seq<Candidate>, k: nat, m: int, d: Dist) returns (i: nat)
    requires InRange(w.g) && m > 0 && k < |cs| && HalfAt(w, cs, k, m, d)
    ensures i <= k && HalfAt(w, cs, i, m, d) && forall j :: 0 <= j < i ==> !HalfAt(w, cs, j, m, d)
  {
    if j :| 0 <= j < k && HalfAt(w, cs, j, m, d) {
      i := FirstHalf(w, cs, j, m, d);
    } else {
      i := k;
    }
  }

  /** After a half turn the pass ends with half an edge. */
  lemma HalfTurnShows(w: Work, cs: seq<Candidate>, k: nat, m: int, d: Dist)
    requires Simple(w.g) && m > 0 && Trials(cs, |w.g|, d) && k < |cs| && HalfAt(w, cs, k, m, d)
    ensures !Symmetric(TryAll(w, cs, m, d).g)
  {
    var i := FirstHalf(w, cs, k, m, d);
    var u, v := cs[i].u, cs[i].w;
    WholeTurnsSimple(w, cs, i, m, d);
    NextTurn(w, cs, i, m, d);
    TurnSimpleExactly(TryAll(w, cs[..i], m, d), u, v, m, d);
    assert cs[..|cs|] == cs;
    var h := TryAll(w, cs[..i + 1], m, d).g;
    if v in h[u] {
      HalfStays(w, cs, i, |cs|, m, d, u, v);
    } else {
      HalfStays(w, cs, i, |cs|, m, d, v, u);
    }
  }

  /** A pass keeps a simple layer symmetric if and only if it has no half turn, and then it keeps it simple. */
  lemma PassSymmetricExactly(w: Work, cs: seq<Candidate>, m: int, d: Dist)
    requires Simple(w.g) && m > 0 && Trials(cs, |w.g|, d)
    ensures var h := TryAll(w, cs, m, d).g;
            && (Symmetric(h) <==> forall k :: 0 <= k < |cs| ==> !HalfAt(w, cs, k, m, d))
            && (Symmetric(h) <==> Simple(h))
  {
    if k :| 0 <= k < |cs| && HalfAt(w, cs, k, m, d) {
      HalfTurnShows(w, cs, k, m, d);
    } else {
      WholeTurnsSimple(w, cs, |cs|, m, d);
      assert cs[..|cs|] == cs;
    }
  }

  // ----- every pair is tried once ---------------------------------------------------

  ghost predicate SamePair(a: Candidate, b: Candidate) {
    Joins(b, a.u, a.w)
  }

  lemma {:induction false} InsertSortedOnce(c: Candidate, cs: seq<Candidate>)
    requires Once(cs) && forall x :: x in cs ==> !SamePair(x, c)
    ensures Once(InsertSorted(c, cs))
  {
    if cs != [] && !Before(c, cs[0]) {
      InsertSortedOnce(c, cs[1..]);
      var r := InsertSorted(c, cs[1..]);
      forall j | 0 <= j < |r| ensures !SamePair(cs[0], r[j]) {
        assert r[j] in multiset(r);
        assert r[j] in multiset(cs[1..]) + multiset{c};
        if r[j] != c {
          var k :| 0 <= k < |cs[1..]| && cs[1..][k] == r[j];
          assert cs[1 + k] == r[j];
        } else {
          assert cs[0] in cs;
        }
      }
      OnceFirst(cs[0], r);
    } else {
      forall x | x in cs ensures !SamePair(c, x) {
        assert !SamePair(x, c);
      }
      OnceFirst(c, cs);
    }
  }

  lemma OnceFirst(c: Candidate, cs: seq<Candidate>)
    requires Once(cs) && forall j :: 0 <= j < |cs| ==> !SamePair(c, cs[j])
    ensures Once([c] + cs)
  {
    var r := [c] + cs;
    forall i, j | 0 <= i < j < |r| ensures !Joins(r[j], r[i].u, r[i].w) {
      assert r[j] == cs[j - 1];
      assert i > 0 ==> r[i] == cs[i - 1];
      assert !SamePair(c, cs[j - 1]);
    }
  }

  lemma {:induction false} SortOnce(cs: seq<Candidate>)
    requires Once(cs)
    ensures Once(Sort(cs))
  {
    if cs != [] {
      SortOnce(cs[1..]);
      SortMembers(cs[1..]);
      forall x | x in Sort(cs[1..]) ensures !SamePair(x, cs[0]) {
        var k :| 0 <= k < |cs[1..]| && cs[1..][k] == x;
        assert cs[1 + k] == x;
      }
      InsertSortedOnce(cs[0], Sort(cs[1..]));
    }
  }

  /** The first member of a pair comes before the second among the former neighbours. */
  lemma {:induction false} PairsFrom(os: seq<int>, n: nat, d: Dist, c: Candidate) returns (i: nat, j: nat)
    requires n <= |os| && c in Pairs(os, n, d)
    ensures i < j < |os| && i < n && c.u == os[i] && c.w == os[j]
  {
    var row := PairRow(os, n - 1, |os|, d);
    if c in row {
      PairRowComplete(os, n - 1, |os|, d);
      var k :| 0 <= k < |row| && row[k] == c;
      return n - 1, n + k;
    }
    i, j := PairsFrom(os, n - 1, d, c);
  }

  lemma {:induction false} PairsOnce(os: seq<int>, n: nat, d: Dist)
    requires NoDup(os) && n <= |os|
    ensures Once(Pairs(os, n, d))
  {
    if n > 0 {
      PairsOnce(os, n - 1, d);
      var above, row := Pairs(os, n - 1, d), PairRow(os, n - 1, |os|, d);
      var ps := Pairs(os, n, d);
      PairRowComplete(os, n - 1, |os|, d);
      forall i, j | 0 <= i < j < |ps| ensures !Joins(ps[j], ps[i].u, ps[i].w) {
        if j < |above| {
          assert ps[i] == above[i] && ps[j] == above[j];
        } else {
          assert ps[j] == row[j - |above|];
          if i < |above| {
            assert ps[i] in above;
            var a, b := PairsFrom(os, n - 1, d, ps[i]);
          } else {
            assert ps[i] == row[i - |above|];
          }
        }
      }
    }
  }

  lemma CandidatesTrials(g: Layer, q: int, d: Dist)
    requires IsDist(d) && InRange(g) && 0 <= q < |g|
    ensures Trials(Candidates(g, q, d), |g|, d)
  {
    var os := Orphans(g[q], q, |g|);
    CandidatesProper(os, |g|, d);
    SortSorted(Pairs(os, |os|, d));
    PairsOnce(os, |os|, d);
    SortOnce(Pairs(os, |os|, d));
  }

  // ----- the heal of one layer ------------------------------------------------------

  /** The heal of a simple layer leaves no half edge if and only if none of its turns is a half turn. */
  ghost predicate NoHalfTurn(w: Work, q: int, region: seq<int>, m: int, d: Dist)
    requires InRange(w.g) && m > 0 && 0 <= q < |w.g| && Labels(region, |w.g|)
  {
    IsolateInRange(w, q, region);
    var w1, cs := Isolate(w, q, region), Candidates(w.g, q, d);
    forall k :: 0 <= k < |cs| ==> !HalfAt(w1, cs, k, m, d)
  }

  lemma HealSymmetricExactly(w: Work, q: int, region: seq<int>, m: int, d: Dist)
    requires IsDist(d) && Simple(w.g) && m > 0 && 0 <= q < |w.g| && Labels(region, |w.g|)
    ensures var h := HealLayer(w, q, region, m, d).g;
            && (Symmetric(h) <==> NoHalfTurn(w, q, region, m, d))
            && (Symmetric(h) <==> Simple(h))
  {
    var w1, cs := Isolate(w, q, region), Candidates(w.g, q, d);
    IsolateSimple(w, q, region);
    CandidatesTrials(w.g, q, d);
    PassSymmetricExactly(w1, cs, m, d);
    if |Orphans(w.g[q], q, |w.g|)| < 2 {
      FewCandidates(Orphans(w.g[q], q, |w.g|), d);
    }
  }

  /** Caps that the former neighbours of q fit once it is gone rule half turns out before the heal starts. */
  lemma CapFitsNoHalfTurn(w: Work, q: int, region: seq<int>, m: int, d: Dist)
    requires IsDist(d) && Simple(w.g) && m > 0 && 0 <= q < |w.g| && Labels(region, |w.g|) && CapFits(w.g, q, m)
    ensures NoHalfTurn(w, q, region, m, d)
  {
    HealSymmetricExactly(w, q, region, m, d);
    HealStable(w, q, region, m, d);
  }

  /** With two former neighbours the condition is one on the isolated layer. */
  lemma TwoNeighboursExactly(w: Work, q: int, region: seq<int>, m: int, d: Dist, u: int, v: int)
    requires IsDist(d) && Simple(w.g) && m > 0 && 0 <= q < |w.g| && Labels(region, |w.g|)
    requires Orphans(w.g[q], q, |w.g|) == [u, v]
    ensures Symmetric(HealLayer(w, q, region, m, d).g) <==> !HalfTurn(Isolate(w, q, region).g, u, v, m, d)
  {
    var w1, cs := Isolate(w, q, region), Candidates(w.g, q, d);
    OnePair(u, v, d);
    assert cs == [Candidate(u, v, d(u, v))] && cs[..0] == [];
    HealSymmetricExactly(w, q, region, m, d);
    IsolateInRange(w, q, region);
    assert TryAll(w1, cs[..0], m, d) == w1;
    assert HalfAt(w1, cs, 0, m, d) <==> HalfTurn(w1.g, u, v, m, d);
  }

  lemma OnePair(u: int, v: int, d: Dist)
    ensures Sort(Pairs([u, v], 2, d)) == [Candidate(u, v, d(u, v))]
  {
    var os, c := [u, v], Candidate(u, v, d(u, v));
    assert PairRow(os, 0, 2, d) == PairRow(os, 0, 1, d) + [c] == [c];
    assert Pairs(os, 1, d) == Pairs(os, 0, d) + PairRow(os, 0, 2, d) == [c];
    assert Pairs(os, 2, d) == Pairs(os, 1, d) + PairRow(os, 1, 2, d) == [c];
    assert [c][1..] == [];
    assert Sort([c]) == InsertSorted(c, Sort([])) == [c];
  }

  // ----- a layer that loses its symmetry --------------------------------------------

  /** Node 1 is far from 3, near to 4, and 2 lies between. */
  function Skew(a: int, b: int): real {
    if a == b then 0.0
    else if (a == 1 && b == 3) || (a == 3 && b == 1) then 10.0
    else if (a == 1 && b == 2) || (a == 2 && b == 1) then 5.0
    else 1.0
  }

  /** Node 0 with neighbours 1 and 2; node 1 has two more, one over a cap of 1. */
  const OVER: Layer := [[1, 2], [0, 3, 4], [0], [1], [1]]

  lemma OverSimple(g: Layer)
    requires g == OVER
    ensures Simple(g)
  {
    assert g[0] == [1, 2] && g[1] == [0, 3, 4] && g[2] == [0] && g[3] == [1] && g[4] == [1];
  }

  lemma OverWithout()
    ensures Without([0, 3, 4], 0) == [3, 4] && Without([0], 0) == []
  {
    assert [0, 3, 4][1..] == [3, 4] && [3, 4][1..] == [4] && [4][1..] == [] && [0][1..] == [];
  }

  lemma OverIsolated(w: Work)
    requires w.g == OVER && InRange(w.g)
    ensures Isolate(w, 0, [0, 1, 2]).g == [[], [3, 4], [], [1], [1]]
  {
    var h := Isolate(w, 0, [0, 1, 2]).g;
    OverWithout();
    IsolateStep(w, 0, [0, 1, 2], 0);
    IsolateStep(w, 0, [0, 1, 2], 1);
    IsolateStep(w, 0, [0, 1, 2], 2);
    IsolateStep(w, 0, [0, 1, 2], 3);
    IsolateStep(w, 0, [0, 1, 2], 4);
    assert h[0] == [] && h[1] == [3, 4] && h[2] == [] && h[3] == [1] && h[4] == [1];
  }

  lemma OverOrphans()
    ensures Orphans([1, 2], 0, 5) == [1, 2]
  {
    assert [1, 2][..1] == [1] && [1][..0] == [];
    assert Orphans([1], 0, 5) == [1];
  }

  lemma OverHalfTurn(g: Layer)
    requires g == [[], [3, 4], [], [1], [1]]
    ensures HalfTurn(g, 1, 2, 1, Skew)
  {
    assert g[1] == [3, 4] && g[2] == [];
    assert Nearer(g, 1, 2, Skew) == {4} && Nearer(g, 2, 1, Skew) == {};
  }

  /**
   * One neighbour over the cap is enough: node 1 gives up node 3 for the candidate and still has no slot for it,
   * node 2 takes node 1 in.
   */
  lemma SmallCapBreaksSymmetry(w: Work)
    requires w.g == OVER
    ensures Simple(w.g) && IsDist(Skew)
    ensures !Symmetric(HealLayer(w, 0, [0, 1, 2], 1, Skew).g)
  {
    OverSimple(w.g);
    OverIsolated(w);
    OverOrphans();
    OverHalfTurn(Isolate(w, 0, [0, 1, 2]).g);
    TwoNeighboursExactly(w, 0, [0, 1, 2], 1, Skew, 1, 2);
  }
}
