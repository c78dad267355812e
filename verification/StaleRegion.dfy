/**
 * Why the serializability theorem asks for regions that span the 2-hop neighbourhood: after its second acquisition
 * a heal does not look at the region again, and in the run below it rewrites the list of a node it has not locked
 * while a walker stands on that node.
 */
module StaleRegion {
  import opened Seqs
  import opened LayerHeal
  import opened Layers
  import opened HnswIndex
  import opened Locks
  import opened LockProtocol
  import opened Options

  // two nodes on one layer: linked, with the list of node 0 emptied, and healed
  const LINKED: Adjacency := [[[1]], [[0]]]
  const EMPTIED: Adjacency := [[[]], [[0]]]
  const HEALED: Adjacency := [[[]], [[]]]

  function W(dim: nat, adj: Adjacency, threads: map<nat, Thread>): World {
    World([Zeros(dim), Zeros(dim)], adj, threads)
  }

  function First(k: nat): Thread {
    Locking(0, 1, Guard([0, 1], k), [0, 1], false)
  }

  function Second(k: nat): Thread {
    Locking(0, 1, Guard([0], k), [0], true)
  }

  function Stale(layer: nat): Thread {
    Healing(0, 1, Guard([0], 1), [0], layer, 1)
  }

  function Setter(list: seq<int>, k: nat): Thread {
    Setting(0, 0, list, Guard([0], k))
  }

  /** The run: the heal of node 0 is overtaken twice by `set_neighbors` on node 0. */
  function At(dim: nat, i: nat): World {
    match i
    case 0 => W(dim, LINKED, map[])
    case 1 => W(dim, LINKED, map[0 := Wiping(0, 1, Guard([0], 0))])
    case 2 => W(dim, LINKED, map[0 := Wiping(0, 1, Guard([0], 1))])
    case 3 => W(dim, LINKED, map[0 := Probing(0, 1, Guard([0], 0))])
    case 4 => W(dim, LINKED, map[0 := Probing(0, 1, Guard([0], 1))])
    case 5 => W(dim, LINKED, map[0 := First(0)])
    case 6 => W(dim, LINKED, map[0 := First(0), 1 := Setter([], 0)])
    case 7 => W(dim, LINKED, map[0 := First(0), 1 := Setter([], 1)])
    case 8 => W(dim, EMPTIED, map[0 := First(0)])
    case 9 => W(dim, EMPTIED, map[0 := First(1)])
    case 10 => W(dim, EMPTIED, map[0 := First(2)])
    case 11 => W(dim, EMPTIED, map[0 := Second(0)])
    case 12 => W(dim, EMPTIED, map[0 := Second(0), 1 := Setter([1], 0)])
    case 13 => W(dim, EMPTIED, map[0 := Second(0), 1 := Setter([1], 1)])
    case 14 => W(dim, LINKED, map[0 := Second(0)])
    case 15 => W(dim, LINKED, map[0 := Second(1)])
    case 16 => W(dim, LINKED, map[0 := Stale(0)])
    case 17 => W(dim, LINKED, map[0 := Stale(0), 2 := Walking(1, None)])
    case _ => W(dim, HEALED, map[0 := Stale(1), 2 := Walking(1, None)])
  }

  function Happens(i: nat): Event {
    match i
    case 0 => StartErase(0, 0, 1)
    case 1 => Take(0)
    case 2 => Wipe(0)
    case 3 => Take(0)
    case 4 => Probe(0, [0, 1])
    case 5 => StartSet(1, 0, 0, [])
    case 6 => Take(1)
    case 7 => Write(1)
    case 8 => Take(0)
    case 9 => Take(0)
    case 10 => Check(0, [0])
    case 11 => StartSet(1, 0, 0, [1])
    case 12 => Take(1)
    case 13 => Write(1)
    case 14 => Take(0)
    case 15 => Proceed(0)
    case 16 => Enter(2, 1)
    case _ => HealOne(0, HEALED)
  }

  lemma Stripes()
    ensures UniqueStripes([0], 2) == [0] && UniqueStripes([0, 1], 2) == [0, 1]
    ensures Wanting([0], 2) == Guard([0], 0) && Wanting([0, 1], 2) == Guard([0, 1], 0)
  {
    assert UniqueStripes([], 2) == [];
    assert [0][..0] == [] && [0, 1][..1] == [0];
    assert UniqueStripes([0], 2) == InsertStripe(0, []) == [0];
    assert UniqueStripes([0, 1], 2) == InsertStripe(1, [0]);
    assert [0][1..] == [];
  }

  lemma Graphs()
    ensures Sound(LINKED) && Sound(EMPTIED) && Sound(HEALED)
    ensures SetSlot(LINKED, 0, 0, []) == EMPTIED && SetSlot(EMPTIED, 0, 0, [1]) == LINKED
  {
    var a, b := SetSlot(LINKED, 0, 0, []), SetSlot(EMPTIED, 0, 0, [1]);
    assert a[0] == EMPTIED[0] && a[1] == EMPTIED[1];
    assert b[0] == LINKED[0] && b[1] == LINKED[1];
  }

  /** The regions the heal sees are those of the lists at that moment. */
  lemma Regions()
    ensures HealRegion(LINKED, 0) == [0, 1] && HealRegion(EMPTIED, 0) == [0]
    ensures !UpToDate([0, 1], EMPTIED, 0) && Height(LINKED, 0, [0]) == 1
  {
    var a, b: seq<seq<int>> := LINKED[0], EMPTIED[0];
    assert a[..0] == [] && [1][..0] == [] && [0][..0] == [];
    assert AddList([0], [1], 2) == AddUnique(AddList([0], [], 2), 1, 2);
    assert AddList([0], [1], 2) == [0, 1];
    assert AddLayers([0], a, 1, 2) == AddList(AddLayers([0], a, 0, 2), [1], 2);
    assert OneHop(LINKED, 0) == [0, 1];
    assert AddList([0, 1], [0], 2) == AddUnique(AddList([0, 1], [], 2), 0, 2) == [0, 1];
    assert AddLayers([0, 1], LINKED[1], 1, 2) == [0, 1];
    assert HealRegion(LINKED, 0) == AddHops(LINKED, [0, 1], [0, 1], 2) == [0, 1];
    assert AddLayers([0], b, 1, 2) == AddList([0], [], 2) == [0];
    assert HealRegion(EMPTIED, 0) == AddHops(EMPTIED, [0], [0], 1) == [0];
    assert 1 in Elements([0, 1]) && 1 !in Elements([0]);
    assert [0][..0] == [] && Height(LINKED, 0, []) == 1;
  }

  /** The heal of one edge between q and a node outside the region clears both ends. */
  lemma StaleLayer(w: Work, d: Dist)
    requires w.g == [[1], [0]]
    ensures InRange(w.g) && HealLayer(w, 0, [0], 1, d).g == [[], []]
  {
    StaleIsolated(w);
    NoDupSubset(Orphans(w.g[0], 0, 2), [1]);
  }

  lemma StaleIsolated(w: Work)
    requires w.g == [[1], [0]]
    ensures InRange(w.g) && Isolate(w, 0, [0]).g == [[], []]
  {
    var h := Isolate(w, 0, [0]).g;
    assert Without([0], 0) == [];
    forall k | 0 <= k < 2 ensures h[k] == [] {
      IsolateStep(w, 0, [0], k);
    }
  }

  lemma StaleHeal(d: Dist)
    requires Sound(LINKED)
    ensures HealsOne(LINKED, HEALED, 0, 1, [0], 0, d)
  {
    var w := WorkOf(LINKED, 0, HealingMetrics(0, 0));
    assert w.g == [[1], [0]] && LayerOf(HEALED, 0) == [[], []];
    StaleLayer(w, d);
    OneLayer();
  }

  lemma OneLayer()
    ensures OnlyLayer(LINKED, HEALED, 0)
  {
    forall l: nat | l != 0 ensures LayerOf(HEALED, l) == LayerOf(LINKED, l) {
    }
  }

  lemma FirstPass(dim: nat, metric: Metric, i: nat)
    requires i < 5 && AllFine(At(dim, i), 2)
    ensures Step(At(dim, i), Happens(i), At(dim, i + 1), 2, dim, metric)
  {
    if i == 1 || i == 3 {
      TakesAlone(At(dim, i), 0, At(dim, i + 1), 2, dim, metric);
    } else {
      FirstMoves(dim, metric, i);
    }
  }

  lemma FirstMoves(dim: nat, metric: Metric, i: nat)
    requires (i == 0 || i == 2 || i == 4) && AllFine(At(dim, i), 2)
    ensures Step(At(dim, i), Happens(i), At(dim, i + 1), 2, dim, metric)
  {
    Stripes();
  }

  lemma OvertakenOnce(dim: nat, metric: Metric, i: nat)
    requires 5 <= i < 8 && AllFine(At(dim, i), 2)
    ensures Step(At(dim, i), Happens(i), At(dim, i + 1), 2, dim, metric)
  {
    Stripes();
    Graphs();
  }

  lemma SecondPass(dim: nat, metric: Metric, i: nat)
    requires 8 <= i < 10 && AllFine(At(dim, i), 2)
    ensures Step(At(dim, i), Happens(i), At(dim, i + 1), 2, dim, metric)
  {
    TakesFirst(At(dim, i), At(dim, i + 1), i - 8, dim, metric);
  }

  /** The healer takes the stripes of its first region; the walker has not come yet. */
  lemma TakesFirst(w: World, w': World, k: nat, dim: nat, metric: Metric)
    requires AllFine(w, 2) && w.threads == map[0 := First(k)] && k < 2 && w' == Put(w, 0, First(k + 1))
    ensures Step(w, Take(0), w', 2, dim, metric)
  {
    TakesAlone(w, 0, w', 2, dim, metric);
  }

  /** A stripe can be had when no other thread is there. */
  lemma TakesAlone(w: World, id: nat, w': World, pool: nat, dim: nat, metric: Metric)
    requires pool > 0 && AllFine(w, pool) && w.threads.Keys == {id} && !w.threads[id].Walking?
    requires !w.threads[id].guard.Full() && w' == Put(w, id, Took(w.threads[id]))
    ensures Step(w, Take(id), w', pool, dim, metric)
  {
  }

  lemma CheckFails(dim: nat, metric: Metric)
    requires AllFine(At(dim, 10), 2)
    ensures Step(At(dim, 10), Happens(10), At(dim, 11), 2, dim, metric)
  {
    var w, w' := At(dim, 10), At(dim, 11);
    assert w' == Put(w, 0, Second(0));
    assert Wanting([0], 2) == Guard([0], 0) by { Stripes(); }
    Changed(w);
    FindsChange(w, 0, [0], w', 2, dim, metric);
  }

  lemma Changed(w: World)
    requires w.adj == EMPTIED
    ensures !UpToDate([0, 1], w.adj, 0)
  {
    Regions();
    Saw(w, EMPTIED, [0]);
    assert 1 in Elements([0, 1]) && 1 !in Elements([0]);
  }

  lemma FindsChange(w: World, id: nat, seen: seq<int>, w': World, pool: nat, dim: nat, metric: Metric)
    requires pool > 0 && AllFine(w, pool) && id in w.threads && w.threads[id].Locking?
    requires w.threads[id].guard.Full() && !w.threads[id].again
    requires var t := w.threads[id];
             && 0 <= t.q < |w.adj| && !UpToDate(t.region, w.adj, t.q) && IsRegion(seen, t.q, |w.adj|)
             && w' == Put(w, id, Locking(t.q, t.m, Wanting(seen, pool), seen, true))
    ensures Step(w, Check(id, seen), w', pool, dim, metric)
  {
  }

  lemma OvertakenAgain(dim: nat, metric: Metric, i: nat)
    requires 11 <= i < 14 && AllFine(At(dim, i), 2)
    ensures Step(At(dim, i), Happens(i), At(dim, i + 1), 2, dim, metric)
  {
    Stripes();
    Graphs();
  }

  lemma NoRecheck(dim: nat, metric: Metric, i: nat)
    requires 14 <= i < 17 && AllFine(At(dim, i), 2)
    ensures Step(At(dim, i), Happens(i), At(dim, i + 1), 2, dim, metric)
  {
    if i == 15 {
      assert Height(LINKED, 0, [0]) == 1 by { Regions(); }
    }
  }

  lemma HealsStale(dim: nat, metric: Metric)
    requires AllFine(At(dim, 17), 2)
    ensures Step(At(dim, 17), Happens(17), At(dim, 18), 2, dim, metric)
  {
    var w, w' := At(dim, 17), At(dim, 18);
    assert w' == Put(w.(adj := HEALED), 0, Stale(1));
    StaleCan(w, w', metric);
    HealsNext(w, 0, HEALED, w', 2, dim, metric);
  }

  /** A heal that has layers left, and what it leaves of the next one. */
  ghost predicate CanHeal(w: World, id: nat, after: Adjacency, w': World, pool: nat, metric: Metric)
    requires pool > 0
  {
    && AllFine(w, pool) && id in w.threads && w.threads[id].Healing?
    && w.threads[id].layer < w.threads[id].top && Fine(w.threads[id], |w.adj|, pool)
    && var t := w.threads[id];
       && HealsOne(w.adj, after, t.q, t.m, t.region, t.layer, NodeDist(metric, w.rows))
       && w' == Put(w.(adj := after), id, t.(layer := t.layer + 1))
  }

  lemma StaleCan(w: World, w': World, metric: Metric)
    requires AllFine(w, 2) && w.adj == LINKED && 0 in w.threads && w.threads[0] == Stale(0)
    requires w' == Put(w.(adj := HEALED), 0, Stale(1))
    ensures CanHeal(w, 0, HEALED, w', 2, metric)
  {
    var t := w.threads[0];
    assert Fine(t, |w.adj|, 2);
    StaleHeal(NodeDist(metric, w.rows));
  }

  lemma HealsNext(w: World, id: nat, after: Adjacency, w': World, pool: nat, dim: nat, metric: Metric)
    requires pool > 0 && CanHeal(w, id, after, w', pool, metric)
    ensures Step(w, HealOne(id, after), w', pool, dim, metric)
  {
  }

  lemma {:induction false} AllSteps(dim: nat, metric: Metric, n: nat)
    requires n <= 18
    ensures AllFine(At(dim, n), 2)
    ensures forall i :: 0 <= i < n ==> Step(At(dim, i), Happens(i), At(dim, i + 1), 2, dim, metric)
  {
    if n == 0 {
      Graphs();
    } else {
      var i := n - 1;
      AllSteps(dim, metric, i);
      if i < 5 {
        FirstPass(dim, metric, i);
      } else if i < 8 {
        OvertakenOnce(dim, metric, i);
      } else if i < 10 {
        SecondPass(dim, metric, i);
      } else if i == 10 {
        CheckFails(dim, metric);
      } else if i < 14 {
        OvertakenAgain(dim, metric, i);
      } else if i < 17 {
        NoRecheck(dim, metric, i);
      } else {
        HealsStale(dim, metric);
      }
      StepFine(At(dim, i), Happens(i), At(dim, n), 2, dim, metric);
    }
  }

  /** The last step of the run changes the list of node 1, which the healer has not locked and a walker stands on. */
  ghost predicate WritesUnlocked(ws: seq<World>, es: seq<Event>, healer: nat, walker: nat, k: int) {
    && |ws| == |es| + 1 && es != []
    && var w, w' := ws[|es| - 1], ws[|es|];
       && es[|es| - 1].HealOne? && es[|es| - 1].id == healer && healer in w.threads && walker in w.threads
       && 0 <= k < |w.adj| == |w'.adj| && w'.adj[k] != w.adj[k]
       && !Owns(w.threads[healer], k, 2) && w.threads[walker] == Walking(k, None)
  }

  /** Both regions were computed from the lists as they stood. */
  ghost predicate SeesExactly(ws: seq<World>, es: seq<Event>) {
    && |ws| == |es| + 1
    && forall i :: 0 <= i < |es| && (es[i].Probe? || es[i].Check?) ==>
         0 < |ws[i].adj| && es[i].seen == HealRegion(ws[i].adj, 0)
  }

  lemma LastStepUnlocked(dim: nat, ws: seq<World>, es: seq<Event>)
    requires |ws| == 19 && |es| == 18 && ws[17] == At(dim, 17) && ws[18] == At(dim, 18) && es[17] == Happens(17)
    ensures WritesUnlocked(ws, es, 0, 2, 1)
  {
    assert LINKED[1] == [[0]] && HEALED[1] == [[]];
    assert forall s :: s in Exclusive(Stale(0)) ==> s == 0;
  }

  /** A region is that of a world when it is that of the world's lists. */
  lemma Saw(w: World, adj: Adjacency, seen: seq<int>)
    requires w.adj == adj && |adj| == 2 && HealRegion(adj, 0) == seen
    ensures HealRegion(w.adj, 0) == seen
  {
  }

  lemma SawExactly(dim: nat)
    ensures HealRegion(At(dim, 4).adj, 0) == [0, 1] && HealRegion(At(dim, 10).adj, 0) == [0]
  {
    Regions();
    Saw(At(dim, 4), LINKED, [0, 1]);
    Saw(At(dim, 10), EMPTIED, [0]);
  }

  lemma LooksTwice(i: nat)
    requires i < 18 && (Happens(i).Probe? || Happens(i).Check?)
    ensures i == 4 || i == 10
  {
  }

  lemma BothSeen(dim: nat, ws: seq<World>, es: seq<Event>)
    requires |ws| == 19 && |es| == 18 && (forall i :: 0 <= i < 18 ==> es[i] == Happens(i))
    requires ws[4].adj == At(dim, 4).adj && ws[10].adj == At(dim, 10).adj
    ensures SeesExactly(ws, es)
  {
    SawExactly(dim);
    Saw(ws[4], At(dim, 4).adj, [0, 1]);
    Saw(ws[10], At(dim, 10).adj, [0]);
    forall i | 0 <= i < |es| && (es[i].Probe? || es[i].Check?)
      ensures 0 < |ws[i].adj| && es[i].seen == HealRegion(ws[i].adj, 0)
    {
      LooksTwice(i);
    }
  }

  /** With a region that no longer spans them a heal may write a node it has not locked, under the eyes of a walker. */
  lemma StaleHealWritesUnlocked(dim: nat, metric: Metric)
    ensures exists ws, es :: IsRun(ws, es, 2, dim, metric) && SeesExactly(ws, es) && WritesUnlocked(ws, es, 0, 2, 1)
  {
    var ws := seq(19, i requires 0 <= i < 19 => At(dim, i));
    var es := seq(18, i requires 0 <= i < 18 => Happens(i));
    assert IsRun(ws, es, 2, dim, metric) by {
      AllSteps(dim, metric, 18);
      Graphs();
    }
    LastStepUnlocked(dim, ws, es);
    BothSeen(dim, ws, es);
  }
}
