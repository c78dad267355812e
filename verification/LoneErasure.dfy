module LoneErasure {
  /**
   * The lock protocol lets every thread go on, and an erasure that nobody disturbs runs through it to the end and
   * leaves behind what `erase_node` alone does.
   */

  import opened Seqs
  import opened LayerHeal
  import opened HealBookkeeping
  import opened Layers
  import opened HnswIndex
  import opened Locks
  import opened LockProtocol
  import opened Serializability
  import opened Options
  import opened Reachability

  // ----- one layer of the store replaced --------------------------------------------

  /** The store with the lists of one layer replaced; nodes whose list stays are not touched. */
  function Replaced(adj: Adjacency, layer: nat, h: Layer): (r: Adjacency)
    requires |h| == |adj|
    ensures |r| == |adj| && forall k :: 0 <= k < |adj| ==>
              r[k] == if h[k] == Slot(adj, k, layer) then adj[k] else Padded(adj[k], layer)[layer := h[k]]
  {
    seq(|adj|, k requires 0 <= k < |adj| =>
      if h[k] == Slot(adj, k, layer) then adj[k] else Padded(adj[k], layer)[layer := h[k]])
  }

  lemma ReplacedLayers(adj: Adjacency, layer: nat, h: Layer)
    requires |h| == |adj|
    ensures LayerOf(Replaced(adj, layer, h), layer) == h && OnlyLayer(adj, Replaced(adj, layer, h), layer)
  {
    var r := Replaced(adj, layer, h);
    forall l: nat | l != layer ensures LayerOf(r, l) == LayerOf(adj, l) {
      forall k | 0 <= k < |adj| ensures Slot(r, k, l) == Slot(adj, k, l) {
      }
    }
  }

  /** Every layer can be healed with any region. */
  lemma HealsOneLayer(adj: Adjacency, q: int, m: int, region: seq<int>, layer: nat, d: Dist) returns (after: Adjacency)
    requires Sound(adj) && 0 <= q < |adj| && Labels(region, |adj|) && m > 0
    ensures HealsOne(adj, after, q, m, region, layer, d)
  {
    var g := LayerOf(adj, layer);
    assert InRange(g);
    var w := WorkOf(adj, layer, HealingMetrics(0, 0));
    var h := HealLayer(w, q, region, m, d).g;
    after := Replaced(adj, layer, h);
    ReplacedLayers(adj, layer, h);
    forall k | 0 <= k < |adj| && k !in region && !TwoHops(g, q, k) ensures after[k] == adj[k] {
      FarKept(w, q, region, m, d, k);
    }
  }

  /** A node outside the region and more than two hops away keeps its list. */
  lemma FarKept(w: Work, q: int, region: seq<int>, m: int, d: Dist, k: int)
    requires InRange(w.g) && 0 <= q < |w.g| && Labels(region, |w.g|) && m > 0
    requires 0 <= k < |w.g| && !TwoHops(w.g, q, k)
    requires k !in region
    ensures HealLayer(w, q, region, m, d).g[k] == w.g[k]
  {
    var os := Orphans(w.g[q], q, |w.g|);
    var w1, oset, all := Isolate(w, q, region), Elements(os), Nodes(w.g) - {k};
    IsolateStep(w, q, region, k);
    IsolateInRange(w, q, region);
    if |os| >= 2 {
      var cs := Sort(Pairs(os, |os|, d));
      CandidateEnds(os, d);
      forall u, x | u in oset && 0 <= u < |w.g| && x in w1.g[u] ensures x in all {
        IsolateStep(w, q, region, u);
        assert x in w.g[u] && u in w.g[q];
        assert InRange(w.g) && Labels(w.g[u], |w.g|);
      }
      assert oset <= all;
      assert Local(w1.g, oset, all);
      TryAllConfined(w1, cs, m, d, oset, all);
    }
  }

  // ----- every thread can go on -----------------------------------------------------

  /** The thread waits for a stripe that somebody else holds. */
  ghost predicate Blocked(w: World, id: nat, pool: nat)
    requires pool > 0
  {
    Waits(w, id) && !Free(w, id, Next(w, id), pool)
  }

  /** Every thread has a step to take, and one that is not blocked need not give up. */
  lemma NeverStuck(w: World, id: nat, pool: nat, dim: nat, metric: Metric) returns (e: Event, w': World)
    requires pool > 0 && AllFine(w, pool) && id in w.threads
    ensures e.id == id && Step(w, e, w', pool, dim, metric)
    ensures e.TimeOut? ==> Blocked(w, id, pool)
  {
    var t := w.threads[id];
    assert Fine(t, |w.adj|, pool);
    if t.Walking? {
      e, w' := Stop(id), Gone(w, id);
    } else if !t.guard.Full() {
      if Free(w, id, t.guard.stripes[t.guard.taken], pool) {
        e, w' := Take(id), Put(w, id, Took(t));
      } else {
        e, w' := TimeOut(id), Gone(w, id);
      }
    } else {
      e, w' := HoldsAll(w, id, pool, dim, metric);
    }
  }

  /** The step of a thread that holds all the stripes it wants. */
  lemma HoldsAll(w: World, id: nat, pool: nat, dim: nat, metric: Metric) returns (e: Event, w': World)
    requires pool > 0 && AllFine(w, pool) && id in w.threads && !w.threads[id].Walking? && w.threads[id].guard.Full()
    ensures e.id == id && !e.TimeOut? && Step(w, e, w', pool, dim, metric)
  {
    var t := w.threads[id];
    assert Fine(t, |w.adj|, pool);
    match t
    case Wiping(q, m, _) =>
      e := Wipe(id);
      w' := Put(w.(rows := w.rows[q := Zeros(dim)]), id, Probing(q, m, Wanting([q], pool)));
    case Probing(q, m, _) =>
      var seen := HealRegion(w.adj, q);
      e, w' := Probe(id, seen), Put(w, id, Locking(q, m, Wanting(seen, pool), seen, false));
    case Locking(_, _, _, _, _) => e, w' := LocksAll(w, id, pool, dim, metric);
    case Healing(_, _, _, _, _, _) => e, w' := HealsOn(w, id, pool, dim, metric);
    case Setting(node, slot, list, _) =>
      e, w' := Write(id), Gone(w.(adj := SetSlot(w.adj, node, slot, list)), id);
  }

  lemma HealsOn(w: World, id: nat, pool: nat, dim: nat, metric: Metric) returns (e: Event, w': World)
    requires pool > 0 && AllFine(w, pool) && id in w.threads && w.threads[id].Healing?
    ensures e.id == id && !e.TimeOut? && Step(w, e, w', pool, dim, metric)
  {
    var t := w.threads[id];
    assert Fine(t, |w.adj|, pool);
    if t.layer < t.top {
      var after := HealsOneLayer(w.adj, t.q, t.m, t.region, t.layer, NodeDist(metric, w.rows));
      e, w' := HealOne(id, after), Put(w.(adj := after), id, t.(layer := t.layer + 1));
    } else {
      e, w' := Finish(id), Gone(w.(adj := Cleared(w.adj, t.q)), id);
    }
  }

  lemma LocksAll(w: World, id: nat, pool: nat, dim: nat, metric: Metric) returns (e: Event, w': World)
    requires pool > 0 && AllFine(w, pool) && id in w.threads && w.threads[id].Locking? && w.threads[id].guard.Full()
    ensures e.id == id && !e.TimeOut? && Step(w, e, w', pool, dim, metric)
  {
    var t := w.threads[id];
    assert Fine(t, |w.adj|, pool);
    var healing := Put(w, id, Healing(t.q, t.m, t.guard, t.region, 0, Height(w.adj, t.q, t.region)));
    var seen := HealRegion(w.adj, t.q);
    if t.again {
      e, w' := Proceed(id), healing;
    } else {
      e := Check(id, seen);
      w' := if UpToDate(t.region, w.adj, t.q) then healing
            else Put(w, id, Locking(t.q, t.m, Wanting(seen, pool), seen, true));
    }
  }

  // ----- an erasure that is alone ---------------------------------------------------

  ghost predicate Path(ws: seq<World>, es: seq<Event>, pool: nat, dim: nat, metric: Metric)
    requires pool > 0
  {
    && |ws| == |es| + 1
    && forall i :: 0 <= i < |es| ==> Step(ws[i], es[i], ws[i + 1], pool, dim, metric)
  }

  lemma Join(ws: seq<World>, es: seq<Event>, ws': seq<World>, es': seq<Event>, pool: nat, dim: nat, metric: Metric)
    requires pool > 0 && Path(ws, es, pool, dim, metric) && Path(ws', es', pool, dim, metric) && ws[|es|] == ws'[0]
    ensures Path(ws + ws'[1..], es + es', pool, dim, metric)
    ensures (ws + ws'[1..])[0] == ws[0] && (ws + ws'[1..])[|es + es'|] == ws'[|es'|]
  {
    var us, fs := ws + ws'[1..], es + es';
    forall i | 0 <= i < |fs| ensures Step(us[i], fs[i], us[i + 1], pool, dim, metric) {
      if i >= |es| {
        assert us[i] == ws'[i - |es|] && us[i + 1] == ws'[i - |es| + 1];
      }
    }
  }

  lemma OneStep(w: World, e: Event, w': World, pool: nat, dim: nat, metric: Metric)
    requires pool > 0 && Step(w, e, w', pool, dim, metric)
    ensures Path([w, w'], [e], pool, dim, metric)
  {
  }

  /** Thread 0 is the only one. */
  ghost predicate Alone(w: World, t: Thread) {
    w.threads == map[0 := t]
  }

  function With(t: Thread, taken: nat): (r: Thread)
    requires !t.Walking?
    ensures !r.Walking? && r.guard == Guard(t.guard.stripes, taken)
  {
    var g := Guard(t.guard.stripes, taken);
    match t
    case Wiping(q, m, _) => Wiping(q, m, g)
    case Probing(q, m, _) => Probing(q, m, g)
    case Locking(q, m, _, region, again) => Locking(q, m, g, region, again)
    case Healing(q, m, _, region, layer, top) => Healing(q, m, g, region, layer, top)
    case Setting(node, slot, list, _) => Setting(node, slot, list, g)
  }

  /** Alone, a guard gets all its stripes. */
  lemma {:induction false} TakesAll(w: World, t: Thread, pool: nat, dim: nat, metric: Metric)
    returns (ws: seq<World>, es: seq<Event>)
    requires pool > 0 && AllFine(w, pool) && Alone(w, t) && !t.Walking?
    ensures Path(ws, es, pool, dim, metric) && ws[0] == w
    ensures ws[|es|] == w.(threads := map[0 := With(t, |t.guard.stripes|)]) && AllFine(ws[|es|], pool)
    decreases |t.guard.stripes| - t.guard.taken
  {
    assert w.threads[0] == t && Fine(t, |w.adj|, pool);
    if t.guard.Full() {
      assert With(t, |t.guard.stripes|) == t;
      ws, es := [w], [];
    } else {
      var w' := Put(w, 0, Took(t));
      assert w'.threads == map[0 := Took(t)];
      assert Step(w, Take(0), w', pool, dim, metric);
      StepFine(w, Take(0), w', pool, dim, metric);
      OneStep(w, Take(0), w', pool, dim, metric);
      ws, es := TakesAll(w', Took(t), pool, dim, metric);
      Join([w, w'], [Take(0)], ws, es, pool, dim, metric);
      ws, es := [w, w'] + ws[1..], [Take(0)] + es;
    }
  }

  /** The thread of a heal that has done its first k layers. */
  function At(q: int, m: int, g: Guard, region: seq<int>, k: nat, top: nat): Thread {
    Healing(q, m, g, region, k, top)
  }

  /** After k layers. */
  ghost predicate HealedTo(adj: Adjacency, adj': Adjacency, q: int, m: int, d: Dist, k: nat)
    requires Sound(adj) && 0 <= q < |adj| && m > 0
  {
    && |adj'| == |adj| && HealedBelow(adj, adj', q, m, d, k)
    && forall x :: 0 <= x < |adj| && x !in HealRegion(adj, q) ==> adj'[x] == adj[x]
  }

  lemma HealsNext(adj: Adjacency, mid: Adjacency, q: int, m: int, d: Dist, k: nat, region: seq<int>)
    returns (after: Adjacency)
    requires Sound(adj) && Sound(mid) && 0 <= q < |adj| && m > 0 && HealedTo(adj, mid, q, m, d, k)
    requires region == HealRegion(adj, q)
    ensures HealsOne(mid, after, q, m, region, k, d) && HealedTo(adj, after, q, m, d, k + 1)
  {
    after := HealsOneLayer(mid, q, m, region, k, d);
    RegionCovers(adj, q, k);
    var w, w' := WorkOf(adj, k, Tally(adj, q, m, d, k)), WorkOf(mid, k, HealingMetrics(0, 0));
    assert w'.g == w.g;
    RegionOrder(w, w', q, region, region, m, d);
    assert LayerOf(after, k) == HealedWork(adj, q, m, d, k).g;
    forall x | 0 <= x < |adj| && x !in region ensures after[x] == adj[x] {
      assert !TwoHops(w.g, q, x);
    }
  }

  /** The erasure of q is alone and has healed the first k layers of `adj`. */
  ghost predicate Midway(w: World, adj: Adjacency, q: int, m: int, g: Guard, k: nat, metric: Metric) {
    && Sound(adj) && 0 <= q < |adj| && m > 0 && k <= Height(adj, q, HealRegion(adj, q))
    && Alone(w, At(q, m, g, HealRegion(adj, q), k, Height(adj, q, HealRegion(adj, q))))
    && HealedTo(adj, w.adj, q, m, NodeDist(metric, w.rows), k)
  }

  /** A path from w on which the only thread finishes, with all layers of `adj` healed. */
  ghost predicate Completes(ws: seq<World>, es: seq<Event>, w: World, adj: Adjacency, q: int, m: int,
                            pool: nat, dim: nat, metric: Metric)
    requires pool > 0
  {
    && Path(ws, es, pool, dim, metric) && ws[0] == w
    && ws[|es|].threads == map[] && ws[|es|].rows == w.rows
    && Sound(adj) && 0 <= q < |adj| && m > 0 && Healed(adj, ws[|es|].adj, q, m, NodeDist(metric, w.rows))
  }

  /** A path that the heal of layer after layer has come along so far. */
  ghost predicate HealedSoFar(ws: seq<World>, es: seq<Event>, w: World, q: int, m: int, g: Guard, k: nat,
                            pool: nat, dim: nat, metric: Metric)
    requires pool > 0
  {
    && Path(ws, es, pool, dim, metric) && ws[0] == w && ws[|es|].rows == w.rows && AllFine(ws[|es|], pool)
    && Midway(ws[|es|], w.adj, q, m, g, k, metric)
  }

  lemma HealsFurther(ws: seq<World>, es: seq<Event>, w: World, q: int, m: int, g: Guard, k: nat,
                     pool: nat, dim: nat, metric: Metric)
    returns (us: seq<World>, fs: seq<Event>)
    requires pool > 0 && HealedSoFar(ws, es, w, q, m, g, k, pool, dim, metric)
    requires Sound(w.adj) && 0 <= q < |w.adj| && k < Height(w.adj, q, HealRegion(w.adj, q))
    ensures HealedSoFar(us, fs, w, q, m, g, k + 1, pool, dim, metric)
  {
    var e, w' := NextLayer(ws[|es|], w.adj, q, m, g, k, pool, dim, metric);
    Join(ws, es, [ws[|es|], w'], [e], pool, dim, metric);
    us, fs := ws + [ws[|es|], w'][1..], es + [e];
  }

  /** The whole heal. */
  lemma HealsAll(w: World, q: int, m: int, g: Guard, pool: nat, dim: nat, metric: Metric)
    returns (ws: seq<World>, es: seq<Event>)
    requires pool > 0 && AllFine(w, pool) && Midway(w, w.adj, q, m, g, 0, metric)
    ensures Completes(ws, es, w, w.adj, q, m, pool, dim, metric)
  {
    ws, es := [w], [];
    var k, top := 0, Height(w.adj, q, HealRegion(w.adj, q));
    while k < top
      invariant 0 <= k <= top && HealedSoFar(ws, es, w, q, m, g, k, pool, dim, metric)
    {
      ws, es := HealsFurther(ws, es, w, q, m, g, k, pool, dim, metric);
      k := k + 1;
    }
    ws, es := HealsLast(ws, es, w, q, m, g, k, pool, dim, metric);
  }

  lemma HealsLast(ws: seq<World>, es: seq<Event>, w: World, q: int, m: int, g: Guard, k: nat,
                  pool: nat, dim: nat, metric: Metric)
    returns (us: seq<World>, fs: seq<Event>)
    requires pool > 0 && HealedSoFar(ws, es, w, q, m, g, k, pool, dim, metric)
    requires Sound(w.adj) && 0 <= q < |w.adj| && k == Height(w.adj, q, HealRegion(w.adj, q))
    ensures Completes(us, fs, w, w.adj, q, m, pool, dim, metric)
  {
    var w' := LastSweep(ws[|es|], w.adj, q, m, g, k, pool, dim, metric);
    Join(ws, es, [ws[|es|], w'], [Finish(0)], pool, dim, metric);
    us, fs := ws + [ws[|es|], w'][1..], es + [Finish(0)];
  }

  lemma LastSweep(w: World, adj: Adjacency, q: int, m: int, g: Guard, k: nat, pool: nat, dim: nat, metric: Metric)
    returns (w': World)
    requires pool > 0 && AllFine(w, pool) && Midway(w, adj, q, m, g, k, metric)
    requires k == Height(adj, q, HealRegion(adj, q))
    ensures Completes([w, w'], [Finish(0)], w, adj, q, m, pool, dim, metric)
  {
    var d := NodeDist(metric, w.rows);
    HealedAbove(adj, w.adj, q, m, d, k);
    ClearsNothing(adj, w.adj, q, m, d);
    w' := World(w.rows, Cleared(w.adj, q), map[]);
    HealEnds(w, At(q, m, g, HealRegion(adj, q), k, k), w', pool, dim, metric);
  }

  lemma NextLayer(w: World, adj: Adjacency, q: int, m: int, g: Guard, k: nat, pool: nat, dim: nat, metric: Metric)
    returns (e: Event, w': World)
    requires pool > 0 && AllFine(w, pool) && Midway(w, adj, q, m, g, k, metric)
    requires k < Height(adj, q, HealRegion(adj, q))
    ensures Path([w, w'], [e], pool, dim, metric) && AllFine(w', pool)
    ensures Midway(w', adj, q, m, g, k + 1, metric) && w'.rows == w.rows
  {
    var region := HealRegion(adj, q);
    var t := At(q, m, g, region, k, Height(adj, q, region));
    var after := HealsNext(adj, w.adj, q, m, NodeDist(metric, w.rows), k, region);
    e, w' := HealOne(0, after), World(w.rows, after, map[0 := t.(layer := k + 1)]);
    HealMoves(w, t, after, w', pool, dim, metric);
  }

  lemma HealEnds(w: World, t: Thread, w': World, pool: nat, dim: nat, metric: Metric)
    requires pool > 0 && AllFine(w, pool) && Alone(w, t) && t.Healing? && t.layer == t.top && 0 <= t.q < |w.adj|
    requires w' == World(w.rows, Cleared(w.adj, t.q), map[])
    ensures Path([w, w'], [Finish(0)], pool, dim, metric)
  {
    assert w.threads[0] == t && WithoutKey(w.threads, 0) == map[];
    OneStep(w, Finish(0), w', pool, dim, metric);
  }

  lemma HealMoves(w: World, t: Thread, after: Adjacency, w': World, pool: nat, dim: nat, metric: Metric)
    requires pool > 0 && AllFine(w, pool) && Alone(w, t) && t.Healing? && t.layer < t.top
    requires 0 <= t.q < |w.adj| && Labels(t.region, |w.adj|) && t.m > 0
    requires HealsOne(w.adj, after, t.q, t.m, t.region, t.layer, NodeDist(metric, w.rows))
    requires w' == World(w.rows, after, map[0 := t.(layer := t.layer + 1)])
    ensures Path([w, w'], [HealOne(0, after)], pool, dim, metric) && AllFine(w', pool)
  {
    assert w.threads[0] == t && w'.threads == w.threads[0 := t.(layer := t.layer + 1)];
    assert Step(w, HealOne(0, after), w', pool, dim, metric);
    StepFine(w, HealOne(0, after), w', pool, dim, metric);
    OneStep(w, HealOne(0, after), w', pool, dim, metric);
  }

  /** The last sweep finds nothing to clear. */
  lemma ClearsNothing(adj: Adjacency, adj': Adjacency, q: int, m: int, d: Dist)
    requires Sound(adj) && 0 <= q < |adj| && m > 0 && Healed(adj, adj', q, m, d)
    ensures Healed(adj, Cleared(adj', q), q, m, d)
  {
    forall l: nat ensures LayerOf(Cleared(adj', q), l) == HealedWork(adj, q, m, d, l).g {
      RegionCovers(adj, q, l);
      HealAccounts(WorkOf(adj, l, Tally(adj, q, m, d, l)), q, HealRegion(adj, q), m, d);
      ClearedSame(adj', q, l);
    }
  }

  /** The world once thread 0 holds all it wants. */
  function Ready(w: World, t: Thread): (w': World)
    requires !t.Walking?
  {
    w.(threads := map[0 := With(t, |t.guard.stripes|)])
  }

  /** From one guard to the next: all stripes are taken, then one step is made. */
  lemma Stage(w: World, t: Thread, e: Event, w': World, pool: nat, dim: nat, metric: Metric)
    returns (ws: seq<World>, es: seq<Event>)
    requires pool > 0 && AllFine(w, pool) && Alone(w, t) && !t.Walking?
    requires AllFine(Ready(w, t), pool) ==> Step(Ready(w, t), e, w', pool, dim, metric)
    ensures Path(ws, es, pool, dim, metric) && ws[0] == w && ws[|es|] == w' && AllFine(w', pool)
  {
    ws, es := TakesAll(w, t, pool, dim, metric);
    var mid := Ready(w, t);
    StepFine(mid, e, w', pool, dim, metric);
    OneStep(mid, e, w', pool, dim, metric);
    Join(ws, es, [mid, w'], [e], pool, dim, metric);
    ws, es := ws + [mid, w'][1..], es + [e];
  }

  /** The overwrite and the first look at the neighbourhood. */
  lemma Overwrites(w: World, q: int, m: int, pool: nat, dim: nat, metric: Metric)
    returns (ws: seq<World>, es: seq<Event>)
    requires pool > 0 && Init(w) && 0 <= q < |w.adj| && m > 0
    ensures var rows, region := w.rows[q := Zeros(dim)], HealRegion(w.adj, q);
            && Path(ws, es, pool, dim, metric) && ws[0] == w && AllFine(ws[|es|], pool)
            && ws[|es|] == World(rows, w.adj, map[0 := Locking(q, m, Wanting(region, pool), region, false)])
  {
    var region, one := HealRegion(w.adj, q), Wanting([q], pool);
    var t1, t2 := Wiping(q, m, one), Probing(q, m, one);
    var w1 := w.(threads := map[0 := t1]);
    assert Step(w, StartErase(0, q, m), w1, pool, dim, metric);
    StepFine(w, StartErase(0, q, m), w1, pool, dim, metric);
    OneStep(w, StartErase(0, q, m), w1, pool, dim, metric);
    var w2 := World(w.rows[q := Zeros(dim)], w.adj, map[0 := t2]);
    var a, ae := Stage(w1, t1, Wipe(0), w2, pool, dim, metric);
    var w3 := World(w2.rows, w.adj, map[0 := Locking(q, m, Wanting(region, pool), region, false)]);
    var b, be := Stage(w2, t2, Probe(0, region), w3, pool, dim, metric);
    Join([w, w1], [StartErase(0, q, m)], a, ae, pool, dim, metric);
    ws, es := [w, w1] + a[1..], [StartErase(0, q, m)] + ae;
    Join(ws, es, b, be, pool, dim, metric);
    ws, es := ws + b[1..], es + be;
  }

  /** The region is locked and found up to date, and the heal runs to its end. */
  lemma LocksAndHeals(w: World, q: int, m: int, pool: nat, dim: nat, metric: Metric)
    returns (ws: seq<World>, es: seq<Event>)
    requires pool > 0 && AllFine(w, pool) && 0 <= q < |w.adj| && m > 0
    requires Alone(w, Locking(q, m, Wanting(HealRegion(w.adj, q), pool), HealRegion(w.adj, q), false))
    ensures Path(ws, es, pool, dim, metric) && ws[0] == w && ws[|es|].threads == map[] && ws[|es|].rows == w.rows
    ensures Healed(w.adj, ws[|es|].adj, q, m, NodeDist(metric, w.rows))
  {
    var region := HealRegion(w.adj, q);
    var t := Locking(q, m, Wanting(region, pool), region, false);
    var g := With(t, |t.guard.stripes|).guard;
    var w' := w.(threads := map[0 := At(q, m, g, region, 0, Height(w.adj, q, region))]);
    ws, es := Stage(w, t, Check(0, region), w', pool, dim, metric);
    var f, fe := HealsAll(w', q, m, g, pool, dim, metric);
    Join(ws, es, f, fe, pool, dim, metric);
    ws, es := ws + f[1..], es + fe;
  }

  /** An erasure of any row of an index at rest can run to its end undisturbed, and has then done what it does alone. */
  lemma LoneErase(w: World, q: int, m: int, pool: nat, dim: nat, metric: Metric)
    returns (ws: seq<World>, es: seq<Event>)
    requires pool > 0 && Init(w) && 0 <= q < |w.adj| && m > 0
    ensures IsRun(ws, es, pool, dim, metric) && ws[0] == w && ws[|es|].threads == map[]
    ensures ws[|es|].rows == w.rows[q := Zeros(dim)]
    ensures Healed(w.adj, ws[|es|].adj, q, m, NodeDist(metric, ws[|es|].rows))
  {
    ws, es := Overwrites(w, q, m, pool, dim, metric);
    var f, fe := LocksAndHeals(ws[|es|], q, m, pool, dim, metric);
    Join(ws, es, f, fe, pool, dim, metric);
    ws, es := ws + f[1..], es + fe;
  }
}
