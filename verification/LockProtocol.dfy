module LockProtocol {
  /**
   * The index under concurrency, as a transition system: erasures and `set_neighbors` take stripes
   * exclusively, walkers read hand over hand, and every wait may end in a timeout.
   */

  import opened Seqs
  import opened LayerHeal
  import opened HealBookkeeping
  import opened Layers
  import opened HnswIndex
  import opened Locks
  import opened Options

  /** An exclusive guard: the stripes it wants, in order, and how many it has taken. */
  datatype Guard = Guard(stripes: seq<nat>, taken: nat) {
    predicate Full() {
      taken == |stripes|
    }
  }

  datatype Thread =
    | Wiping(q: int, m: int, guard: Guard)                                  // overwrite_vector
    | Probing(q: int, m: int, guard: Guard)                                 // first pass: q alone
    | Locking(q: int, m: int, guard: Guard, region: seq<int>, again: bool)
    | Healing(q: int, m: int, guard: Guard, region: seq<int>, layer: nat, top: nat)
    | Setting(node: int, slot: nat, list: seq<int>, guard: Guard)           // set_neighbors
    | Walking(at: int, next: Option<int>)                                   // while stepping, both are held

  datatype World = World(rows: seq<Vector>, adj: Adjacency, threads: map<nat, Thread>)

  datatype Event =
    | StartErase(id: nat, q: int, m: int)
    | StartSet(id: nat, node: int, slot: nat, list: seq<int>)
    | Enter(id: nat, at: int)
    | Take(id: nat)
    | TimeOut(id: nat)
    | Wipe(id: nat)
    | Probe(id: nat, seen: seq<int>)
    | Check(id: nat, seen: seq<int>)
    | Proceed(id: nat)
    | HealOne(id: nat, after: Adjacency)
    | Finish(id: nat)
    | Write(id: nat)
    | Reach(id: nat, to: int)
    | Leave(id: nat)
    | Stop(id: nat)

  ghost function Taken(g: Guard): set<nat> {
    set i | 0 <= i < g.taken && i < |g.stripes| :: g.stripes[i]
  }

  ghost function Exclusive(t: Thread): set<nat> {
    if t.Walking? then {} else Taken(t.guard)
  }

  ghost function Shared(t: Thread, pool: nat): set<nat>
    requires pool > 0
  {
    if !t.Walking? then {}
    else {StripeIn(t.at, pool)} + if t.next.Some? then {StripeIn(t.next.value, pool)} else {}
  }

  /** `try_lock` on the stripe can succeed: nobody else holds it in any way. */
  ghost predicate Free(w: World, id: nat, s: nat, pool: nat)
    requires pool > 0
  {
    forall j :: j in w.threads && j != id ==> s !in Exclusive(w.threads[j]) && s !in Shared(w.threads[j], pool)
  }

  /** `try_lock_shared` can succeed: nobody else holds the stripe exclusively. */
  ghost predicate Readable(w: World, id: nat, s: nat) {
    forall j :: j in w.threads && j != id ==> s !in Exclusive(w.threads[j])
  }

  function Wanting(nodes: seq<int>, pool: nat): Guard
    requires pool > 0
  {
    Guard(UniqueStripes(nodes, pool), 0)
  }

  /** The thread with one stripe more. */
  function Took(t: Thread): (r: Thread)
    requires !t.Walking?
    ensures !r.Walking? && r.guard == Guard(t.guard.stripes, t.guard.taken + 1)
  {
    var g := Guard(t.guard.stripes, t.guard.taken + 1);
    match t
    case Wiping(q, m, _) => Wiping(q, m, g)
    case Probing(q, m, _) => Probing(q, m, g)
    case Locking(q, m, _, region, again) => Locking(q, m, g, region, again)
    case Healing(q, m, _, region, layer, top) => Healing(q, m, g, region, layer, top)
    case Setting(node, slot, list, _) => Setting(node, slot, list, g)
  }

  function Put(w: World, id: nat, t: Thread): World {
    w.(threads := w.threads[id := t])
  }

  function Gone(w: World, id: nat): World {
    w.(threads := WithoutKey(w.threads, id))
  }

  /** A region as `collect_heal_region_unlocked` returns it, whatever it saw: q and other distinct nodes. */
  ghost predicate IsRegion(region: seq<int>, q: int, n: int) {
    NoDup(region) && Labels(region, n) && q in region
  }

  /** The region covers the same nodes as the 2-hop region of q has now. */
  ghost predicate UpToDate(region: seq<int>, adj: Adjacency, q: int)
    requires 0 <= q < |adj|
  {
    Elements(region) == Elements(HealRegion(adj, q))
  }

  /** A node the heal of this layer may touch whatever region it holds. */
  ghost predicate TwoHops(g: Layer, q: int, k: int)
    requires 0 <= q < |g|
  {
    k == q || k in g[q] || exists u :: u in g[q] && 0 <= u < |g| && k in g[u]
  }

  /** One turn of the layer loop of a heal that works with this region. */
  ghost predicate HealsOne(adj: Adjacency, after: Adjacency, q: int, m: int, region: seq<int>, layer: nat, d: Dist)
    requires Sound(adj) && 0 <= q < |adj| && Labels(region, |adj|) && m > 0
  {
    && |after| == |adj| && OnlyLayer(adj, after, layer)
    && InRange(LayerOf(adj, layer))
    && LayerOf(after, layer) == HealLayer(WorkOf(adj, layer, HealingMetrics(0, 0)), q, region, m, d).g
    && (forall k :: 0 <= k < |adj| && k !in region && !TwoHops(LayerOf(adj, layer), q, k) ==> after[k] == adj[k])
  }

  function Cleared(adj: Adjacency, q: int): Adjacency
    requires 0 <= q < |adj|
  {
    adj[q := seq(|adj[q]|, i => [])]
  }

  // ----- well-formed threads --------------------------------------------------------

  ghost predicate GuardOn(g: Guard, nodes: seq<int>, pool: nat)
    requires pool > 0
  {
    g.stripes == UniqueStripes(nodes, pool) && g.taken <= |g.stripes|
  }

  ghost predicate Fine(t: Thread, n: int, pool: nat)
    requires pool > 0
  {
    match t
    case Wiping(q, m, g) => 0 <= q < n && m > 0 && GuardOn(g, [q], pool)
    case Probing(q, m, g) => 0 <= q < n && m > 0 && GuardOn(g, [q], pool)
    case Locking(q, m, g, region, _) => 0 <= q < n && m > 0 && IsRegion(region, q, n) && GuardOn(g, region, pool)
    case Healing(q, m, g, region, layer, top) =>
      0 <= q < n && m > 0 && IsRegion(region, q, n) && GuardOn(g, region, pool) && g.Full() && layer <= top
    case Setting(node, _, list, g) => 0 <= node < n && Labels(list, n) && GuardOn(g, [node], pool)
    case Walking(at, next) => 0 <= at < n && (next.Some? ==> 0 <= next.value < n)
  }

  ghost predicate AllFine(w: World, pool: nat)
    requires pool > 0
  {
    && Sound(w.adj) && |w.rows| == |w.adj|
    && forall id :: id in w.threads ==> Fine(w.threads[id], |w.adj|, pool)
  }

  // ----- the steps ------------------------------------------------------------------

  /** One step of one thread. `AllFine` is an invariant, so asking for it here never stops a step. */
  ghost predicate Step(w: World, e: Event, w': World, pool: nat, dim: nat, metric: Metric)
    requires pool > 0
  {
    AllFine(w, pool) && match e
    case StartErase(id, q, m) =>
      && id !in w.threads && 0 <= q < |w.adj| && m > 0 && w' == Put(w, id, Wiping(q, m, Wanting([q], pool)))
    case StartSet(id, node, slot, list) =>
      && id !in w.threads && 0 <= node < |w.adj| && Labels(list, |w.adj|)
      && w' == Put(w, id, Setting(node, slot, list, Wanting([node], pool)))
    case Enter(id, at) =>
      && id !in w.threads && 0 <= at < |w.adj| && Readable(w, id, StripeIn(at, pool))
      && w' == Put(w, id, Walking(at, None))
    case Take(id) =>
      && id in w.threads && !w.threads[id].Walking?
      && var t := w.threads[id];
         && !t.guard.Full() && Free(w, id, t.guard.stripes[t.guard.taken], pool)
         && w' == Put(w, id, Took(t))
    case TimeOut(id) =>
      // a wait has timed out: the thread gives back all it holds
      && id in w.threads && (w.threads[id].Walking? || !w.threads[id].guard.Full()) && w' == Gone(w, id)
    case Wipe(id) =>
      && id in w.threads && w.threads[id].Wiping? && w.threads[id].guard.Full()
      && var t := w.threads[id];
         w' == Put(w.(rows := w.rows[t.q := Zeros(dim)]), id, Probing(t.q, t.m, Wanting([t.q], pool)))
    case Probe(id, seen) =>
      // only q is locked while the lists of its neighbours are read, so the region seen may be anything
      && id in w.threads && w.threads[id].Probing? && w.threads[id].guard.Full()
      && var t := w.threads[id];
         && IsRegion(seen, t.q, |w.adj|)
         && w' == Put(w, id, Locking(t.q, t.m, Wanting(seen, pool), seen, false))
    case Check(id, seen) =>
      && id in w.threads && w.threads[id].Locking? && w.threads[id].guard.Full() && !w.threads[id].again
      && var t := w.threads[id];
         if UpToDate(t.region, w.adj, t.q) then
           w' == Put(w, id, Healing(t.q, t.m, t.guard, t.region, 0, Height(w.adj, t.q, t.region)))
         else
           IsRegion(seen, t.q, |w.adj|) && w' == Put(w, id, Locking(t.q, t.m, Wanting(seen, pool), seen, true))
    case Proceed(id) =>
      // after the second acquisition the region is not looked at again
      && id in w.threads && w.threads[id].Locking? && w.threads[id].guard.Full() && w.threads[id].again
      && var t := w.threads[id];
         w' == Put(w, id, Healing(t.q, t.m, t.guard, t.region, 0, Height(w.adj, t.q, t.region)))
    case HealOne(id, after) =>
      && id in w.threads && w.threads[id].Healing? && w.threads[id].layer < w.threads[id].top
      && var t := w.threads[id];
         && HealsOne(w.adj, after, t.q, t.m, t.region, t.layer, NodeDist(metric, w.rows))
         && w' == Put(w.(adj := after), id, t.(layer := t.layer + 1))
    case Finish(id) =>
      && id in w.threads && w.threads[id].Healing? && w.threads[id].layer == w.threads[id].top
      && w' == Gone(w.(adj := Cleared(w.adj, w.threads[id].q)), id)
    case Write(id) =>
      && id in w.threads && w.threads[id].Setting? && w.threads[id].guard.Full()
      && var t := w.threads[id]; w' == Gone(w.(adj := SetSlot(w.adj, t.node, t.slot, t.list)), id)
    case Reach(id, to) =>
      // the next stripe is taken before the current one is dropped
      && id in w.threads && w.threads[id].Walking? && w.threads[id].next == None && 0 <= to < |w.adj|
      && Readable(w, id, StripeIn(to, pool)) && w' == Put(w, id, Walking(w.threads[id].at, Some(to)))
    case Leave(id) =>
      && id in w.threads && w.threads[id].Walking? && w.threads[id].next.Some?
      && w' == Put(w, id, Walking(w.threads[id].next.value, None))
    case Stop(id) =>
      && id in w.threads && w.threads[id].Walking? && w' == Gone(w, id)
  }

  ghost predicate Init(w: World) {
    Sound(w.adj) && |w.rows| == |w.adj| && w.threads == map[]
  }

  ghost predicate IsRun(ws: seq<World>, es: seq<Event>, pool: nat, dim: nat, metric: Metric)
    requires pool > 0
  {
    && |ws| == |es| + 1 && Init(ws[0])
    && forall i :: 0 <= i < |es| ==> Step(ws[i], es[i], ws[i + 1], pool, dim, metric)
  }

  // ----- every step keeps the threads well-formed -----------------------------------

  lemma OneHealed(adj: Adjacency, after: Adjacency, q: int, m: int, region: seq<int>, layer: nat, d: Dist)
    requires Sound(adj) && 0 <= q < |adj| && Labels(region, |adj|) && m > 0
    requires HealsOne(adj, after, q, m, region, layer, d)
    ensures Sound(after)
  {
    var w := WorkOf(adj, layer, HealingMetrics(0, 0));
    IsolateInRange(w, q, region);
    SoundAfter(adj, after, layer);
  }

  lemma ClearedSound(adj: Adjacency, q: int)
    requires Sound(adj) && 0 <= q < |adj|
    ensures Sound(Cleared(adj, q)) && |Cleared(adj, q)| == |adj|
  {
    forall l: nat ensures InRange(LayerOf(Cleared(adj, q), l)) {
      assert InRange(LayerOf(adj, l));
      forall k | 0 <= k < |adj| ensures Labels(LayerOf(Cleared(adj, q), l)[k], |adj|) {
        assert k != q ==> LayerOf(Cleared(adj, q), l)[k] == LayerOf(adj, l)[k];
      }
    }
  }

  lemma SlotSound(adj: Adjacency, n: int, layer: nat, list: seq<int>)
    requires Sound(adj) && 0 <= n < |adj| && Labels(list, |adj|)
    ensures Sound(SetSlot(adj, n, layer, list))
  {
    SetSlotLayers(adj, n, layer, list);
    assert InRange(LayerOf(adj, layer));
    forall l: nat ensures InRange(LayerOf(SetSlot(adj, n, layer, list), l)) {
      assert l != layer ==> InRange(LayerOf(adj, l));
    }
  }

  lemma StepFine(w: World, e: Event, w': World, pool: nat, dim: nat, metric: Metric)
    requires pool > 0 && Step(w, e, w', pool, dim, metric)
    ensures AllFine(w', pool) && |w'.adj| == |w.adj|
  {
    StepSound(w, e, w', pool, dim, metric);
    StepOthers(w, e, w', pool, dim, metric);
    StepOwn(w, e, w', pool, dim, metric);
  }

  /** A step concerns one thread. */
  lemma StepOthers(w: World, e: Event, w': World, pool: nat, dim: nat, metric: Metric)
    requires pool > 0 && Step(w, e, w', pool, dim, metric)
    ensures forall x :: x != e.id ==> (x in w'.threads <==> x in w.threads)
    ensures forall x :: x != e.id && x in w'.threads ==> w'.threads[x] == w.threads[x]
  {
  }

  lemma StepOwn(w: World, e: Event, w': World, pool: nat, dim: nat, metric: Metric)
    requires pool > 0 && Step(w, e, w', pool, dim, metric)
    ensures e.id in w'.threads ==> Fine(w'.threads[e.id], |w.adj|, pool)
  {
    assert e.id in w.threads ==> Fine(w.threads[e.id], |w.adj|, pool);
  }

  lemma StepSound(w: World, e: Event, w': World, pool: nat, dim: nat, metric: Metric)
    requires pool > 0 && Step(w, e, w', pool, dim, metric)
    ensures Sound(w'.adj) && |w'.rows| == |w'.adj| == |w.adj|
  {
    match e
    case HealOne(id, after) =>
      var t := w.threads[id];
      OneHealed(w.adj, after, t.q, t.m, t.region, t.layer, NodeDist(metric, w.rows));
    case Finish(id) =>
      ClearedSound(w.adj, w.threads[id].q);
    case Write(id) =>
      var t := w.threads[id];
      SlotSound(w.adj, t.node, t.slot, t.list);
    case _ =>
  }

  // ----- mutual exclusion -----------------------------------------------------------

  /** Nobody shares a stripe that somebody holds exclusively. */
  ghost predicate Exclusion(w: World, pool: nat)
    requires pool > 0
  {
    forall i, j :: i in w.threads && j in w.threads && i != j ==>
      && Exclusive(w.threads[i]) !! Exclusive(w.threads[j])
      && Exclusive(w.threads[i]) !! Shared(w.threads[j], pool)
  }

  /** The thread holds no more than t does. */
  ghost predicate HoldsLess(t': Thread, t: Thread, pool: nat)
    requires pool > 0
  {
    Exclusive(t') <= Exclusive(t) && Shared(t', pool) <= Shared(t, pool)
  }

  lemma Fewer(w: World, id: nat, w': World, pool: nat)
    requires pool > 0 && Exclusion(w, pool) && w'.threads == WithoutKey(w.threads, id)
    ensures Exclusion(w', pool)
  {
  }

  lemma Less(w: World, id: nat, t: Thread, w': World, pool: nat)
    requires pool > 0 && Exclusion(w, pool) && id in w.threads && w'.threads == w.threads[id := t]
    requires HoldsLess(t, w.threads[id], pool)
    ensures Exclusion(w', pool)
  {
  }

  lemma Newcomer(w: World, id: nat, t: Thread, w': World, pool: nat)
    requires pool > 0 && Exclusion(w, pool) && id !in w.threads && w'.threads == w.threads[id := t]
    requires Exclusive(t) == {} && forall s :: s in Shared(t, pool) ==> Readable(w, id, s)
    ensures Exclusion(w', pool)
  {
  }

  lemma TakesExclusive(w: World, id: nat, s: nat, t: Thread, w': World, pool: nat)
    requires pool > 0 && Exclusion(w, pool) && id in w.threads && w'.threads == w.threads[id := t]
    requires Free(w, id, s, pool) && Exclusive(t) <= Exclusive(w.threads[id]) + {s} && Shared(t, pool) == {}
    ensures Exclusion(w', pool)
  {
  }

  lemma TakesShared(w: World, id: nat, s: nat, t: Thread, w': World, pool: nat)
    requires pool > 0 && Exclusion(w, pool) && id in w.threads && w'.threads == w.threads[id := t]
    requires Readable(w, id, s) && Exclusive(t) == {} && Shared(t, pool) <= Shared(w.threads[id], pool) + {s}
    ensures Exclusion(w', pool)
  {
  }

  lemma StepExcludes(w: World, e: Event, w': World, pool: nat, dim: nat, metric: Metric)
    requires pool > 0 && Exclusion(w, pool) && Step(w, e, w', pool, dim, metric)
    ensures Exclusion(w', pool)
  {
    match e
    case StartErase(id, q, m) => Newcomer(w, id, w'.threads[id], w', pool);
    case StartSet(id, _, _, _) => Newcomer(w, id, w'.threads[id], w', pool);
    case Enter(id, at) => Newcomer(w, id, w'.threads[id], w', pool);
    case Take(id) =>
      var g := w.threads[id].guard;
      TakesExclusive(w, id, g.stripes[g.taken], w'.threads[id], w', pool);
    case Reach(id, to) => TakesShared(w, id, StripeIn(to, pool), w'.threads[id], w', pool);
    case TimeOut(id) => Fewer(w, id, w', pool);
    case Finish(id) => Fewer(w, id, w', pool);
    case Write(id) => Fewer(w, id, w', pool);
    case Stop(id) => Fewer(w, id, w', pool);
    case _ => StepTakesNothing(w, e, w', pool, dim, metric);
  }

  /** The steps after which a thread holds no more than before. */
  lemma StepTakesNothing(w: World, e: Event, w': World, pool: nat, dim: nat, metric: Metric)
    requires pool > 0 && Exclusion(w, pool) && Step(w, e, w', pool, dim, metric)
    requires e.Wipe? || e.Probe? || e.Check? || e.Proceed? || e.HealOne? || e.Leave?
    ensures Exclusion(w', pool)
  {
    Less(w, e.id, w'.threads[e.id], w', pool);
  }

  /** In every reachable state two live exclusive guards are disjoint, and no walker stands on their stripes. */
  lemma {:induction false} RunExcludes(ws: seq<World>, es: seq<Event>, pool: nat, dim: nat, metric: Metric)
    requires pool > 0 && IsRun(ws, es, pool, dim, metric)
    ensures AllFine(ws[|es|], pool) && Exclusion(ws[|es|], pool)
  {
    if es != [] {
      var k := |es| - 1;
      assert IsRun(ws[..k + 1], es[..k], pool, dim, metric);
      RunExcludes(ws[..k + 1], es[..k], pool, dim, metric);
      StepFine(ws[k], es[k], ws[k + 1], pool, dim, metric);
      StepExcludes(ws[k], es[k], ws[k + 1], pool, dim, metric);
    }
  }

  // ----- no deadlock among exclusive guards -----------------------------------------

  ghost predicate Waits(w: World, id: nat) {
    id in w.threads && !w.threads[id].Walking? && w.threads[id].guard.taken < |w.threads[id].guard.stripes|
  }

  function Next(w: World, id: nat): nat
    requires Waits(w, id)
  {
    w.threads[id].guard.stripes[w.threads[id].guard.taken]
  }

  /** The stripe i waits for is held exclusively by j. */
  ghost predicate WaitsFor(w: World, i: nat, j: nat) {
    Waits(w, i) && j in w.threads && Next(w, i) in Exclusive(w.threads[j])
  }

  /** A guard holds an ascending prefix of its stripes, so all it holds is below what it waits for. */
  lemma HeldBelowNext(w: World, id: nat, pool: nat)
    requires pool > 0 && AllFine(w, pool) && Waits(w, id)
    ensures forall s :: s in Exclusive(w.threads[id]) ==> s < Next(w, id)
  {
    assert Fine(w.threads[id], |w.adj|, pool);
    assert Ascending(w.threads[id].guard.stripes);
  }

  /** Along a chain of waiting guards the awaited stripes rise. */
  lemma {:induction false} WaitsRise(w: World, chain: seq<nat>, pool: nat)
    requires pool > 0 && AllFine(w, pool) && |chain| >= 2
    requires forall x :: 1 <= x < |chain| ==> WaitsFor(w, chain[x - 1], chain[x])
    requires Waits(w, chain[|chain| - 1])
    ensures Waits(w, chain[0]) && Next(w, chain[0]) < Next(w, chain[|chain| - 1])
  {
    var k := |chain| - 1;
    assert WaitsFor(w, chain[k - 1], chain[k]);
    HeldBelowNext(w, chain[k], pool);
    if k > 1 {
      assert forall x :: 1 <= x < k ==> WaitsFor(w, chain[..k][x - 1], chain[..k][x]);
      WaitsRise(w, chain[..k], pool);
    }
  }

  /** The wait-for relation among exclusive guards has no cycle in any reachable state. */
  lemma NoDeadlock(ws: seq<World>, es: seq<Event>, chain: seq<nat>, pool: nat, dim: nat, metric: Metric)
    requires pool > 0 && IsRun(ws, es, pool, dim, metric) && |chain| >= 2
    requires forall x :: 1 <= x < |chain| ==> WaitsFor(ws[|es|], chain[x - 1], chain[x])
    ensures chain[0] != chain[|chain| - 1]
  {
    RunExcludes(ws, es, pool, dim, metric);
    var w, k := ws[|es|], |chain| - 1;
    if chain[0] == chain[k] {
      assert WaitsFor(w, chain[0], chain[1]);
      WaitsRise(w, chain, pool);
    }
  }

  // ----- what the stripes protect ---------------------------------------------------

  /** A full guard holds the stripe of every node it was acquired for. */
  lemma FullCovers(g: Guard, nodes: seq<int>, x: int, pool: nat)
    requires pool > 0 && GuardOn(g, nodes, pool) && g.Full() && x in nodes
    ensures StripeIn(x, pool) in Taken(g)
  {
    var i :| 0 <= i < |nodes| && nodes[i] == x;
    assert StripeIn(x, pool) in g.stripes;
  }

  /** Nodes whose stripe this thread may write to. */
  ghost predicate Owns(t: Thread, x: int, pool: nat)
    requires pool > 0
  {
    StripeIn(x, pool) in Exclusive(t)
  }

  /** Nobody but the owner of a node holds its stripe. */
  lemma OwnedAlone(w: World, i: nat, j: nat, x: int, pool: nat)
    requires pool > 0 && Exclusion(w, pool) && i in w.threads && j in w.threads && i != j
    requires Owns(w.threads[i], x, pool)
    ensures !Owns(w.threads[j], x, pool) && StripeIn(x, pool) !in Shared(w.threads[j], pool)
  {
  }
}
