module Search {
  /** k-NN search under lock coupling: greedy descent through the upper layers, then base-layer exploration. */

  import opened Seqs
  import opened LayerHeal
  import opened Reachability
  import opened Layers
  import opened HnswIndex
  import opened Locks
  import opened ErasureSafety

  type QueryDist = int -> real

  datatype SearchHit = SearchHit(node: int, distance: real)

  datatype Outcome<T> = Found(value: T) | LockTimeout | Refused

  function DistTo(metric: Metric, data: seq<Vector>, query: Vector): (dq: QueryDist)
    ensures forall n :: 0 <= n < |data| ==> dq(n) == metric(query, data[n])
  {
    (n: int) => if 0 <= n < |data| then metric(query, data[n]) else 0.0
  }

  /** No neighbour of c on this layer is strictly nearer to the query than c itself. */
  ghost predicate LocalMinimum(g: Layer, dq: QueryDist, c: int) {
    0 <= c < |g| && forall nb :: nb in g[c] ==> dq(c) <= dq(nb)
  }

  ghost function Nearer(n: nat, dq: QueryDist, c: int): (s: set<int>) {
    set x | x in Below(n) && dq(x) < dq(c)
  }

  lemma NearerShrinks(n: nat, dq: QueryDist, c: int, nb: int)
    requires 0 <= nb < n && dq(nb) < dq(c)
    ensures |Nearer(n, dq, nb)| < |Nearer(n, dq, c)|
  {
    assert Nearer(n, dq, nb) <= Nearer(n, dq, c) - {nb};
    SubsetCardinality(Nearer(n, dq, nb), Nearer(n, dq, c) - {nb});
    assert nb in Nearer(n, dq, c);
  }

  // ----- reads under the cursor -----------------------------------------------------

  /** The neighbour list of the node the cursor is on. */
  method ReadNeighbours(index: Index, cursor: SharedLockCursor, node: int, layer: nat) returns (list: seq<int>)
    requires index.Valid() && 0 <= node < |index.data| && cursor.On(node)
    ensures list == LayerOf(index.adjacency, layer)[node]
    ensures Labels(list, |index.data|)
  {
    assert InRange(LayerOf(index.adjacency, layer));
    list := Slot(index.adjacency, node, layer);
  }

  /** The distance from the query to the vector of the node the cursor is on. */
  method ReadDistance(index: Index, cursor: SharedLockCursor, query: Vector, node: int) returns (d: real)
    requires index.Valid() && 0 <= node < |index.data| && cursor.On(node)
    ensures d == index.metric(query, index.data[node])
  {
    d := index.metric(query, index.data[node]);
  }

  // ----- greedy descent -------------------------------------------------------------

  /**
   * The cursor is sound, and nothing but its own hold has changed since the given state; nothing has timed out if
   * nothing stood in the way.
   */
  twostate predicate Walked(cursor: SharedLockCursor)
    reads cursor, cursor.mgr
  {
    && cursor.Valid() && cursor.others == old(cursor.others)
    && cursor.mgr.writers == old(cursor.mgr.writers) && cursor.mgr.attempts >= old(cursor.mgr.attempts)
    && (old(cursor.mgr.Unhindered()) ==> cursor.mgr.timeouts == old(cursor.mgr.timeouts))
  }

  /** One pass over the neighbours: steps to the first strictly nearer one, or back to `curr`. */
  method ScanNeighbours(index: Index, query: Vector, curr: int, layer: nat, cursor: SharedLockCursor)
    returns (r: Outcome<int>)
    requires index.Valid() && cursor.Valid() && 0 <= curr < |index.data| && cursor.On(curr)
    modifies cursor, cursor.mgr
    ensures Walked(cursor)
    ensures r.Found? ==>
              var g, dq := LayerOf(index.adjacency, layer), DistTo(index.metric, index.data, query);
              && cursor.On(r.value)
              && if r.value == curr then LocalMinimum(g, dq, curr) else r.value in g[curr] && dq(r.value) < dq(curr)
    ensures cursor.mgr.timeouts == old(cursor.mgr.timeouts) + if r.LockTimeout? then 1 else 0
    ensures !r.Refused?
  {
    ghost var dq := DistTo(index.metric, index.data, query);
    var bestDist := ReadDistance(index, cursor, query, curr);
    var nbrs := ReadNeighbours(index, cursor, curr, layer);
    var i := 0;
    while i < |nbrs|
      invariant 0 <= i <= |nbrs|
      invariant Walked(cursor) && cursor.On(curr) && cursor.mgr.timeouts == old(cursor.mgr.timeouts)
      invariant forall j :: 0 <= j < i ==> dq(curr) <= dq(nbrs[j])
    {
      var nb := nbrs[i];
      var ok := cursor.Advance(nb);
      if !ok {
        return LockTimeout;
      }
      var d := ReadDistance(index, cursor, query, nb);
      if d < bestDist {
        assert nb in nbrs;
        return Found(nb);
      }
      ok := cursor.Advance(curr);
      if !ok {
        return LockTimeout;
      }
      i := i + 1;
    }
    NoneIsNearer(nbrs, dq, curr);
    r := Found(curr);
  }

  lemma NoneIsNearer(list: seq<int>, dq: QueryDist, c: int)
    requires forall j :: 0 <= j < |list| ==> dq(c) <= dq(list[j])
    ensures forall nb :: nb in list ==> dq(c) <= dq(nb)
  {
  }

  /** c is no farther from the query than `start` is, and no neighbour of c is nearer. */
  ghost predicate NoneNearer(metric: Metric, data: seq<Vector>, query: Vector, g: Layer, start: int, c: int) {
    && 0 <= start < |data| && 0 <= c < |data| == |g| && metric(query, data[c]) <= metric(query, data[start])
    && forall nb :: nb in g[c] ==> 0 <= nb < |data| && metric(query, data[c]) <= metric(query, data[nb])
  }

  lemma LocalMinimumMeasured(index: Index, query: Vector, layer: nat, start: int, c: int)
    requires index.Valid() && 0 <= start < |index.data|
    requires var dq := DistTo(index.metric, index.data, query);
             LocalMinimum(LayerOf(index.adjacency, layer), dq, c) && dq(c) <= dq(start)
    ensures NoneNearer(index.metric, index.data, query, LayerOf(index.adjacency, layer), start, c)
  {
    var g := LayerOf(index.adjacency, layer);
    assert InRange(g) && Labels(g[c], |g|);
  }

  /**
   * `greedy_update_locked`: moves to the first strictly nearer neighbour until there is none. The cursor
   * starts on `start` and ends on the node returned.
   */
  method GreedyUpdate(index: Index, query: Vector, start: int, layer: nat, cursor: SharedLockCursor)
    returns (r: Outcome<int>)
    requires index.Valid() && cursor.Valid() && 0 <= start < |index.data| && cursor.On(start)
    modifies cursor, cursor.mgr
    ensures Walked(cursor)
    ensures r.Found? ==>
              var g, dq := LayerOf(index.adjacency, layer), DistTo(index.metric, index.data, query);
              && cursor.On(r.value) && LocalMinimum(g, dq, r.value)
              && dq(r.value) <= dq(start) && Reach(g, Nodes(g), start, r.value)
    ensures r.Found? ==> NoneNearer(index.metric, index.data, query, LayerOf(index.adjacency, layer), start, r.value)
    ensures cursor.mgr.timeouts == old(cursor.mgr.timeouts) + if r.LockTimeout? then 1 else 0
    ensures !r.Refused?
  {
    ghost var g, dq := LayerOf(index.adjacency, layer), DistTo(index.metric, index.data, query);
    var curr := start;
    ReachSelf(g, Nodes(g), start);
    var improved := true;
    while improved
      invariant Walked(cursor) && cursor.mgr.timeouts == old(cursor.mgr.timeouts)
      invariant 0 <= curr < |g| && cursor.On(curr) && dq(curr) <= dq(start) && Reach(g, Nodes(g), start, curr)
      invariant !improved ==> LocalMinimum(g, dq, curr)
      decreases |Nearer(|g|, dq, curr)|, if improved then 1 else 0
    {
      var next := ScanNeighbours(index, query, curr, layer, cursor);
      if next.LockTimeout? {
        return LockTimeout;
      }
      improved := next.value != curr;
      if improved {
        assert InRange(g);
        assert Labels(g[curr], |g|);
        ReachOn(g, Nodes(g), start, curr, next.value);
        NearerShrinks(|g|, dq, curr, next.value);
        curr := next.value;
      }
    }
    LocalMinimumMeasured(index, query, layer, start, curr);
    r := Found(curr);
  }

  // ----- the bounded heap -----------------------------------------------------------

  /** The heap holds exactly the given nodes, each once and with its distance. */
  ghost predicate HeapOf(best: seq<SearchHit>, nodes: set<int>, dq: QueryDist) {
    |best| == |nodes| && forall h :: h in best <==> h.node in nodes && h.distance == dq(h.node)
  }

  lemma HeapNoDup(best: seq<SearchHit>, nodes: set<int>, dq: QueryDist)
    requires HeapOf(best, nodes, dq)
    ensures NoDup(best)
  {
    var hits := Elements(best);
    assert nodes == set h | h in hits :: h.node by {
      forall x | x in nodes ensures x in set h | h in hits :: h.node {
        assert SearchHit(x, dq(x)) in hits;
      }
    }
    ImageBound(hits);
    SetBound(best);
    CardinalityNoDup(best);
  }

  lemma {:induction false} ImageBound(hits: set<SearchHit>)
    ensures |set h | h in hits :: h.node| <= |hits|
    decreases hits
  {
    var nodes := set h | h in hits :: h.node;
    if hits != {} {
      var h :| h in hits;
      var rest := hits - {h};
      ImageBound(rest);
      var restNodes := set g | g in rest :: g.node;
      assert nodes == restNodes + {h.node};
    }
  }

  /** Distance of the worst hit, the top of the max-heap. */
  function Top(best: seq<SearchHit>): (d: real)
    requires best != []
    ensures forall h :: h in best ==> h.distance <= d
    ensures exists h :: h in best && h.distance == d
  {
    var k := |best| - 1;
    if k == 0 then best[0].distance
    else
      var d := Top(best[..k]);
      assert forall h :: h in best <==> h == best[k] || h in best[..k];
      if best[k].distance > d then best[k].distance else d
  }

  /** Pops a hit at the greatest distance; which one of several is up to the heap. */
  method PopTop(best: seq<SearchHit>, ghost nodes: set<int>, ghost dq: QueryDist)
    returns (hit: SearchHit, rest: seq<SearchHit>)
    requires best != [] && HeapOf(best, nodes, dq)
    ensures hit.node in nodes && hit.distance == dq(hit.node)
    ensures forall x :: x in nodes ==> dq(x) <= dq(hit.node)
    ensures HeapOf(rest, nodes - {hit.node}, dq)
  {
    var top := Top(best);
    assert exists i :: 0 <= i < |best| && best[i].distance == top;
    var i :| 0 <= i < |best| && best[i].distance == top;
    hit, rest := best[i], EraseAt(best, i);
    assert hit in best;
    forall x | x in nodes ensures dq(x) <= dq(hit.node) {
      assert SearchHit(x, dq(x)) in best;
    }
    HeapNoDup(best, nodes, dq);
    EraseAtElements(best, i);
  }

  // ----- the exploration ------------------------------------------------------------

  /** Bookkeeping of a base-layer search: nodes seen, nodes queued at some time, nodes in the heap. */
  datatype Seen = Seen(visited: set<int>, pushed: set<int>, kept: set<int>)

  /** The heap is as full as it can be, and holds the nearest of all nodes seen. */
  ghost predicate KeepsNearest(s: Seen, ef: nat, dq: QueryDist) {
    && s.kept <= s.pushed <= s.visited
    && |s.kept| == (if |s.visited| < ef then |s.visited| else ef)
    && (forall v, x :: v in s.visited && v !in s.kept && x in s.kept ==> dq(x) <= dq(v))
    && (|s.visited| <= ef ==> s.pushed == s.visited)
  }

  /** All nodes seen are reachable, and all queued nodes that are no longer open have been expanded. */
  ghost predicate Closing(g: Layer, entry: int, s: Seen, open: set<int>) {
    && entry in s.visited && s.visited <= Reachable(g, Nodes(g), entry)
    && open <= s.pushed <= s.visited
    && (forall p, x :: p in s.pushed && p !in open && 0 <= p < |g| && x in g[p] ==> x in s.visited)
  }

  lemma KeepsAll(s: Seen, ef: nat, dq: QueryDist)
    requires KeepsNearest(s, ef, dq) && |s.visited| <= ef
    ensures s.kept == s.visited
  {
    SubsetCardinality(s.kept, s.visited);
  }

  /** A node nearer than the worst one kept, or met while there is room, enters the heap. */
  lemma AcceptKeeps(s: Seen, nb: int, out: set<int>, ef: nat, dq: QueryDist)
    requires KeepsNearest(s, ef, dq) && nb !in s.visited && ef > 0
    requires |s.kept| < ef ==> out == {}
    requires |s.kept| >= ef ==> exists w :: out == {w} && w in s.kept + {nb}
    requires forall w, x :: w in out && x in s.kept + {nb} ==> dq(x) <= dq(w)
    requires |s.kept| < ef || exists x :: x in s.kept && dq(nb) < dq(x)
    ensures KeepsNearest(Seen(s.visited + {nb}, s.pushed + {nb}, s.kept + {nb} - out), ef, dq)
  {
    if |s.kept| < ef {
      KeepsAll(s, ef, dq);
    } else {
      var x :| x in s.kept && dq(nb) < dq(x);
      forall v | v in s.visited && v !in s.kept ensures dq(nb) <= dq(v) {
      }
    }
  }

  lemma RejectKeeps(s: Seen, nb: int, ef: nat, dq: QueryDist)
    requires KeepsNearest(s, ef, dq) && nb !in s.visited && |s.kept| >= ef
    requires forall x :: x in s.kept ==> dq(x) <= dq(nb)
    ensures KeepsNearest(Seen(s.visited + {nb}, s.pushed, s.kept), ef, dq)
  {
  }

  lemma HeapPush(best: seq<SearchHit>, kept: set<int>, nb: int, dq: QueryDist)
    requires HeapOf(best, kept, dq) && nb !in kept
    ensures HeapOf(best + [SearchHit(nb, dq(nb))], kept + {nb}, dq)
  {
    var r := best + [SearchHit(nb, dq(nb))];
    assert forall h :: h in r <==> h in best || h == SearchHit(nb, dq(nb));
  }

  /** The top of the heap is the greatest distance of a node kept. */
  lemma TopKept(best: seq<SearchHit>, kept: set<int>, dq: QueryDist)
    requires HeapOf(best, kept, dq) && best != []
    ensures forall x :: x in kept ==> dq(x) <= Top(best)
    ensures exists x :: x in kept && dq(x) == Top(best)
  {
    forall x | x in kept ensures dq(x) <= Top(best) {
      assert SearchHit(x, dq(x)) in best;
    }
    var h :| h in best && h.distance == Top(best);
    assert h.node in kept;
  }

  /** Takes the node into the heap and, if the heap is then over-full, pops the worst. */
  method Take(best: seq<SearchHit>, nb: int, d: real, ef: nat, ghost s: Seen, ghost dq: QueryDist)
    returns (best': seq<SearchHit>, ghost s': Seen)
    requires ef > 0 && HeapOf(best, s.kept, dq) && KeepsNearest(s, ef, dq) && nb !in s.visited && d == dq(nb)
    requires |best| < ef || exists x :: x in s.kept && dq(nb) < dq(x)
    ensures HeapOf(best', s'.kept, dq) && KeepsNearest(s', ef, dq)
    ensures s'.visited == s.visited + {nb} && s'.pushed == s.pushed + {nb}
  {
    best' := best + [SearchHit(nb, d)];
    HeapPush(best, s.kept, nb, dq);
    ghost var out := {};
    if |best'| > ef {
      var hit;
      hit, best' := PopTop(best', s.kept + {nb}, dq);
      out := {hit.node};
    }
    AcceptKeeps(s, nb, out, ef, dq);
    s' := Seen(s.visited + {nb}, s.pushed + {nb}, s.kept + {nb} - out);
  }

  /** The heap decision for a newly met node. */
  method Offer(best: seq<SearchHit>, nb: int, d: real, ef: nat, ghost s: Seen, ghost dq: QueryDist)
    returns (taken: bool, best': seq<SearchHit>, ghost s': Seen)
    requires ef > 0 && HeapOf(best, s.kept, dq) && KeepsNearest(s, ef, dq) && nb !in s.visited && d == dq(nb)
    ensures HeapOf(best', s'.kept, dq) && KeepsNearest(s', ef, dq)
    ensures s'.visited == s.visited + {nb} && s'.pushed == s.pushed + if taken then {nb} else {}
  {
    if best != [] {
      TopKept(best, s.kept, dq);
    }
    taken := |best| < ef || d < Top(best);
    if taken {
      best', s' := Take(best, nb, d, ef, s, dq);
    } else {
      best', s' := best, Seen(s.visited + {nb}, s.pushed, s.kept);
      RejectKeeps(s, nb, ef, dq);
    }
  }

  lemma MeetCloses(g: Layer, entry: int, s: Seen, s': Seen, open: set<int>, u: int, nb: int, added: set<int>)
    requires Closing(g, entry, s, open) && u in s.visited && 0 <= u < |g| && nb in g[u] && 0 <= nb < |g|
    requires s'.visited == s.visited + {nb} && s'.pushed == s.pushed + added && added <= {nb}
    ensures Closing(g, entry, s', open + added)
  {
    ReachOn(g, Nodes(g), entry, u, nb);
  }

  lemma MarkNext(flags: seq<bool>, s: set<int>, x: int)
    requires Marked(flags, s) && 0 <= x < |flags|
    ensures Marked(flags[x := true], s + {x})
  {
  }

  lemma ExpandedCloses(g: Layer, entry: int, s: Seen, open: set<int>, u: int)
    requires Closing(g, entry, s, open + {u}) && 0 <= u < |g| && forall x :: x in g[u] ==> x in s.visited
    ensures Closing(g, entry, s, open)
  {
  }

  ghost predicate Marked(visited: seq<bool>, s: set<int>) {
    forall x :: x in s <==> 0 <= x < |visited| && visited[x]
  }

  /** What is left to do: nodes not yet seen weigh two, queued ones one. */
  ghost function Effort(n: nat, s: set<int>, frontier: seq<int>): int {
    2 * (n - |s|) + |frontier|
  }

  lemma SeenBound(visited: seq<bool>, s: set<int>)
    requires Marked(visited, s)
    ensures |s| <= |visited|
  {
    assert forall x :: x in s ==> x in Below(|visited|);
    SubsetCardinality(s, Below(|visited|));
  }

  /** The search state between two neighbours: heap, queue, visited flags and what they mean. */
  ghost predicate Exploring(g: Layer, entry: int, dq: QueryDist, ef: nat, visited: seq<bool>, best: seq<SearchHit>,
                            frontier: seq<int>, s: Seen, open: set<int>)
  {
    && |visited| == |g| && Marked(visited, s.visited)
    && HeapOf(best, s.kept, dq) && KeepsNearest(s, ef, dq)
    && Elements(frontier) <= open && Closing(g, entry, s, open)
  }

  lemma ElementsNext(list: seq<int>, i: nat, s: set<int>, s': set<int>)
    requires i < |list| && Elements(list[..i]) <= s <= s' && list[i] in s'
    ensures Elements(list[..i + 1]) <= s'
  {
    assert list[..i + 1] == list[..i] + [list[i]];
  }

  lemma FlagMeansSeen(g: Layer, entry: int, dq: QueryDist, ef: nat, visited: seq<bool>, best: seq<SearchHit>,
                      frontier: seq<int>, s: Seen, open: set<int>, x: int)
    requires Exploring(g, entry, dq, ef, visited, best, frontier, s, open) && 0 <= x < |g|
    ensures |visited| == |g| && (visited[x] <==> x in s.visited)
  {
  }

  /** Expands one node: offers each neighbour not seen before to the heap, and queues those taken. */
  method ExpandNode(index: Index, query: Vector, u: int, ef: nat, cursor: SharedLockCursor, visited: array<bool>,
                    best0: seq<SearchHit>, frontier0: seq<int>, ghost entry: int, ghost s0: Seen)
    returns (ok: bool, best: seq<SearchHit>, frontier: seq<int>, ghost s: Seen)
    requires index.Valid() && cursor.Valid() && ef > 0 && 0 <= u < |index.data| && u in s0.visited
    requires Exploring(LayerOf(index.adjacency, 0), entry, DistTo(index.metric, index.data, query), ef, visited[..],
                       best0, frontier0, s0, Elements(frontier0) + {u})
    modifies cursor, cursor.mgr, visited
    ensures Walked(cursor) && cursor.mgr.timeouts == old(cursor.mgr.timeouts) + if ok then 0 else 1
    ensures ok ==> Exploring(LayerOf(index.adjacency, 0), entry, DistTo(index.metric, index.data, query), ef,
                             visited[..], best, frontier, s, Elements(frontier))
    ensures ok ==> Effort(|index.data|, s.visited, frontier) <= Effort(|index.data|, s0.visited, frontier0)
  {
    ghost var g, dq := LayerOf(index.adjacency, 0), DistTo(index.metric, index.data, query);
    best, frontier, s := best0, frontier0, s0;
    ok := cursor.Advance(u);
    if !ok {
      return;
    }
    var nbrs := ReadNeighbours(index, cursor, u, 0);
    var i := 0;
    while i < |nbrs|
      invariant 0 <= i <= |nbrs| && u in s.visited
      invariant Walked(cursor) && cursor.On(u) && cursor.mgr.timeouts == old(cursor.mgr.timeouts)
      invariant Exploring(g, entry, dq, ef, visited[..], best, frontier, s, Elements(frontier) + {u})
      invariant Elements(nbrs[..i]) <= s.visited
      invariant Effort(|g|, s.visited, frontier) <= Effort(|g|, s0.visited, frontier0)
    {
      var nb := nbrs[i];
      assert nb in nbrs;
      ghost var seen := s.visited;
      FlagMeansSeen(g, entry, dq, ef, visited[..], best, frontier, s, Elements(frontier) + {u}, nb);
      if !visited[nb] {
        ok, best, frontier, s := MeetNeighbour(index, query, u, nb, ef, cursor, visited, best, frontier, entry, s);
        if !ok {
          return;
        }
      }
      ElementsNext(nbrs, i, seen, s.visited);
      i := i + 1;
    }
    AllListed(nbrs, i, s.visited);
    ExpandedCloses(g, entry, s, Elements(frontier), u);
  }

  lemma AllListed(list: seq<int>, i: nat, s: set<int>)
    requires i == |list| && Elements(list[..i]) <= s
    ensures forall x :: x in list ==> x in s
  {
    assert list[..i] == list;
    assert forall x :: x in list ==> x in Elements(list);
  }

  /** Marks a neighbour as seen, reads its vector under the cursor and offers it to the heap. */
  method MeetNeighbour(index: Index, query: Vector, u: int, nb: int, ef: nat, cursor: SharedLockCursor,
                       visited: array<bool>, best0: seq<SearchHit>, frontier0: seq<int>, ghost entry: int, ghost s0: Seen)
    returns (ok: bool, best: seq<SearchHit>, frontier: seq<int>, ghost s: Seen)
    requires index.Valid() && cursor.Valid() && ef > 0 && 0 <= u < |index.data| && u in s0.visited
    requires 0 <= nb < |index.data| && nb in LayerOf(index.adjacency, 0)[u] && nb < visited.Length && !visited[nb]
    requires Exploring(LayerOf(index.adjacency, 0), entry, DistTo(index.metric, index.data, query), ef, visited[..],
                       best0, frontier0, s0, Elements(frontier0) + {u})
    modifies cursor, cursor.mgr, visited
    ensures Walked(cursor) && cursor.mgr.timeouts == old(cursor.mgr.timeouts) + if ok then 0 else 1
    ensures ok ==> cursor.On(u) && s.visited == s0.visited + {nb}
    ensures ok ==> Exploring(LayerOf(index.adjacency, 0), entry, DistTo(index.metric, index.data, query), ef,
                             visited[..], best, frontier, s, Elements(frontier) + {u})
    ensures ok ==> Effort(|index.data|, s.visited, frontier) < Effort(|index.data|, s0.visited, frontier0)
  {
    best, frontier, s := best0, frontier0, s0;
    ghost var flags := visited[..];
    var d;
    ok, d := MarkVisited(index, query, nb, cursor, visited);
    if !ok {
      return;
    }
    best, frontier, s := OfferAndQueue(LayerOf(index.adjacency, 0), DistTo(index.metric, index.data, query),
                                       u, nb, d, ef, flags, best0, frontier0, entry, s0);
    ok := cursor.Advance(u);
    assert visited[..] == flags[nb := true];
  }

  method MarkVisited(index: Index, query: Vector, nb: int, cursor: SharedLockCursor, visited: array<bool>)
    returns (ok: bool, d: real)
    requires index.Valid() && cursor.Valid() && 0 <= nb < |index.data| && nb < visited.Length
    modifies cursor, cursor.mgr, visited
    ensures visited[..] == old(visited[..])[nb := true]
    ensures Walked(cursor) && cursor.mgr.timeouts == old(cursor.mgr.timeouts) + if ok then 0 else 1
    ensures ok ==> cursor.On(nb) && d == DistTo(index.metric, index.data, query)(nb)
  {
    visited[nb] := true;
    ok, d := VisitDistance(index, query, nb, cursor);
  }

  method VisitDistance(index: Index, query: Vector, nb: int, cursor: SharedLockCursor) returns (ok: bool, d: real)
    requires index.Valid() && cursor.Valid() && 0 <= nb < |index.data|
    modifies cursor, cursor.mgr
    ensures Walked(cursor) && cursor.mgr.timeouts == old(cursor.mgr.timeouts) + if ok then 0 else 1
    ensures ok ==> cursor.On(nb) && d == DistTo(index.metric, index.data, query)(nb)
  {
    d := 0.0;
    ok := cursor.Advance(nb);
    if ok {
      d := ReadDistance(index, cursor, query, nb);
    }
  }

  lemma ElementsPush(list: seq<int>, x: int)
    ensures Elements(list + [x]) == Elements(list) + {x}
  {
  }

  lemma EffortDrops(n: nat, s: set<int>, frontier: seq<int>, frontier': seq<int>, nb: int)
    requires nb !in s && |frontier'| <= |frontier| + 1
    ensures Effort(n, s + {nb}, frontier') < Effort(n, s, frontier)
  {
  }

  lemma QueueExplores(g: Layer, entry: int, dq: QueryDist, ef: nat, flags: seq<bool>, best: seq<SearchHit>,
                      best': seq<SearchHit>, frontier: seq<int>, frontier': seq<int>, s: Seen, s': Seen, u: int, nb: int,
                      added: set<int>)
    requires 0 <= u < |g| && u in s.visited && 0 <= nb < |g| && nb in g[u]
    requires Exploring(g, entry, dq, ef, flags, best, frontier, s, Elements(frontier) + {u})
    requires HeapOf(best', s'.kept, dq) && KeepsNearest(s', ef, dq)
    requires s'.visited == s.visited + {nb} && s'.pushed == s.pushed + added && added <= {nb}
    requires Elements(frontier') == Elements(frontier) + added
    ensures Exploring(g, entry, dq, ef, flags[nb := true], best', frontier', s', Elements(frontier') + {u})
  {
    var open := Elements(frontier) + {u};
    MeetCloses(g, entry, s, s', open, u, nb, added);
    assert Elements(frontier') + {u} == open + added;
    MarkNext(flags, s.visited, nb);
  }

  method OfferAndQueue(ghost g: Layer, ghost dq: QueryDist, ghost u: int, nb: int, d: real, ef: nat, ghost flags: seq<bool>,
                       best0: seq<SearchHit>, frontier0: seq<int>, ghost entry: int, ghost s0: Seen)
    returns (best: seq<SearchHit>, frontier: seq<int>, ghost s: Seen)
    requires ef > 0 && 0 <= u < |g| && u in s0.visited && 0 <= nb < |g| && nb in g[u] && d == dq(nb)
    requires Exploring(g, entry, dq, ef, flags, best0, frontier0, s0, Elements(frontier0) + {u}) && !flags[nb]
    ensures Exploring(g, entry, dq, ef, flags[nb := true], best, frontier, s, Elements(frontier) + {u})
    ensures s.visited == s0.visited + {nb}
    ensures Effort(|g|, s.visited, frontier) < Effort(|g|, s0.visited, frontier0)
  {
    var taken;
    taken, best, s := Offer(best0, nb, d, ef, s0, dq);
    frontier := if taken then frontier0 + [nb] else frontier0;
    assert Effort(|g|, s.visited, frontier) < Effort(|g|, s0.visited, frontier0) by {
      assert nb !in s0.visited;
      EffortDrops(|g|, s0.visited, frontier0, frontier, nb);
    }
    ElementsPush(frontier0, nb);
    QueueExplores(g, entry, dq, ef, flags, best0, best, frontier0, frontier, s0, s, u, nb, if taken then {nb} else {});
  }

  // ----- the answer -----------------------------------------------------------------

  ghost predicate Ordered(hits: seq<SearchHit>) {
    forall i, j :: 0 <= i < j < |hits| ==> hits[i].distance <= hits[j].distance
  }

  function InsertHit(h: SearchHit, hits: seq<SearchHit>): (r: seq<SearchHit>)
    ensures multiset(r) == multiset(hits) + multiset{h}
  {
    if hits == [] || h.distance < hits[0].distance then [h] + hits
    else
      assert hits == [hits[0]] + hits[1..];
      [hits[0]] + InsertHit(h, hits[1..])
  }

  lemma {:induction false} InsertHitOrdered(h: SearchHit, hits: seq<SearchHit>)
    requires Ordered(hits)
    ensures Ordered(InsertHit(h, hits))
  {
    if hits != [] && !(h.distance < hits[0].distance) {
      InsertHitOrdered(h, hits[1..]);
      var r := InsertHit(h, hits[1..]);
      forall i | 0 <= i < |r| ensures hits[0].distance <= r[i].distance {
        assert r[i] in multiset(r);
        assert r[i] in multiset(hits[1..]) + multiset{h};
      }
    }
  }

  /** `std::sort` by distance; hits at equal distance may come in any order. */
  method SortByDistance(hits: seq<SearchHit>) returns (sorted: seq<SearchHit>)
    ensures Ordered(sorted) && |sorted| == |hits|
    ensures forall h :: h in sorted <==> h in hits
  {
    sorted := [];
    var i := 0;
    while i < |hits|
      invariant 0 <= i <= |hits| && Ordered(sorted) && multiset(sorted) == multiset(hits[..i])
    {
      assert hits[..i + 1] == hits[..i] + [hits[i]];
      InsertHitOrdered(hits[i], sorted);
      sorted := InsertHit(hits[i], sorted);
      i := i + 1;
    }
    assert hits[..i] == hits;
    assert |sorted| == |multiset(sorted)|;
    forall h ensures h in sorted <==> h in hits {
      assert h in multiset(sorted) <==> h in multiset(hits);
    }
  }

  /** Empties the heap into a list. */
  method Drain(best0: seq<SearchHit>, ghost kept: set<int>, ghost dq: QueryDist) returns (out: seq<SearchHit>)
    requires HeapOf(best0, kept, dq)
    ensures HeapOf(out, kept, dq)
  {
    var best := best0;
    ghost var left, gone := kept, {};
    out := [];
    while best != []
      invariant HeapOf(best, left, dq) && HeapOf(out, gone, dq)
      invariant left !! gone && left + gone == kept
      decreases |best|
    {
      var hit;
      hit, best := PopTop(best, left, dq);
      HeapPush(out, gone, hit.node, dq);
      out := out + [hit];
      left, gone := left - {hit.node}, gone + {hit.node};
    }
    assert left == {} && gone == kept;
  }

  ghost function HitNodes(hits: seq<SearchHit>): (s: set<int>) {
    set h | h in hits :: h.node
  }

  /**
   * The hits are the k nearest of all nodes visited, in order of distance, and every neighbour of a hit has
   * been visited; a search that visits no more than max(k, 16) nodes has visited all that is reachable.
   */
  ghost predicate Answers(g: Layer, dq: QueryDist, entry: int, k: nat, hits: seq<SearchHit>, visited: set<int>) {
    && entry in visited && visited <= Reachable(g, Nodes(g), entry)
    && Ordered(hits) && HeapOf(hits, HitNodes(hits), dq) && HitNodes(hits) <= visited
    && |hits| == (if |visited| < k then |visited| else k)
    && (forall v, h :: v in visited && v !in HitNodes(hits) && h in hits ==> h.distance <= dq(v))
    && (forall u, nb :: u in HitNodes(hits) && 0 <= u < |g| && nb in g[u] ==> nb in visited)
    && (|visited| <= Ef(k) ==> visited == Reachable(g, Nodes(g), entry))
  }

  /** Each hit carries the distance of its row to the query, and no row visited is nearer than a hit without being one. */
  ghost predicate NearestVisited(metric: Metric, data: seq<Vector>, query: Vector, hits: seq<SearchHit>,
                                 visited: set<int>)
  {
    && (forall h :: h in hits ==> 0 <= h.node < |data| && h.distance == metric(query, data[h.node]))
    && (forall v, h :: v in visited && v !in HitNodes(hits) && h in hits ==>
          0 <= v < |data| && h.distance <= metric(query, data[v]))
  }

  lemma AnswersMeasured(g: Layer, metric: Metric, data: seq<Vector>, query: Vector, entry: int, k: nat,
                        hits: seq<SearchHit>, visited: set<int>)
    requires |g| == |data| && Answers(g, DistTo(metric, data, query), entry, k, hits, visited)
    ensures NearestVisited(metric, data, query, hits, visited)
  {
    assert forall v :: v in visited ==> Reach(g, Nodes(g), entry, v);
    forall h | h in hits ensures h.node in visited {
      assert h.node in HitNodes(hits);
    }
  }

  function Ef(k: nat): (ef: nat)
    ensures ef >= k && ef >= 16 && (ef == k || ef == 16)
  {
    if k > 16 then k else 16
  }

  lemma ClosedIsReachable(g: Layer, entry: int, visited: set<int>)
    requires entry in visited && visited <= Reachable(g, Nodes(g), entry)
    requires forall p, x :: p in visited && 0 <= p < |g| && x in g[p] ==> x in visited
    ensures visited == Reachable(g, Nodes(g), entry)
  {
    forall b | Reach(g, Nodes(g), entry, b) ensures b in visited {
      var p :| IsPath(g, Nodes(g), p) && p[0] == entry && p[|p| - 1] == b;
      ReachInClosed(g, Nodes(g), visited, p);
    }
  }

  lemma PrefixHeap(sorted: seq<SearchHit>, kept: set<int>, dq: QueryDist, k: nat)
    requires HeapOf(sorted, kept, dq) && k <= |sorted|
    ensures HeapOf(sorted[..k], HitNodes(sorted[..k]), dq)
    ensures HitNodes(sorted[..k]) <= kept && |HitNodes(sorted[..k])| == k
  {
    var hits := sorted[..k];
    HeapNoDup(sorted, kept, dq);
    assert NoDup(hits);
    forall h | h in hits ensures h.node in kept && h.distance == dq(h.node) {
      assert h in sorted;
    }
    forall h: SearchHit | h.node in HitNodes(hits) && h.distance == dq(h.node) ensures h in hits {
      var g :| g in hits && g.node == h.node;
    }
    DistinctNodes(hits, dq);
  }

  lemma {:induction false} DistinctNodes(hits: seq<SearchHit>, dq: QueryDist)
    requires NoDup(hits) && forall h :: h in hits ==> h.distance == dq(h.node)
    ensures |HitNodes(hits)| == |hits|
  {
    if hits != [] {
      var k := |hits| - 1;
      var init, h := hits[..k], hits[k];
      DistinctNodes(init, dq);
      assert h in hits;
      forall g | g in init ensures g.node != h.node {
        assert g in hits && g != h;
      }
      assert HitNodes(hits) == HitNodes(init) + {h.node} by {
        assert hits == init + [h];
      }
    }
  }

  /** A node of the heap that is cut off is no nearer than one that is not. */
  lemma CutFarther(sorted: seq<SearchHit>, kept: set<int>, dq: QueryDist, n: nat, v: int, h: SearchHit)
    requires n <= |sorted| && HeapOf(sorted, kept, dq) && Ordered(sorted)
    requires v in kept && v !in HitNodes(sorted[..n]) && h in sorted[..n]
    ensures h.distance <= dq(v)
  {
    var last := SearchHit(v, dq(v));
    assert last in sorted;
    var j :| 0 <= j < |sorted| && sorted[j] == last;
    var i :| 0 <= i < n && sorted[..n][i] == h;
    forall x | 0 <= x < n ensures sorted[x] != last {
      var y := sorted[..n][x];
      assert y in sorted[..n];
    }
  }

  lemma CutAnswers(g: Layer, dq: QueryDist, entry: int, k: nat, s: Seen, sorted: seq<SearchHit>)
    requires KeepsNearest(s, Ef(k), dq) && Closing(g, entry, s, {})
    requires HeapOf(sorted, s.kept, dq) && Ordered(sorted)
    ensures Answers(g, dq, entry, k, if |sorted| > k then sorted[..k] else sorted, s.visited)
  {
    var n := if |sorted| > k then k else |sorted|;
    var hits := sorted[..n];
    assert hits == if |sorted| > k then sorted[..k] else sorted;
    PrefixHeap(sorted, s.kept, dq, n);
    forall v, h | v in s.visited && v !in HitNodes(hits) && h in hits ensures h.distance <= dq(v) {
      assert h in sorted;
      if v in s.kept {
        CutFarther(sorted, s.kept, dq, n, v, h);
      }
    }
    if |s.visited| <= Ef(k) {
      ClosedIsReachable(g, entry, s.visited);
    }
  }

  /**
   * `base_layer_search_locked`. Apart from a lock timeout it always answers; `visited` is the set of nodes
   * whose distance it has looked at.
   */
  method BaseLayerSearch(index: Index, query: Vector, entry: int, k: nat, cursor: SharedLockCursor)
    returns (r: Outcome<seq<SearchHit>>, ghost visitedSet: set<int>)
    requires index.Valid() && cursor.Valid() && 0 <= entry < |index.data|
    modifies cursor, cursor.mgr
    ensures Walked(cursor) && !r.Refused?
    ensures cursor.mgr.timeouts == old(cursor.mgr.timeouts) + if r.LockTimeout? then 1 else 0
    ensures r.Found? ==> Answers(LayerOf(index.adjacency, 0), DistTo(index.metric, index.data, query), entry, k,
                                 r.value, visitedSet)
    ensures r.Found? ==> NearestVisited(index.metric, index.data, query, r.value, visitedSet)
  {
    ghost var g, dq := LayerOf(index.adjacency, 0), DistTo(index.metric, index.data, query);
    var ok, best;
    ghost var s;
    ok, best, s := Explore(index, query, entry, if k > 16 then k else 16, cursor);
    if !ok {
      return LockTimeout, {};
    }
    var hits := RankHits(best, k, g, dq, entry, s);
    AnswersMeasured(g, index.metric, index.data, query, entry, k, hits, s.visited);
    r, visitedSet := Found(hits), s.visited;
  }

  /** What is left in the heap, sorted and cut. */
  method RankHits(best: seq<SearchHit>, k: nat, ghost g: Layer, ghost dq: QueryDist, ghost entry: int, ghost s: Seen)
    returns (hits: seq<SearchHit>)
    requires HeapOf(best, s.kept, dq) && KeepsNearest(s, Ef(k), dq) && Closing(g, entry, s, {})
    ensures Answers(g, dq, entry, k, hits, s.visited)
  {
    hits := Drain(best, s.kept, dq);
    hits := SortByDistance(hits);
    CutAnswers(g, dq, entry, k, s, hits);
    if |hits| > k {
      hits := hits[..k];
    }
  }

  /** The exploration: expands what has been queued until the queue is empty. */
  method Explore(index: Index, query: Vector, entry: int, ef: nat, cursor: SharedLockCursor)
    returns (ok: bool, best: seq<SearchHit>, ghost s: Seen)
    requires index.Valid() && cursor.Valid() && 0 <= entry < |index.data| && ef > 0
    modifies cursor, cursor.mgr
    ensures Walked(cursor) && cursor.mgr.timeouts == old(cursor.mgr.timeouts) + if ok then 0 else 1
    ensures ok ==>
              var g, dq := LayerOf(index.adjacency, 0), DistTo(index.metric, index.data, query);
              HeapOf(best, s.kept, dq) && KeepsNearest(s, ef, dq) && Closing(g, entry, s, {})
  {
    ghost var g, dq := LayerOf(index.adjacency, 0), DistTo(index.metric, index.data, query);
    var visited := new bool[|index.data|](i => false);
    var d;
    best, s := [], Seen({entry}, {entry}, {entry});
    ok, d := VisitDistance(index, query, entry, cursor);
    if !ok {
      return;
    }
    visited[entry] := true;
    best := [SearchHit(entry, d)];
    var frontier := [entry];
    StartExplores(g, entry, dq, ef, visited[..], best, frontier);
    while frontier != []
      invariant Walked(cursor) && cursor.mgr.timeouts == old(cursor.mgr.timeouts) && ok
      invariant Exploring(g, entry, dq, ef, visited[..], best, frontier, s, Elements(frontier))
      invariant Effort(|g|, s.visited, frontier) >= 0
      decreases Effort(|g|, s.visited, frontier)
    {
      var u := frontier[0];
      NextOpen(g, entry, dq, ef, visited[..], best, frontier, s);
      ok, best, frontier, s := ExpandNode(index, query, u, ef, cursor, visited, best, frontier[1..], entry, s);
      if !ok {
        return;
      }
      SeenBound(visited[..], s.visited);
    }
    assert Elements(frontier) == {};
  }

  lemma StartExplores(g: Layer, entry: int, dq: QueryDist, ef: nat, visited: seq<bool>, best: seq<SearchHit>,
                      frontier: seq<int>)
    requires 0 <= entry < |g| == |visited| && ef > 0
    requires forall x :: 0 <= x < |visited| ==> (visited[x] <==> x == entry)
    requires best == [SearchHit(entry, dq(entry))] && frontier == [entry]
    ensures Exploring(g, entry, dq, ef, visited, best, frontier, Seen({entry}, {entry}, {entry}), Elements(frontier))
    ensures Effort(|g|, {entry}, frontier) >= 0
  {
    ReachSelf(g, Nodes(g), entry);
  }

  lemma NextOpen(g: Layer, entry: int, dq: QueryDist, ef: nat, visited: seq<bool>, best: seq<SearchHit>,
                 frontier: seq<int>, s: Seen)
    requires Exploring(g, entry, dq, ef, visited, best, frontier, s, Elements(frontier)) && frontier != []
    ensures frontier[0] in s.visited && 0 <= frontier[0] < |g|
    ensures Exploring(g, entry, dq, ef, visited, best, frontier[1..], s, Elements(frontier[1..]) + {frontier[0]})
  {
    ElementsHead(frontier);
  }

  lemma ElementsHead(list: seq<int>)
    requires list != []
    ensures list[0] in Elements(list) && Elements(list) == Elements(list[1..]) + {list[0]}
  {
    assert list == [list[0]] + list[1..];
  }

  // ----- what an answer means -------------------------------------------------------

  /** Every neighbour of a hit is a hit or no nearer than the last hit. */
  lemma NeighbourOfHit(g: Layer, dq: QueryDist, entry: int, k: nat, hits: seq<SearchHit>, visited: set<int>, u: int, nb: int)
    requires Answers(g, dq, entry, k, hits, visited) && u in HitNodes(hits) && 0 <= u < |g| && nb in g[u]
    ensures nb in HitNodes(hits) || hits[|hits| - 1].distance <= dq(nb)
  {
    assert nb in visited;
    var h :| h in hits && h.node == u;
    var last := hits[|hits| - 1];
    assert last in hits;
  }

  /** Fewer than k hits means that everything reachable was returned. */
  lemma ShortAnswer(g: Layer, dq: QueryDist, entry: int, k: nat, hits: seq<SearchHit>, visited: set<int>)
    requires Answers(g, dq, entry, k, hits, visited) && |hits| < k
    ensures HitNodes(hits) == Reachable(g, Nodes(g), entry)
  {
    SubsetCardinality(HitNodes(hits), visited);
  }

  /** `hits` are the k nearest of the nodes in `among`, nearest first; ties may fall either way. */
  ghost predicate NearestOf(among: set<int>, dq: QueryDist, k: nat, hits: seq<SearchHit>) {
    && Ordered(hits) && HeapOf(hits, HitNodes(hits), dq) && HitNodes(hits) <= among
    && |hits| == (if |among| < k then |among| else k)
    && forall v, h :: v in among && v !in HitNodes(hits) && h in hits ==> h.distance <= dq(v)
  }

  /** With at most max(k, 16) nodes reachable, the answer is exact k-NN over them. */
  lemma ExactAnswer(g: Layer, dq: QueryDist, entry: int, k: nat, hits: seq<SearchHit>, visited: set<int>)
    requires Answers(g, dq, entry, k, hits, visited) && |Reachable(g, Nodes(g), entry)| <= Ef(k)
    ensures NearestOf(Reachable(g, Nodes(g), entry), dq, k, hits)
  {
    SubsetCardinality(visited, Reachable(g, Nodes(g), entry));
  }

  // ----- search_knn -----------------------------------------------------------------

  /** The node a search starts from: the one asked for, else the entry point, else node 0. */
  function StartNode(entryNode: int, entrypoint: int, n: nat): (start: int)
    requires n > 0
    ensures 0 <= entryNode < n ==> start == entryNode
    ensures entryNode < 0 && 0 <= entrypoint < n ==> start == entrypoint
    ensures entryNode >= n || (entryNode < 0 && !(0 <= entrypoint < n)) ==> start == 0
  {
    var e := if entryNode < 0 then entrypoint else entryNode;
    if e < 0 || e >= n then 0 else e
  }

  /** One layer of the descent ends on a local minimum reachable from where it began, and no farther away. */
  ghost predicate StepDown(adj: Adjacency, dq: QueryDist, layer: nat, from: int, to: int) {
    var g := LayerOf(adj, layer);
    Reach(g, Nodes(g), from, to) && LocalMinimum(g, dq, to) && dq(to) <= dq(from)
  }

  /** A descent through the layers top, top - 1, ... */
  ghost predicate Descent(adj: Adjacency, dq: QueryDist, top: nat, trail: seq<int>) {
    && 1 <= |trail| <= top + 1
    && (forall i :: 0 <= i < |trail| ==> 0 <= trail[i] < |adj|)
    && (forall i :: 1 <= i < |trail| ==> StepDown(adj, dq, top + 1 - i, trail[i - 1], trail[i]))
  }

  lemma DescentNext(adj: Adjacency, dq: QueryDist, top: nat, trail: seq<int>, layer: nat, from: int, next: int)
    requires Descent(adj, dq, top, trail) && |trail| <= top && 0 <= next < |adj|
    requires layer == top + 1 - |trail| && from == trail[|trail| - 1] && StepDown(adj, dq, layer, from, next)
    ensures Descent(adj, dq, top, trail + [next])
    ensures |trail + [next]| == top - (layer - 1) + 1 && (trail + [next])[0] == trail[0]
    ensures (trail + [next])[top - (layer - 1)] == next
  {
    var t := trail + [next];
    forall i | 1 <= i < |t| ensures StepDown(adj, dq, top + 1 - i, t[i - 1], t[i]) {
      if i < |trail| {
        assert t[i - 1] == trail[i - 1] && t[i] == trail[i];
      }
    }
  }

  /** The layer the descent starts on, read under a shared hold of the start node. */
  method TopLayerOf(index: Index, start: int, mgr: LockManager) returns (ok: bool, top: nat)
    requires index.Valid() && mgr.Valid() && 0 <= start < |index.data|
    modifies mgr
    ensures mgr.Valid() && mgr.writers == old(mgr.writers) && mgr.readers == old(mgr.readers)
    ensures mgr.timeouts == old(mgr.timeouts) + if ok then 0 else 1
    ensures mgr.attempts >= old(mgr.attempts) && (old(mgr.Unhindered()) ==> ok)
    ensures top == if ok && index.adjacency[start] != [] then |index.adjacency[start]| - 1 else 0
  {
    top := 0;
    var s := mgr.StripeOf(start);
    ok := mgr.TryLockShared(s);
    if ok {
      if index.adjacency[start] != [] {
        top := |index.adjacency[start]| - 1;
      }
      mgr.UnlockShared(s);
    }
  }

  /**
   * `search_knn`. It refuses an empty index, may report a lock timeout, and otherwise answers from the node
   * its greedy descent ends on. All its shared holds are gone when it returns.
   */
  method SearchKnn(index: Index, query: Vector, k: nat, entryNode: int, mgr: LockManager)
    returns (r: Outcome<seq<SearchHit>>, ghost trail: seq<int>, ghost visited: set<int>)
    requires index.Valid() && mgr.Valid()
    modifies mgr
    ensures mgr.Valid() && mgr.writers == old(mgr.writers) && mgr.readers == old(mgr.readers)
    ensures mgr.timeouts == old(mgr.timeouts) + if r.LockTimeout? then 1 else 0
    ensures old(mgr.Unhindered()) ==> !r.LockTimeout?
    ensures k == 0 ==> r == Found([])
    ensures k > 0 ==> (r.Refused? <==> index.data == [])
    ensures k > 0 && r.Found? ==>
              var dq := DistTo(index.metric, index.data, query);
              var start := StartNode(entryNode, index.entrypoint, |index.data|);
              var top := if index.adjacency[start] != [] then |index.adjacency[start]| - 1 else 0;
              && Descent(index.adjacency, dq, top, trail) && |trail| == top + 1 && trail[0] == start
              && Answers(LayerOf(index.adjacency, 0), dq, trail[top], k, r.value, visited)
    ensures k > 0 && r.Found? ==> NearestVisited(index.metric, index.data, query, r.value, visited)
  {
    trail, visited := [], {};
    if k == 0 {
      return Found([]), trail, visited;
    }
    if index.data == [] {
      return Refused, trail, visited;
    }
    var start := StartNode(entryNode, index.entrypoint, |index.data|);
    var ok, top := TopLayerOf(index, start, mgr);
    if !ok {
      return LockTimeout, trail, visited;
    }
    var cursor := new SharedLockCursor(mgr);
    ok := cursor.Enter(start);
    if !ok {
      cursor.Release();
      return LockTimeout, trail, visited;
    }
    var base;
    base, trail := DescendLayers(index, query, start, top, cursor);
    if base.Found? {
      r, visited := BaseLayerSearch(index, query, base.value, k, cursor);
    } else {
      r := LockTimeout;
    }
    cursor.Release();
  }

  method DescendLayers(index: Index, query: Vector, start: int, top: nat, cursor: SharedLockCursor)
    returns (r: Outcome<int>, ghost trail: seq<int>)
    requires index.Valid() && cursor.Valid() && 0 <= start < |index.data| && cursor.On(start)
    modifies cursor, cursor.mgr
    ensures Walked(cursor) && !r.Refused?
    ensures cursor.mgr.timeouts == old(cursor.mgr.timeouts) + if r.LockTimeout? then 1 else 0
    ensures r.Found? ==>
              && Descent(index.adjacency, DistTo(index.metric, index.data, query), top, trail)
              && |trail| == top + 1 && trail[0] == start && trail[top] == r.value
  {
    var curr, lc := start, top;
    trail := [start];
    while lc > 0
      invariant 0 <= lc <= top && |trail| == top - lc + 1 && trail[0] == start && trail[top - lc] == curr
      invariant Walked(cursor) && cursor.On(curr) && cursor.mgr.timeouts == old(cursor.mgr.timeouts)
      invariant Descent(index.adjacency, DistTo(index.metric, index.data, query), top, trail)
    {
      var next := GreedyUpdate(index, query, curr, lc, cursor);
      if next.LockTimeout? {
        return LockTimeout, trail;
      }
      assert StepDown(index.adjacency, DistTo(index.metric, index.data, query), lc, curr, next.value);
      DescentNext(index.adjacency, DistTo(index.metric, index.data, query), top, trail, lc, curr, next.value);
      curr, trail := next.value, trail + [next.value];
      lc := lc - 1;
    }
    r := Found(curr);
  }

  // ----- when an erased node is found -----------------------------------------------

  /** A path on which x is isolated stays on x or off it. */
  lemma {:induction false} PathKeepsIsolated(g: Layer, x: int, p: seq<int>)
    requires IsolatedOn(g, x) && IsPath(g, Nodes(g), p)
    ensures p[|p| - 1] == x <==> p[0] == x
    ensures p[0] == x ==> |p| == 1
    decreases |p|
  {
    if |p| > 1 {
      assert p[0 + 1] in g[p[0]];
      var r := p[1..];
      assert forall i :: 0 <= i < |r| ==> r[i] == p[i + 1];
      PathKeepsIsolated(g, x, r);
    }
  }

  lemma ReachKeepsIsolated(g: Layer, x: int, a: int, b: int)
    requires IsolatedOn(g, x) && Reach(g, Nodes(g), a, b)
    ensures b == x <==> a == x
  {
    var p :| IsPath(g, Nodes(g), p) && p[0] == a && p[|p| - 1] == b;
    PathKeepsIsolated(g, x, p);
  }

  lemma {:induction false} DescentKeepsIsolated(adj: Adjacency, dq: QueryDist, top: nat, trail: seq<int>, x: int, i: nat)
    requires Isolated(adj, x) && Descent(adj, dq, top, trail) && i < |trail|
    ensures trail[i] == x <==> trail[0] == x
  {
    if i > 0 {
      DescentKeepsIsolated(adj, dq, top, trail, x, i - 1);
      assert StepDown(adj, dq, top + 1 - i, trail[i - 1], trail[i]);
      assert IsolatedOn(LayerOf(adj, top + 1 - i), x);
      ReachKeepsIsolated(LayerOf(adj, top + 1 - i), x, trail[i - 1], trail[i]);
    }
  }

  /** A search for at least one hit finds an erased node if and only if it starts there, and then finds nothing else. */
  lemma ErasedFoundExactly(adj: Adjacency, dq: QueryDist, top: nat, trail: seq<int>, k: nat, hits: seq<SearchHit>,
                           visited: set<int>, x: int)
    requires Isolated(adj, x) && Descent(adj, dq, top, trail) && |trail| == top + 1
    requires Answers(LayerOf(adj, 0), dq, trail[top], k, hits, visited)
    ensures x in HitNodes(hits) <==> k > 0 && trail[0] == x
    ensures k > 0 && trail[0] == x ==> HitNodes(hits) == {x}
  {
    var g := LayerOf(adj, 0);
    assert IsolatedOn(g, x);
    DescentKeepsIsolated(adj, dq, top, trail, x, top);
    forall y | y in visited ensures y == x <==> trail[0] == x {
      ReachKeepsIsolated(g, x, trail[top], y);
    }
    if trail[0] == x {
      assert visited == {x};
      if k > 0 {
        assert hits[0] in hits;
        assert hits[0].node in HitNodes(hits);
      }
    }
  }

  /** After any run a search finds a node erased in it if and only if it starts there, and then finds nothing else. */
  lemma RunFindsExactly(states: seq<State>, calls: seq<Call>, dim: nat, metric: Metric, dq: QueryDist, top: nat,
                        trail: seq<int>, k: nat, hits: seq<SearchHit>, visited: set<int>)
    requires IsMetric(metric) && IsRun(states, calls, dim, metric) && AllSimple(states[0].adjacency)
    requires var adj := states[|calls|].adjacency;
             && Descent(adj, dq, top, trail) && |trail| == top + 1
             && Answers(LayerOf(adj, 0), dq, trail[top], k, hits, visited)
    ensures forall x :: x in Gone(calls) ==> (x in HitNodes(hits) <==> k > 0 && trail[0] == x)
    ensures k > 0 && trail[0] in Gone(calls) ==> HitNodes(hits) == {trail[0]}
  {
    RunSafe(states, calls, dim, metric);
    forall x | x in Gone(calls)
      ensures x in HitNodes(hits) <==> k > 0 && trail[0] == x
      ensures k > 0 && trail[0] == x ==> HitNodes(hits) == {x}
    {
      assert Erased(states[|calls|], x, dim);
      ErasedFoundExactly(states[|calls|].adjacency, dq, top, trail, k, hits, visited, x);
    }
  }

  /**
   * A search that names no start node returns an erased label if and only if the row that last replaced the entry
   * point had been erased before, or the entry point is no row at all and row 0 has been erased.
   */
  lemma DefaultSearchExactly(states: seq<State>, calls: seq<Call>, dim: nat, metric: Metric, dq: QueryDist, top: nat,
                             trail: seq<int>, k: nat, hits: seq<SearchHit>, visited: set<int>)
    requires IsMetric(metric) && IsRun(states, calls, dim, metric) && AllSimple(states[0].adjacency)
    requires var s := states[|calls|];
             && Descent(s.adjacency, dq, top, trail) && |trail| == top + 1
             && Answers(LayerOf(s.adjacency, 0), dq, trail[top], k, hits, visited)
             && trail[0] == StartNode(-1, s.entrypoint, |s.adjacency|)
    ensures var s := states[|calls|];
            (exists x :: x in Gone(calls) && x in HitNodes(hits)) <==>
              && k > 0
              && if 0 <= s.entrypoint < |s.adjacency| then exists j :: BadSuccessor(states, calls, j) else 0 in Gone(calls)
  {
    EntryGoneExactly(states, calls, dim, metric);
    RunFindsExactly(states, calls, dim, metric, dq, top, trail, k, hits, visited);
  }

  /**
   * A search that names no start node starts on the row just erased if and only if that was the only row, or the
   * entry point was no row and the row erased is row 0.
   */
  lemma StartAfterErase(s: State, s': State, q: int, m: int, dim: nat, metric: Metric, t: HealingMetrics)
    requires Erases(s, s', q, m, dim, metric, t)
    ensures StartNode(-1, s'.entrypoint, |s.data|) == q <==>
              |s.data| == 1 || (q == 0 && !(0 <= s.entrypoint < |s.data|))
  {
  }

  /**
   * The next such search returns the row just erased exactly then, too; so never on two rows or more, if the entry
   * point was a row.
   */
  lemma NextSearchExactly(s: State, s': State, q: int, m: int, dim: nat, metric: Metric, t: HealingMetrics,
                          dq: QueryDist, top: nat, trail: seq<int>, k: nat, hits: seq<SearchHit>, visited: set<int>)
    requires IsMetric(metric) && Erases(s, s', q, m, dim, metric, t) && k > 0
    requires AllSimple(s.adjacency) && AllSimple(s'.adjacency)
    requires Descent(s'.adjacency, dq, top, trail) && |trail| == top + 1
    requires Answers(LayerOf(s'.adjacency, 0), dq, trail[top], k, hits, visited)
    requires trail[0] == StartNode(-1, s'.entrypoint, |s.data|)
    ensures q in HitNodes(hits) <==> |s.data| == 1 || (q == 0 && !(0 <= s.entrypoint < |s.data|))
  {
    StartAfterErase(s, s', q, m, dim, metric, t);
    KeepsErased(s, s', q, m, dim, metric, t);
    ErasedFoundExactly(s'.adjacency, dq, top, trail, k, hits, visited, q);
  }

  // ----- an erased node that is found -----------------------------------------------

  /** Two rows without edges, the second one the entry point; then row 0 is erased, then row 1. */
  function TwoRows(): (states: seq<State>)
    ensures |states| == 3
  {
    var one, adj := [1.0], [[], []];
    [State([one, one], adj, 1), State([Zeros(1), one], adj, 1), State([Zeros(1), Zeros(1)], adj, 0)]
  }

  const BOTH: seq<Call> := [Heals(0, 1, HealingMetrics(0, 0)), Heals(1, 1, HealingMetrics(0, 0))]

  lemma {:induction false} HeightEmpty(adj: Adjacency, q: int, region: seq<int>)
    requires 0 <= q < |adj| && Labels(region, |adj|) && forall k :: 0 <= k < |adj| ==> adj[k] == []
    ensures Height(adj, q, region) == 0
  {
    if region != [] {
      HeightEmpty(adj, q, region[..|region| - 1]);
    }
  }

  /** Healing away a row of an index without edges leaves the adjacency as it is. */
  lemma NoEdgesHealed(adj: Adjacency, q: int, m: int, d: Dist)
    requires 0 <= q < |adj| && m > 0 && forall k :: 0 <= k < |adj| ==> adj[k] == []
    ensures Sound(adj) && Healed(adj, adj, q, m, d) && Height(adj, q, HealRegion(adj, q)) == 0
  {
    assert Sound(adj);
    HeightEmpty(adj, q, HealRegion(adj, q));
    forall l: nat ensures LayerOf(adj, l) == HealedWork(adj, q, m, d, l).g {
      HealedEmpty(adj, q, m, d, l);
    }
  }

  lemma NoEdgesErased(s: State, q: int, m: int, dim: nat, metric: Metric)
    requires |s.data| == |s.adjacency| && 0 <= q < |s.data| && m > 0
    requires forall k :: 0 <= k < |s.adjacency| ==> s.adjacency[k] == []
    ensures Erases(s, State(s.data[q := Zeros(dim)], s.adjacency, RetiredEntry(s.entrypoint, q, |s.data|)), q, m, dim,
                   metric, HealingMetrics(0, 0))
  {
    NoEdgesHealed(s.adjacency, q, m, NodeDist(metric, s.data[q := Zeros(dim)]));
  }

  lemma NoEdgesWellFormed(adj: Adjacency, m: nat)
    requires forall k :: 0 <= k < |adj| ==> adj[k] == []
    ensures AllWellFormed(adj, m)
  {
  }

  lemma TwoRowsRun(metric: Metric)
    requires IsMetric(metric)
    ensures AllSimple(TwoRows()[0].adjacency) && IsRun(TwoRows(), BOTH, 1, metric)
  {
    var states := TwoRows();
    NoEdgesErased(states[0], 0, 1, 1, metric);
    assert states[0].data[0 := Zeros(1)] == states[1].data;
    NoEdgesErased(states[1], 1, 1, 1, metric);
    assert states[1].data[1 := Zeros(1)] == states[2].data;
    NoEdgesWellFormed(states[0].adjacency, 1);
    WellFormedSimple(states[0].adjacency, 1);
    RisingCapsFit(states, BOTH, 1, 1, metric);
  }

  /** After that run a search that names no start node returns the erased row 0 and nothing else. */
  lemma EntryPointMayBeErased(metric: Metric, dq: QueryDist, top: nat, trail: seq<int>, k: nat, hits: seq<SearchHit>,
                              visited: set<int>)
    requires IsMetric(metric) && k > 0
    requires var s := TwoRows()[2];
             && Descent(s.adjacency, dq, top, trail) && |trail| == top + 1
             && Answers(LayerOf(s.adjacency, 0), dq, trail[top], k, hits, visited)
             && trail[0] == StartNode(-1, s.entrypoint, 2)
    ensures IsRun(TwoRows(), BOTH, 1, metric) && AllSimple(TwoRows()[0].adjacency)
    ensures Erased(TwoRows()[2], 0, 1) && HitNodes(hits) == {0}
  {
    TwoRowsRun(metric);
    assert BOTH[0].node == 0;
    RunSafe(TwoRows(), BOTH, 1, metric);
    RunFindsExactly(TwoRows(), BOTH, 1, metric, dq, top, trail, k, hits, visited);
  }
}
