module Layers {
  /** The ragged `adjacency_[node][layer]` store, seen one layer at a time. */

  import opened Seqs
  import opened LayerHeal
  import opened HealBookkeeping

  type Adjacency = seq<seq<seq<int>>>

  /** The neighbours of node n on a layer; a node that is not present on the layer has none. */
  function Slot(adj: Adjacency, n: int, layer: nat): (list: seq<int>)
    requires 0 <= n < |adj|
  {
    if layer < |adj[n]| then adj[n][layer] else []
  }

  function LayerOf(adj: Adjacency, layer: nat): (g: Layer)
    ensures |g| == |adj|
    ensures forall n :: 0 <= n < |adj| ==> g[n] == Slot(adj, n, layer)
  {
    seq(|adj|, n requires 0 <= n < |adj| => Slot(adj, n, layer))
  }

  /** All labels on all layers are node indices. */
  ghost predicate Sound(adj: Adjacency) {
    forall layer: nat :: InRange(LayerOf(adj, layer))
  }

  /** `ensure_layer_slot`. */
  function Padded(lists: seq<seq<int>>, layer: nat): (r: seq<seq<int>>)
    ensures |r| == if |lists| <= layer then layer + 1 else |lists|
    ensures forall i :: 0 <= i < |r| ==> r[i] == if i < |lists| then lists[i] else []
  {
    if |lists| <= layer then lists + seq(layer + 1 - |lists|, i => []) else lists
  }

  /** Stores a list in a slot, creating the slot if the node is not yet on that layer. */
  function SetSlot(adj: Adjacency, n: int, layer: nat, list: seq<int>): (r: Adjacency)
    requires 0 <= n < |adj|
    ensures |r| == |adj|
    ensures forall k :: 0 <= k < |adj| && k != n ==> r[k] == adj[k]
    ensures Slot(r, n, layer) == list
  {
    adj[n := Padded(adj[n], layer)[layer := list]]
  }

  lemma SetSlotLayers(adj: Adjacency, n: int, layer: nat, list: seq<int>)
    requires 0 <= n < |adj|
    ensures LayerOf(SetSlot(adj, n, layer, list), layer) == LayerOf(adj, layer)[n := list]
    ensures forall l: nat :: l != layer ==> LayerOf(SetSlot(adj, n, layer, list), l) == LayerOf(adj, l)
  {
    var r := SetSlot(adj, n, layer, list);
    forall l: nat | l != layer ensures LayerOf(r, l) == LayerOf(adj, l) {
      forall k | 0 <= k < |adj| ensures Slot(r, k, l) == Slot(adj, k, l) {
      }
    }
  }

  /** Number of entries on the first k layers. */
  ghost function Edges(adj: Adjacency, k: nat): nat {
    if k == 0 then 0 else Edges(adj, k - 1) + SumLen(LayerOf(adj, k - 1))
  }

  // ----- the 2-hop region -----------------------------------------------------------

  function AddUnique(region: seq<int>, x: int, n: int): (r: seq<int>)
    ensures region <= r
    ensures forall y :: y in r <==> y in region || (y == x && 0 <= x < n)
    ensures NoDup(region) ==> NoDup(r)
    ensures Labels(region, n) ==> Labels(r, n)
  {
    if 0 <= x < n && x !in region then region + [x] else region
  }

  function AddList(region: seq<int>, list: seq<int>, n: int): (r: seq<int>)
    ensures region <= r
    ensures forall y :: y in r <==> y in region || (y in list && 0 <= y < n)
    ensures NoDup(region) ==> NoDup(r)
    ensures Labels(region, n) ==> Labels(r, n)
  {
    if list == [] then region
    else
      var k := |list| - 1;
      assert list == list[..k] + [list[k]];
      AddUnique(AddList(region, list[..k], n), list[k], n)
  }

  /** Adds the neighbours held on the first k layers. */
  function AddLayers(region: seq<int>, lists: seq<seq<int>>, k: nat, n: int): (r: seq<int>)
    requires k <= |lists|
    ensures region <= r
    ensures forall y :: y in r <==> y in region || (0 <= y < n && exists l :: 0 <= l < k && y in lists[l])
    ensures NoDup(region) ==> NoDup(r)
    ensures Labels(region, n) ==> Labels(r, n)
  {
    if k == 0 then region else AddList(AddLayers(region, lists, k - 1, n), lists[k - 1], n)
  }

  lemma AddLayersNext(region: seq<int>, lists: seq<seq<int>>, k: nat, n: int)
    requires k < |lists|
    ensures AddLayers(region, lists, k + 1, n) == AddList(AddLayers(region, lists, k, n), lists[k], n)
  {
  }

  /** Adds the neighbours of `hop[1..k]`. */
  function AddHops(adj: Adjacency, region: seq<int>, hop: seq<int>, k: nat): (r: seq<int>)
    requires 1 <= k <= |hop| && Labels(hop, |adj|)
    ensures region <= r
    ensures NoDup(region) ==> NoDup(r)
    ensures Labels(region, |adj|) ==> Labels(r, |adj|)
  {
    if k == 1 then region
    else
      var u := hop[k - 1];
      AddLayers(AddHops(adj, region, hop, k - 1), adj[u], |adj[u]|, |adj|)
  }

  function OneHop(adj: Adjacency, q: int): (r: seq<int>)
    requires 0 <= q < |adj|
    ensures |r| >= 1 && r[0] == q && NoDup(r) && Labels(r, |adj|)
  {
    AddLayers([q], adj[q], |adj[q]|, |adj|)
  }

  /** `collect_heal_region_unlocked`. */
  function HealRegion(adj: Adjacency, q: int): (r: seq<int>)
    requires 0 <= q < |adj|
    ensures NoDup(r) && Labels(r, |adj|) && q in r
  {
    var hop := OneHop(adj, q);
    AddHops(adj, hop, hop, |hop|)
  }

  /** b is listed by a on some layer. */
  ghost predicate Neighbours(adj: Adjacency, a: int, b: int) {
    0 <= a < |adj| && 0 <= b < |adj| && exists l :: 0 <= l < |adj[a]| && b in adj[a][l]
  }

  ghost predicate WithinTwoHops(adj: Adjacency, q: int, x: int) {
    0 <= q < |adj| && (x == q || Neighbours(adj, q, x) || exists u :: Neighbours(adj, q, u) && Neighbours(adj, u, x))
  }

  lemma {:induction false} AddHopsMembers(adj: Adjacency, region: seq<int>, hop: seq<int>, k: nat, x: int)
    requires 1 <= k <= |hop| && Labels(hop, |adj|)
    ensures x in AddHops(adj, region, hop, k) <==> x in region || exists i :: 1 <= i < k && Neighbours(adj, hop[i], x)
  {
    if k > 1 {
      AddHopsMembers(adj, region, hop, k - 1, x);
      assert x in AddHops(adj, region, hop, k) <==>
               x in AddHops(adj, region, hop, k - 1) || Neighbours(adj, hop[k - 1], x);
    }
  }

  /** The region holds q, its neighbours and their neighbours, over all layers, and nobody else. */
  lemma RegionExactly(adj: Adjacency, q: int, x: int)
    requires 0 <= q < |adj|
    ensures x in HealRegion(adj, q) <==> WithinTwoHops(adj, q, x)
  {
    var hop := OneHop(adj, q);
    assert forall y :: y in hop <==> y == q || Neighbours(adj, q, y);
    AddHopsMembers(adj, hop, hop, |hop|, x);
    forall u | Neighbours(adj, q, u) && Neighbours(adj, u, x)
      ensures x in hop || exists i :: 1 <= i < |hop| && Neighbours(adj, hop[i], x)
    {
      assert u in hop;
      var i :| 0 <= i < |hop| && hop[i] == u;
    }
    forall i | 1 <= i < |hop| && Neighbours(adj, hop[i], x) ensures WithinTwoHops(adj, q, x) {
      assert hop[i] in hop && hop[i] != hop[0];
    }
  }

  /** In particular the region covers the 2-hop neighbourhood of q on every single layer. */
  lemma RegionCovers(adj: Adjacency, q: int, layer: nat)
    requires 0 <= q < |adj| && Sound(adj)
    ensures Covers(LayerOf(adj, layer), q, HealRegion(adj, q))
  {
    var g, region := LayerOf(adj, layer), HealRegion(adj, q);
    assert InRange(g);
    forall u | u in g[q] ensures u in region && Neighbours(adj, q, u) {
      assert u in Slot(adj, q, layer);
      RegionExactly(adj, q, u);
    }
    forall u, x | u in g[q] && 0 <= u < |g| && x in g[u] ensures x in region {
      assert x in Slot(adj, u, layer);
      assert Neighbours(adj, u, x);
      RegionExactly(adj, q, x);
    }
  }
}
