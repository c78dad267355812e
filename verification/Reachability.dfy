module Reachability {
  /** Paths in one layer of the graph. */

  import opened LayerHeal

  ghost function Below(n: nat): (s: set<int>)
    ensures forall x :: x in s <==> 0 <= x < n
    ensures |s| == n
  {
    if n == 0 then {} else Below(n - 1) + {n - 1}
  }

  ghost function Nodes(g: Layer): (s: set<int>)
    ensures forall n :: n in s <==> 0 <= n < |g|
  {
    Below(|g|)
  }

  /** A walk along out-edges that stays inside `ok`. */
  ghost predicate IsPath(g: Layer, ok: set<int>, p: seq<int>) {
    && p != []
    && (forall i :: 0 <= i < |p| ==> 0 <= p[i] < |g| && p[i] in ok)
    && (forall i :: 0 <= i < |p| - 1 ==> p[i + 1] in g[p[i]])
  }

  /** b can be reached from a along nodes of `ok`. */
  ghost predicate Reach(g: Layer, ok: set<int>, a: int, b: int) {
    exists p :: IsPath(g, ok, p) && p[0] == a && p[|p| - 1] == b
  }

  lemma ReachSelf(g: Layer, ok: set<int>, a: int)
    requires 0 <= a < |g| && a in ok
    ensures Reach(g, ok, a, a)
  {
    assert IsPath(g, ok, [a]);
  }

  lemma ReachBack(g: Layer, ok: set<int>, a: int, b: int, c: int)
    requires 0 <= a < |g| && a in ok && b in g[a] && Reach(g, ok, b, c)
    ensures Reach(g, ok, a, c)
  {
    var p :| IsPath(g, ok, p) && p[0] == b && p[|p| - 1] == c;
    var r := [a] + p;
    assert forall i :: 0 < i < |r| ==> r[i] == p[i - 1];
    assert IsPath(g, ok, r);
  }

  lemma ReachOn(g: Layer, ok: set<int>, a: int, b: int, c: int)
    requires Reach(g, ok, a, b) && 0 <= c < |g| && c in ok && 0 <= b < |g| && c in g[b]
    ensures Reach(g, ok, a, c)
  {
    var p :| IsPath(g, ok, p) && p[0] == a && p[|p| - 1] == b;
    assert IsPath(g, ok, p + [c]);
  }

  lemma ReachStep(g: Layer, ok: set<int>, a: int, b: int)
    requires 0 <= a < |g| && a in ok && 0 <= b < |g| && b in ok && b in g[a]
    ensures Reach(g, ok, a, b)
  {
    ReachSelf(g, ok, b);
    ReachBack(g, ok, a, b, b);
  }

  lemma ReachTransitive(g: Layer, ok: set<int>, a: int, b: int, c: int)
    requires Reach(g, ok, a, b) && Reach(g, ok, b, c)
    ensures Reach(g, ok, a, c)
  {
    var p :| IsPath(g, ok, p) && p[0] == a && p[|p| - 1] == b;
    var r :| IsPath(g, ok, r) && r[0] == b && r[|r| - 1] == c;
    var t := p + r[1..];
    forall i | 0 <= i < |t| - 1 ensures t[i + 1] in g[t[i]] {
      if i >= |p| - 1 {
        var j := i - (|p| - 1);
        assert t[i] == r[j] && t[i + 1] == r[j + 1];
      } else {
        assert t[i] == p[i] && t[i + 1] == p[i + 1];
      }
    }
    assert IsPath(g, ok, t);
  }

  /** A set that contains a and is closed under the edges within `ok` contains all that a reaches. */
  lemma {:induction false} ReachInClosed(g: Layer, ok: set<int>, s: set<int>, p: seq<int>)
    requires IsPath(g, ok, p) && p[0] in s
    requires forall u, v :: u in s && 0 <= u < |g| && v in g[u] && 0 <= v < |g| && v in ok ==> v in s
    ensures p[|p| - 1] in s
    decreases |p|
  {
    if |p| > 1 {
      var r := p[1..];
      assert forall i :: 0 <= i < |r| ==> r[i] == p[i + 1];
      assert p[0 + 1] in g[p[0]];
      ReachInClosed(g, ok, s, r);
    }
  }

  ghost function Reachable(g: Layer, ok: set<int>, a: int): (s: set<int>)
    ensures forall b :: b in s <==> Reach(g, ok, a, b)
  {
    var s := set b | b in Nodes(g) && Reach(g, ok, a, b);
    assert forall b :: Reach(g, ok, a, b) ==> b in Nodes(g);
    s
  }
}
