/** Facts about label lists shared by the models of the index and of the control plane. */
module Seqs {

  ghost predicate NoDup<T(!new)>(s: seq<T>) {
    forall i, j :: 0 <= i < j < |s| ==> s[i] != s[j]
  }

  /** `std::remove` followed by `erase`: every occurrence of `x` goes, the rest keep their order. */
  function Without(s: seq<int>, x: int): (r: seq<int>)
    ensures |r| <= |s| && x !in r
    ensures forall y :: y != x ==> (y in r <==> y in s)
    ensures x !in s ==> r == s
  {
    if s == [] then []
    else
      assert forall y :: y in s <==> y == s[0] || y in s[1..];
      var rest := Without(s[1..], x);
      if s[0] == x then rest else [s[0]] + rest
  }

  /** Removal works entry by entry: the rest keep their order and their number. */
  lemma {:induction false} WithoutConcat(a: seq<int>, b: seq<int>, x: int)
    ensures Without(a + b, x) == Without(a, x) + Without(b, x)
  {
    if a == [] {
      assert a + b == b;
    } else {
      assert (a + b)[1..] == a[1..] + b;
      WithoutConcat(a[1..], b, x);
    }
  }

  lemma WithoutOne(y: int, x: int)
    ensures Without([y], x) == if y == x then [] else [y]
  {
    assert [y][1..] == [];
  }

  /** Removing a label keeps a list duplicate-free, and then removes at most one element. */
  lemma {:induction false} WithoutNoDup(s: seq<int>, x: int)
    requires NoDup(s)
    ensures NoDup(Without(s, x))
    ensures |Without(s, x)| == if x in s then |s| - 1 else |s|
  {
    if s != [] {
      assert NoDup(s[1..]);
      WithoutNoDup(s[1..], x);
      assert s[0] !in s[1..];
      assert forall y :: y in s <==> y == s[0] || y in s[1..];
    }
  }

  /** `erase` at one position. */
  function EraseAt<T>(s: seq<T>, i: int): (r: seq<T>)
    requires 0 <= i < |s|
    ensures |r| == |s| - 1
    ensures forall j :: 0 <= j < |r| ==> r[j] == if j < i then s[j] else s[j + 1]
  {
    s[..i] + s[i + 1..]
  }

  lemma EraseAtElements<T(!new)>(s: seq<T>, i: int)
    requires 0 <= i < |s|
    ensures forall y :: y in EraseAt(s, i) ==> y in s
    ensures forall y :: y in s && y != s[i] ==> y in EraseAt(s, i)
    ensures NoDup(s) ==> NoDup(EraseAt(s, i)) && s[i] !in EraseAt(s, i)
  {
    forall y | y in s && y != s[i] ensures y in EraseAt(s, i) {
      var k :| 0 <= k < |s| && s[k] == y;
      assert EraseAt(s, i)[if k < i then k else k - 1] == y;
    }
  }

  /** Number of entries in all lists of a layer. */
  function SumLen(g: seq<seq<int>>): nat {
    if g == [] then 0 else SumLen(g[..|g| - 1]) + |g[|g| - 1]|
  }

  lemma {:induction false} SumLenUpdate(g: seq<seq<int>>, n: int, list: seq<int>)
    requires 0 <= n < |g|
    ensures SumLen(g[n := list]) == SumLen(g) - |g[n]| + |list|
  {
    var h := g[n := list];
    var k := |g| - 1;
    if n == k {
      assert h[..k] == g[..k];
    } else {
      assert h[..k] == g[..k][n := list];
      SumLenUpdate(g[..k], n, list);
    }
  }

  lemma SomeElement<T(!new)>(s: seq<T>)
    ensures s == [] || exists x :: x in s
  {
    if s != [] {
      assert s[0] in s;
    }
  }

  lemma SomeMember(s: set<int>)
    ensures s == {} || exists x :: x in s
  {
    if forall x :: x !in s {
      assert s == {};
    }
  }

  ghost function Elements<T(!new)>(s: seq<T>): set<T> {
    set x | x in s
  }

  lemma {:induction false} NoDupCardinality<T(!new)>(s: seq<T>)
    requires NoDup(s)
    ensures |Elements(s)| == |s|
  {
    if s != [] {
      var k := |s| - 1;
      NoDupCardinality(s[..k]);
      assert Elements(s) == Elements(s[..k]) + {s[k]};
      assert s[k] !in s[..k];
    }
  }

  /** A duplicate-free list whose elements all occur in another list is no longer than it. */
  lemma NoDupSubset<T(!new)>(s: seq<T>, t: seq<T>)
    requires NoDup(s)
    requires forall x :: x in s ==> x in t
    ensures |s| <= |t|
    ensures |s| == |t| && NoDup(t) ==> forall x :: x in t ==> x in s
  {
    NoDupCardinality(s);
    SetBound(t);
    assert Elements(s) <= Elements(t);
    SubsetCardinality(Elements(s), Elements(t));
    if |s| == |t| && NoDup(t) {
      NoDupCardinality(t);
      SubsetCardinality(Elements(s), Elements(t));
      assert Elements(s) == Elements(t);
      forall x | x in t ensures x in s {
        assert x in Elements(t);
      }
    }
  }

  lemma {:induction false} SetBound<T(!new)>(s: seq<T>)
    ensures |Elements(s)| <= |s|
  {
    if s != [] {
      var k := |s| - 1;
      SetBound(s[..k]);
      assert Elements(s) == Elements(s[..k]) + {s[k]};
    }
  }

  lemma SubsetCardinality<T>(a: set<T>, b: set<T>)
    requires a <= b
    ensures |a| <= |b|
    ensures |a| == |b| ==> a == b
  {
    assert b == a + (b - a);
    assert |b| == |a| + |b - a|;
    if |a| == |b| {
      assert b - a == {};
    }
  }

  /** A list as long as the set of its elements has no duplicates. */
  lemma {:induction false} CardinalityNoDup<T(!new)>(s: seq<T>)
    requires |Elements(s)| == |s|
    ensures NoDup(s)
  {
    if s != [] {
      var k := |s| - 1;
      var init := s[..k];
      assert Elements(s) == Elements(init) + {s[k]};
      SetBound(init);
      assert s[k] !in Elements(init);
      CardinalityNoDup(init);
      forall i, j | 0 <= i < j < |s| ensures s[i] != s[j] {
        if j == k {
          assert init[i] in init;
        } else {
          assert init[i] != init[j];
        }
      }
    }
  }
}
