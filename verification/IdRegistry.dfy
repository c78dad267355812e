/** The per-collection bijection between business ids and index labels. */
module IdRegistry {
  import opened Options

  type Label = int

  datatype Error = EmptyName | Mapping

  /** The white space characters of Unicode, which are those that `str.strip` removes. */
  predicate Space(c: char) {
    var n := c as int;
    || 0x09 <= n <= 0x0D || 0x1C <= n <= 0x20 || n == 0x85 || n == 0xA0 || n == 0x1680 || 0x2000 <= n <= 0x200A
    || n == 0x2028 || n == 0x2029 || n == 0x202F || n == 0x205F || n == 0x3000
  }

  function Strip(s: string): (r: string)
    ensures Trimmed(r)
    ensures Trimmed(s) ==> r == s
  {
    if s == "" then ""
    else if Space(s[0]) then Strip(s[1..])
    else if Space(s[|s| - 1]) then Strip(s[..|s| - 1])
    else s
  }

  predicate Trimmed(s: string) {
    s == "" || (!Space(s[0]) && !Space(s[|s| - 1]))
  }

  ghost predicate Blank(s: string) {
    forall i :: 0 <= i < |s| ==> Space(s[i])
  }

  /** Stripping takes white space off both ends and nothing else. */
  lemma {:induction false} StripExactly(s: string) returns (before: string, after: string)
    ensures s == before + Strip(s) + after && Blank(before) && Blank(after)
  {
    before, after := "", "";
    if s != "" {
      if Space(s[0]) {
        before, after := StripExactly(s[1..]);
        Around(s, [s[0]], before, Strip(s[1..]), after, []);
        before := [s[0]] + before;
      } else if Space(s[|s| - 1]) {
        before, after := StripExactly(s[..|s| - 1]);
        Around(s, [], before, Strip(s[..|s| - 1]), after, [s[|s| - 1]]);
        after := after + [s[|s| - 1]];
      }
    }
  }

  lemma Around(whole: string, a: string, before: string, s: string, after: string, b: string)
    requires Blank(before) && Blank(after) && Blank(a) && Blank(b)
    requires |a| + |b| <= |whole| && whole[..|a|] == a && whole[|whole| - |b|..] == b
    requires whole[|a|..|whole| - |b|] == before + s + after
    ensures whole == (a + before) + s + (after + b) && Blank(a + before) && Blank(after + b)
    ensures a == [] ==> a + before == before
    ensures b == [] ==> after + b == after
  {
    assert whole == a + (before + s + after) + b;
  }

  type Forward = map<string, Label>
  type Reverse = map<Label, string>

  /** One collection: two maps that are each other's inverse. */
  ghost predicate Bijection(f: Forward, r: Reverse) {
    && (forall e :: e in f ==> f[e] in r && r[f[e]] == e)
    && (forall l :: l in r ==> r[l] in f && f[r[l]] == l)
  }

  ghost predicate Injective(f: Forward) {
    forall a, b :: a in f && b in f && f[a] == f[b] ==> a == b
  }

  /** The dictionary comprehension that inverts a loaded map; of two ids with one label it keeps one. */
  ghost predicate Inverts(r: Reverse, f: Forward) {
    && (forall l :: l in r ==> r[l] in f && f[r[l]] == l)
    && (forall e :: e in f ==> f[e] in r)
  }

  lemma InverseOfInjective(f: Forward, r: Reverse)
    requires Inverts(r, f)
    ensures Bijection(f, r) <==> Injective(f)
  {
    forall l | l in r && Injective(f) ensures r[l] in f && f[r[l]] == l {
    }
    forall e | e in f && Injective(f) ensures r[f[e]] == e {
      assert f[r[f[e]]] == f[e];
    }
    if Bijection(f, r) {
      forall a, b | a in f && b in f && f[a] == f[b] ensures a == b {
        assert r[f[a]] == a && r[f[b]] == b;
      }
    }
  }

  method Invert(f: Forward) returns (r: Reverse)
    ensures Inverts(r, f)
  {
    r := map[];
    var todo := f.Keys;
    while todo != {}
      invariant todo <= f.Keys
      invariant forall l :: l in r ==> r[l] in f && f[r[l]] == l
      invariant forall e :: e in f && e !in todo ==> f[e] in r
      decreases |todo|
    {
      var e :| e in todo;
      r := r[f[e] := e];
      todo := todo - {e};
    }
  }

  /** `max(m.values())`. */
  method Greatest(f: Forward) returns (m: Label)
    requires f != map[]
    ensures (forall e :: e in f ==> f[e] <= m) && exists e :: e in f && f[e] == m
  {
    var todo := f.Keys;
    var first :| first in todo;
    m, todo := f[first], todo - {first};
    while todo != {}
      invariant todo <= f.Keys
      invariant forall e :: e in f && e !in todo ==> f[e] <= m
      invariant exists e :: e in f && f[e] == m
      decreases |todo|
    {
      var e :| e in todo;
      if f[e] > m {
        m := f[e];
      }
      todo := todo - {e};
    }
  }

  /** What `save` writes: the forward maps and the counters. */
  datatype Payload = Payload(collections: map<string, Forward>, nextLabel: map<string, Label>)

  /** What `load` needs of a file to give back a registry: injective maps, counters above every label. */
  ghost predicate Loadable(p: Payload) {
    forall c :: c in p.collections ==>
      Injective(p.collections[c]) && (c in p.nextLabel ==> Above(p.nextLabel[c], p.collections[c]))
  }

  /** One collection is in order: a bijection, and a counter above every label. */
  ghost predicate InOrder(f: Forward, r: Reverse, n: Label) {
    Bijection(f, r) && forall l :: l in r ==> l < n
  }

  predicate Uses(f: Forward, l: Label) {
    exists e :: e in f && f[e] == l
  }

  datatype Entry = Entry(result: Result<Label, Error>, ids: Forward, counter: Label)

  /** What `register` does to one collection. */
  function Registered(f: Forward, n: Label, e: string, wanted: Option<Label>): (x: Entry) {
    if e in f then
      Entry(if wanted.Some? && wanted.value != f[e] then Err(Mapping) else Ok(f[e]), f, n)
    else
      match wanted
      case None => Entry(Ok(n), f[e := n], n + 1)
      case Some(l) =>
        if Uses(f, l) then Entry(Err(Mapping), f, n)
        else Entry(Ok(l), f[e := l], if n > l + 1 then n else l + 1)
  }

  /**
   * An id keeps its label and no other id gets it; a label asked for is given or refused, never replaced, and an
   * automatic one is the counter, above every label in use. The counter only ever passes the label handed out.
   */
  lemma RegisterFresh(f: Forward, n: Label, e: string, wanted: Option<Label>)
    requires Injective(f) && forall x :: x in f ==> f[x] < n
    ensures var x := Registered(f, n, e, wanted);
            && Injective(x.ids) && (forall y :: y in x.ids ==> x.ids[y] < x.counter) && x.counter >= n
            && (forall y :: y in f ==> y in x.ids && x.ids[y] == f[y])
            && (x.result.Ok? ==> e in x.ids && x.ids[e] == x.result.value)
            && (wanted == None && e !in f ==> x.result.Ok? && forall y :: y in f ==> f[y] < x.result.value)
            && (x.result.Ok? <==>
                  wanted == None || if e in f then f[e] == wanted.value else forall y :: y in f ==> f[y] != wanted.value)
            && (x.result.Ok? && wanted.Some? ==> x.result.value == wanted.value)
            && (x.result.Ok? && wanted == None && e !in f ==> x.result.value == n)
            && (x.result.Ok? && e !in f ==> x.counter == n || x.counter == x.result.value + 1)
            && (forall y :: y in x.ids && y != e ==> y in f)
            && (x.result.Err? || e in f ==> x.ids == f && x.counter == n)
            && (x.result.Err? ==> x.result.error == Mapping)
  {
  }

  // ----- the life of a collection ---------------------------------------------------

  datatype Op = Reg(id: string, wanted: Option<Label>) | Forget(id: string) | SaveAndLoad

  /** Saving and loading keep the ids and the counter, as `Save` and `Load` below guarantee. */
  function Apply(f: Forward, n: Label, op: Op): (x: Entry) {
    match op
    case Reg(e, wanted) => Registered(f, n, e, wanted)
    case Forget(e) => if e in f then Entry(Ok(f[e]), f - {e}, n) else Entry(Err(Mapping), f, n)
    case SaveAndLoad => Entry(Ok(n), f, n)
  }

  ghost predicate IsLife(xs: seq<Entry>, ops: seq<Op>) {
    && |xs| == |ops| + 1 && xs[0].ids == map[] && xs[0].counter == 0
    && forall k :: 0 <= k < |ops| ==> xs[k + 1] == Apply(xs[k].ids, xs[k].counter, ops[k])
  }

  lemma {:induction false} LifeInOrder(xs: seq<Entry>, ops: seq<Op>, i: nat, j: nat)
    requires IsLife(xs, ops) && i <= j < |xs|
    ensures Injective(xs[j].ids) && Above(xs[j].counter, xs[j].ids) && xs[i].counter <= xs[j].counter
  {
    if j > 0 {
      LifeInOrder(xs, ops, if i < j then i else j - 1, j - 1);
      assert xs[j] == Apply(xs[j - 1].ids, xs[j - 1].counter, ops[j - 1]);
      if ops[j - 1].Reg? {
        RegisterFresh(xs[j - 1].ids, xs[j - 1].counter, ops[j - 1].id, ops[j - 1].wanted);
      }
    }
  }

  /**
   * An automatic label is greater than every label ever returned for the collection, whatever has been
   * registered, dropped, saved and loaded in between.
   */
  lemma LabelsNeverReused(xs: seq<Entry>, ops: seq<Op>, i: nat, j: nat)
    requires IsLife(xs, ops) && i < j < |ops|
    requires ops[i].Reg? && xs[i + 1].result.Ok?
    requires ops[j].Reg? && ops[j].wanted == None && ops[j].id !in xs[j].ids
    ensures xs[j + 1].result.Ok? && xs[j + 1].result.value > xs[i + 1].result.value
  {
    LifeInOrder(xs, ops, i, i);
    LifeInOrder(xs, ops, i + 1, j);
    assert xs[i + 1] == Apply(xs[i].ids, xs[i].counter, ops[i]);
    RegisterFresh(xs[i].ids, xs[i].counter, ops[i].id, ops[i].wanted);
    assert xs[j + 1] == Apply(xs[j].ids, xs[j].counter, ops[j]);
  }

  lemma InOrderAdd(f: Forward, r: Reverse, n: Label, e: string, l: Label, n': Label)
    requires InOrder(f, r, n) && e !in f && l !in r && n' >= n && n' > l
    ensures InOrder(f[e := l], r[l := e], n') && !Uses(f, l)
  {
  }

  lemma InOrderDrop(f: Forward, r: Reverse, n: Label, e: string)
    requires InOrder(f, r, n) && e in f
    ensures InOrder(f - {e}, r - {f[e]}, n)
  {
  }

  class CollectionIdRegistry {
    var forward: map<string, Forward>
    var reverse: map<string, Reverse>
    var nextLabel: map<string, Label>

    ghost predicate Valid()
      reads this
    {
      && forward.Keys == reverse.Keys <= nextLabel.Keys
      && (forall c :: c in forward ==> InOrder(forward[c], reverse[c], nextLabel[c]))
    }

    constructor ()
      ensures Valid() && forward == map[] && nextLabel == map[]
    {
      forward, reverse, nextLabel := map[], map[], map[];
    }

    /** The ids of one collection. */
    function Ids(coll: string): (f: Forward)
      reads this
    {
      if coll in forward then forward[coll] else map[]
    }

    function Counter(coll: string): (n: Label)
      reads this
    {
      if coll in nextLabel then nextLabel[coll] else 0
    }

    method EnsureCollection(collection: string) returns (r: Result<string, Error>)
      requires Valid()
      modifies this
      ensures Valid()
      ensures r == if Strip(collection) == "" then Err(EmptyName) else Ok(Strip(collection))
      ensures forall c :: Ids(c) == old(Ids(c)) && Counter(c) == old(Counter(c))
      ensures r.Ok? ==> r.value in forward
      ensures forall c :: c in old(nextLabel) ==> c in nextLabel
    {
      var coll := Strip(collection);
      if coll == "" {
        return Err(EmptyName);
      }
      if coll !in forward {
        forward, reverse := forward[coll := map[]], reverse[coll := map[]];
      }
      if coll !in nextLabel {
        nextLabel := nextLabel[coll := 0];
      }
      r := Ok(coll);
    }

    method Register(collection: string, externalId: string, wanted: Option<Label>) returns (r: Result<Label, Error>)
      requires Valid()
      modifies this
      ensures Valid()
      ensures var c, e := Strip(collection), Strip(externalId);
              if c == "" || e == "" then r == Err(EmptyName) && Ids(c) == old(Ids(c)) && Counter(c) == old(Counter(c))
              else Entry(r, Ids(c), Counter(c)) == Registered(old(Ids(c)), old(Counter(c)), e, wanted)
      ensures forall c :: c != Strip(collection) ==> Ids(c) == old(Ids(c)) && Counter(c) == old(Counter(c))
    {
      var coll, ext := Strip(collection), Strip(externalId);
      if coll == "" || ext == "" {
        return Err(EmptyName);
      }
      var _ := EnsureCollection(coll);
      r := Allot(coll, ext, wanted);
    }

    method Allot(coll: string, ext: string, wanted: Option<Label>) returns (r: Result<Label, Error>)
      requires Valid() && coll in forward
      modifies this
      ensures Valid()
      ensures Entry(r, Ids(coll), Counter(coll)) == Registered(old(Ids(coll)), old(Counter(coll)), ext, wanted)
      ensures forall c :: c != coll ==> Ids(c) == old(Ids(c)) && Counter(c) == old(Counter(c))
    {
      var f, rev, n := forward[coll], reverse[coll], nextLabel[coll];
      assert InOrder(f, rev, n);
      if ext in f {
        return if wanted.Some? && wanted.value != f[ext] then Err(Mapping) else Ok(f[ext]);
      }
      var l := n;
      if wanted.Some? {
        l := wanted.value;
        if l in rev {
          assert f[rev[l]] == l;
          return Err(Mapping);
        }
      }
      var next := if n > l + 1 then n else l + 1;
      InOrderAdd(f, rev, n, ext, l, next);
      Assign(coll, f[ext := l], rev[l := ext], next);
      r := Ok(l);
    }

    /** Replaces the maps and the counter of one collection. */
    method Assign(coll: string, f: Forward, rev: Reverse, n: Label)
      requires Valid() && InOrder(f, rev, n)
      modifies this
      ensures Valid() && Ids(coll) == f && Counter(coll) == n
      ensures forall c :: c != coll ==> Ids(c) == old(Ids(c)) && Counter(c) == old(Counter(c))
    {
      forward, reverse, nextLabel := forward[coll := f], reverse[coll := rev], nextLabel[coll := n];
    }

    method Resolve(collection: string, externalId: string) returns (r: Result<Label, Error>)
      requires Valid()
      ensures var c, e := Strip(collection), Strip(externalId);
              r == if c == "" || e == "" then Err(EmptyName)
                   else if e in Ids(c) then Ok(Ids(c)[e]) else Err(Mapping)
    {
      var coll, ext := Strip(collection), Strip(externalId);
      if coll == "" || ext == "" {
        return Err(EmptyName);
      }
      r := if coll in forward && ext in forward[coll] then Ok(forward[coll][ext]) else Err(Mapping);
    }

    /** `external_of`: the inverse of `Resolve`. */
    method ExternalOf(collection: string, l: Label) returns (r: Result<string, Error>)
      requires Valid()
      ensures var c := Strip(collection);
              && (r.Ok? <==> c != "" && Uses(Ids(c), l))
              && (r.Ok? ==> r.value in Ids(c) && Ids(c)[r.value] == l)
              && (r.Err? ==> r.error == if c == "" then EmptyName else Mapping)
    {
      var coll := Strip(collection);
      if coll == "" {
        return Err(EmptyName);
      }
      if coll in forward {
        assert InOrder(forward[coll], reverse[coll], nextLabel[coll]);
        if l in reverse[coll] {
          assert forward[coll][reverse[coll][l]] == l;
          return Ok(reverse[coll][l]);
        }
      }
      r := Err(Mapping);
    }

    /** `drop`: the id is forgotten, its label is never handed out again. */
    method Drop(collection: string, externalId: string) returns (r: Result<Label, Error>)
      requires Valid()
      modifies this
      ensures Valid()
      ensures var c, e := Strip(collection), Strip(externalId);
              && (r.Ok? <==> c != "" && e != "" && e in old(Ids(c)))
              && (r.Ok? ==> r.value == old(Ids(c))[e] && Ids(c) == old(Ids(c)) - {e})
              && (c != "" && e != "" ==> Ids(c) == Apply(old(Ids(c)), old(Counter(c)), Forget(e)).ids
                                         && Counter(c) == Apply(old(Ids(c)), old(Counter(c)), Forget(e)).counter)
      ensures r.Err? ==> forall c :: Ids(c) == old(Ids(c))
      ensures forall c :: c != Strip(collection) ==> Ids(c) == old(Ids(c))
      ensures nextLabel == old(nextLabel)
    {
      r := Resolve(collection, externalId);
      if r.Ok? {
        var coll, ext := Strip(collection), Strip(externalId);
        InOrderDrop(forward[coll], reverse[coll], nextLabel[coll], ext);
        forward := forward[coll := forward[coll] - {ext}];
        reverse := reverse[coll := reverse[coll] - {r.value}];
      }
    }

    method Save() returns (p: Payload)
      requires Valid()
      ensures p == Payload(forward, nextLabel) && Loadable(p)
    {
      p := Payload(forward, nextLabel);
      forall c | c in p.collections ensures Injective(p.collections[c]) {
        assert InOrder(forward[c], reverse[c], nextLabel[c]);
      }
    }

    /** `load`: gives a registry back exactly for the payloads that are `Loadable`. */
    method Load(p: Payload)
      modifies this
      ensures Valid() <==> Loadable(p)
      ensures forward == p.collections
      ensures forall c :: c in p.nextLabel ==> c in nextLabel && nextLabel[c] == p.nextLabel[c]
      ensures forall c :: c in p.collections && c !in p.nextLabel ==> c in nextLabel && JustAbove(nextLabel[c], forward[c])
    {
      forward, nextLabel := p.collections, p.nextLabel;
      InvertAll();
      CountAll(p);
      forall c | c in forward
        ensures InOrder(forward[c], reverse[c], nextLabel[c])
           <==> Injective(forward[c]) && Above(nextLabel[c], forward[c])
      {
        InverseOfInjective(forward[c], reverse[c]);
        SameBound(forward[c], reverse[c], nextLabel[c]);
      }
    }

    method InvertAll()
      modifies this`reverse
      ensures reverse.Keys == forward.Keys
      ensures forall c :: c in forward ==> Inverts(reverse[c], forward[c])
    {
      reverse := map[];
      var todo := forward.Keys;
      while todo != {}
        invariant todo <= forward.Keys && reverse.Keys == forward.Keys - todo
        invariant forall c :: c in reverse ==> Inverts(reverse[c], forward[c])
        decreases |todo|
      {
        var c :| c in todo;
        var inverse := Invert(forward[c]);
        reverse, todo := reverse[c := inverse], todo - {c};
      }
    }

    /** `setdefault` of the counters that the file does not have. */
    method CountAll(p: Payload)
      requires forward == p.collections && nextLabel == p.nextLabel
      modifies this`nextLabel
      ensures forall c :: c in p.nextLabel ==> c in nextLabel && nextLabel[c] == p.nextLabel[c]
      ensures forall c :: c in forward ==> c in nextLabel && (c !in p.nextLabel ==> JustAbove(nextLabel[c], forward[c]))
    {
      var todo := forward.Keys;
      while todo != {}
        invariant todo <= forward.Keys
        invariant forall c :: c in p.nextLabel ==> c in nextLabel && nextLabel[c] == p.nextLabel[c]
        invariant forall c :: c in forward && c !in todo ==>
                    c in nextLabel && (c !in p.nextLabel ==> JustAbove(nextLabel[c], forward[c]))
        invariant forall c :: c in todo && c in nextLabel ==> c in p.nextLabel
        decreases |todo|
      {
        var c :| c in todo;
        if c !in nextLabel {
          var n := 0;
          if forward[c] != map[] {
            var m := Greatest(forward[c]);
            n := m + 1;
          }
          nextLabel := nextLabel[c := n];
        }
        todo := todo - {c};
      }
    }
  }

  ghost predicate Above(n: Label, f: Forward) {
    forall e :: e in f ==> f[e] < n
  }

  /** The least counter above every label: one past the greatest, or 0 without labels. */
  ghost predicate JustAbove(n: Label, f: Forward) {
    Above(n, f) && if f == map[] then n == 0 else exists e :: e in f && f[e] == n - 1
  }

  lemma SameBound(f: Forward, r: Reverse, n: Label)
    requires Inverts(r, f)
    ensures (forall l :: l in r ==> l < n) <==> Above(n, f)
  {
    if Above(n, f) {
      forall l | l in r ensures l < n {
        assert f[r[l]] == l;
      }
    }
  }
}
