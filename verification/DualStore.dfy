/** The authoritative matrix with its serving store, and the plain map that both stand for. */
module DualStore {
  import opened IdRegistry
  import opened Options

  type Vec = seq<real>

  type Points = map<string, Vec>

  predicate NonZero(v: Vec) {
    exists i :: 0 <= i < |v| && v[i] != 0.0
  }

  function Zeros(n: nat): (z: Vec)
    ensures |z| == n && !NonZero(z)
  {
    seq(n, i => 0.0)
  }

  /** One collection: its registry entry, the matrix with its two label maps, and the serving store. */
  datatype Store = Store(
    ids: Forward, next: Label,
    rows: seq<Vec>, rowOf: map<Label, nat>, extOf: map<Label, string>, deleted: set<Label>,
    points: Points)

  const EMPTY: Store := Store(map[], 0, [], map[], map[], {}, map[])

  /** Every label with a row has a name, and its row exists. */
  predicate Shape(s: Store) {
    && s.rowOf.Keys == s.extOf.Keys
    && forall l :: l in s.rowOf ==> s.rowOf[l] < |s.rows|
  }

  function RowOf(s: Store, l: Label): (v: Vec)
    requires Shape(s) && l in s.rowOf
  {
    s.rows[s.rowOf[l]]
  }

  // ----- the operations -------------------------------------------------------------

  /** One turn of the loop of `add`: the id is registered, its row written and its label revived. */
  function PutOne(s: Store, ext: string, v: Vec): (r: Store)
    requires Shape(s)
    ensures Shape(r) && r.points == s.points
  {
    var x := Registered(s.ids, s.next, Strip(ext), None);
    if x.result.Err? then s else Stored(s, x.ids, x.counter, x.result.value, ext, v)
  }

  /** `_append_row` and the label maps. */
  function Stored(s: Store, ids: Forward, next: Label, l: Label, ext: string, v: Vec): (r: Store)
    requires Shape(s)
    ensures Shape(r) && r.points == s.points
  {
    var t := s.(ids := ids, next := next, extOf := s.extOf[l := ext], deleted := s.deleted - {l});
    if l in s.rowOf then t.(rows := s.rows[s.rowOf[l] := v])
    else t.(rows := s.rows + [v], rowOf := s.rowOf[l := |s.rows|])
  }

  function PutAll(s: Store, exts: seq<string>, vecs: seq<Vec>, k: nat): (r: Store)
    requires Shape(s) && k <= |exts| && k <= |vecs|
    ensures Shape(r) && r.points == s.points
  {
    if k == 0 then s else PutOne(PutAll(s, exts, vecs, k - 1), exts[k - 1], vecs[k - 1])
  }

  /** `upsert_points`: of two entries with one id the later wins. */
  function Upserted(p: Points, exts: seq<string>, vecs: seq<Vec>, k: nat): (r: Points)
    requires k <= |exts| && k <= |vecs|
  {
    if k == 0 then p else Upserted(p, exts, vecs, k - 1)[exts[k - 1] := vecs[k - 1]]
  }

  /** The number of ids before the first blank one. */
  function Acceptable(exts: seq<string>): (k: nat)
    ensures k <= |exts|
    ensures forall i :: 0 <= i < k ==> Strip(exts[i]) != ""
    ensures k < |exts| ==> Strip(exts[k]) == ""
  {
    if exts == [] || Strip(exts[0]) == "" then 0 else 1 + Acceptable(exts[1..])
  }

  lemma AcceptsAll(exts: seq<string>)
    ensures Acceptable(exts) < |exts| <==> exists i :: 0 <= i < |exts| && Strip(exts[i]) == ""
  {
  }

  /** `add`: a blank id stops the batch before anything is upserted. */
  function Added(s: Store, exts: seq<string>, vecs: seq<Vec>): (r: Store)
    requires Shape(s) && |exts| == |vecs|
    ensures Shape(r)
  {
    var k := Acceptable(exts);
    var t := PutAll(s, exts, vecs, k);
    if k < |exts| then t else t.(points := Upserted(s.points, exts, vecs, k))
  }

  /** `hard_delete_label`, for a label that has a row. */
  function Wiped(s: Store, l: Label): (r: Store)
    requires Shape(s) && l in s.rowOf
    ensures Shape(r)
  {
    s.(rows := s.rows[s.rowOf[l] := Zeros(|RowOf(s, l)|)], deleted := s.deleted + {l}, points := s.points - {s.extOf[l]})
  }

  /** One id of `ErasureService.delete`: resolve, wipe, and forget the mapping if mappings are dropped. */
  function Erased(s: Store, ext: string, drop: bool): (r: Store)
    requires Shape(s)
    ensures Shape(r)
  {
    var e := Strip(ext);
    if e == "" || e !in s.ids || s.ids[e] !in s.rowOf then s
    else
      var t := Wiped(s, s.ids[e]);
      if drop then t.(ids := t.ids - {e}) else t
  }

  /** The rows that `compact` finds alive. */
  predicate Alive(s: Store, l: Label)
    requires Shape(s)
  {
    l in s.rowOf && l !in s.deleted && NonZero(RowOf(s, l))
  }

  ghost function AliveLabels(s: Store): (ls: set<Label>)
    requires Shape(s)
    ensures forall l :: l in ls <==> Alive(s, l)
  {
    set l | l in s.rowOf.Keys && Alive(s, l)
  }

  /** The points that `compact` may leave: each under the name of a live label, and a name for each of those. */
  ghost predicate Compacts(s: Store, p: Points)
    requires Shape(s)
  {
    && (forall l :: Alive(s, l) ==> s.extOf[l] in p)
    && (forall e :: e in p ==> exists l :: Alive(s, l) && s.extOf[l] == e && p[e] == RowOf(s, l))
  }

  // ----- what the two stores stand for ----------------------------------------------

  /** Every label has a row of its own. */
  ghost predicate OwnRows(s: Store) {
    Shape(s) && forall k, l :: k in s.rowOf && l in s.rowOf && s.rowOf[k] == s.rowOf[l] ==> k == l
  }

  predicate GoodId(ext: string) {
    ext != "" && Trimmed(ext)
  }

  /** Registered ids are trimmed. */
  ghost predicate GoodIds(ids: Forward) {
    forall e :: e in ids ==> GoodId(e)
  }

  /** The registry is in order and its counter above every label with a row. */
  ghost predicate Numbered(s: Store) {
    GoodIds(s.ids) && Injective(s.ids) && Above(s.next, s.ids) && forall l :: l in s.rowOf ==> l < s.next
  }

  /** A registered id has a row under its own name. */
  ghost predicate Named(s: Store) {
    Shape(s) && forall e :: e in s.ids ==> s.ids[e] in s.rowOf && s.extOf[s.ids[e]] == e
  }

  ghost predicate LiveRow(s: Store, l: Label)
    requires Shape(s) && l in s.rowOf
  {
    s.extOf[l] in s.ids && s.ids[s.extOf[l]] == l
  }

  /** A label that is not deleted is the label of its name; a deleted one has a row of zeros. */
  ghost predicate LiveOrDead(s: Store) {
    && Shape(s) && s.deleted <= s.rowOf.Keys
    && forall l :: l in s.rowOf ==> if l in s.deleted then !NonZero(RowOf(s, l)) else LiveRow(s, l)
  }

  /** The labels of one collection, whatever the serving store holds. */
  ghost predicate Rows(s: Store) {
    OwnRows(s) && Numbered(s) && Named(s) && LiveOrDead(s)
  }

  /** The matrix read as a plain map. */
  function Plain(s: Store): (p: Points)
    requires Shape(s)
  {
    map e | e in s.ids && s.ids[e] in s.rowOf && s.ids[e] !in s.deleted :: RowOf(s, s.ids[e])
  }

  ghost predicate AllNonZero(p: Points) {
    forall e :: e in p ==> NonZero(p[e])
  }

  /** The serving store and the matrix stand for the plain map p, and a rebuild would find all of it. */
  ghost predicate Refines(s: Store, p: Points) {
    Rows(s) && s.points == p && Plain(s) == p && AllNonZero(p)
  }

  /** Only the row of label l changes. */
  ghost predicate OtherRowsKept(s: Store, r: Store, l: Label)
    requires Shape(s) && Shape(r)
  {
    forall k :: k in s.rowOf && k != l ==> k in r.rowOf && RowOf(r, k) == RowOf(s, k) && r.extOf[k] == s.extOf[k]
  }

  lemma StoredRows(s: Store, ids: Forward, next: Label, l: Label, ext: string, v: Vec)
    requires OwnRows(s)
    ensures var r := Stored(s, ids, next, l, ext, v);
            && OwnRows(r) && OtherRowsKept(s, r, l) && r.rowOf.Keys == s.rowOf.Keys + {l}
            && RowOf(r, l) == v && r.extOf[l] == ext
  {
  }

  /** The label is new, or it is the label the id has. */
  ghost predicate Fits(s: Store, ext: string, l: Label) {
    GoodId(ext) && if ext in s.ids then s.ids[ext] == l else l == s.next
  }

  lemma StoredLive(s: Store, next: Label, l: Label, ext: string, v: Vec)
    requires OwnRows(s) && Injective(s.ids) && LiveOrDead(s) && Fits(s, ext, l)
    ensures LiveOrDead(Stored(s, s.ids[ext := l], next, l, ext, v))
  {
    var r := Stored(s, s.ids[ext := l], next, l, ext, v);
    StoredRows(s, s.ids[ext := l], next, l, ext, v);
    forall k | k in r.rowOf
      ensures if k in r.deleted then !NonZero(RowOf(r, k)) else LiveRow(r, k)
    {
      if k != l {
        assert k in s.rowOf;
        assert k !in s.deleted ==> LiveRow(s, k) && s.extOf[k] != ext;
      }
    }
  }

  lemma StoredKeeps(s: Store, next: Label, l: Label, ext: string, v: Vec)
    requires Rows(s) && Fits(s, ext, l) && next >= s.next && next > l
    ensures Rows(Stored(s, s.ids[ext := l], next, l, ext, v))
  {
    StoredRows(s, s.ids[ext := l], next, l, ext, v);
    StoredNamed(s, next, l, ext, v);
    StoredNumbered(s, next, l, ext, v);
    StoredLive(s, next, l, ext, v);
  }

  lemma StoredNumbered(s: Store, next: Label, l: Label, ext: string, v: Vec)
    requires Shape(s) && Numbered(s) && Fits(s, ext, l) && next >= s.next && next > l
    ensures Numbered(Stored(s, s.ids[ext := l], next, l, ext, v))
  {
  }

  lemma StoredNamed(s: Store, next: Label, l: Label, ext: string, v: Vec)
    requires Named(s) && Injective(s.ids) && Above(s.next, s.ids) && Fits(s, ext, l)
    ensures Named(Stored(s, s.ids[ext := l], next, l, ext, v))
  {
    var r := Stored(s, s.ids[ext := l], next, l, ext, v);
    assert r.rowOf.Keys == s.rowOf.Keys + {l} && r.extOf == s.extOf[l := ext];
    forall e | e in r.ids ensures r.ids[e] in r.rowOf && r.extOf[r.ids[e]] == e {
      if e != ext {
        assert e in s.ids && s.ids[e] != l;
      }
    }
  }

  lemma StoredPlain(s: Store, next: Label, l: Label, ext: string, v: Vec)
    requires OwnRows(s) && Numbered(s) && Named(s) && Fits(s, ext, l)
    ensures Plain(Stored(s, s.ids[ext := l], next, l, ext, v)) == Plain(s)[ext := v]
  {
    StoredRows(s, s.ids[ext := l], next, l, ext, v);
    MoreOfMap(s, Stored(s, s.ids[ext := l], next, l, ext, v), l, ext);
  }

  lemma MoreOfMap(s: Store, t: Store, l: Label, ext: string)
    requires Shape(s) && Shape(t) && OtherRowsKept(s, t, l) && t.rowOf.Keys == s.rowOf.Keys + {l}
    requires t.ids == s.ids[ext := l] && t.deleted == s.deleted - {l}
    requires forall e :: e in s.ids && e != ext ==> s.ids[e] != l && s.ids[e] in s.rowOf
    ensures Plain(t) == Plain(s)[ext := RowOf(t, l)]
  {
    var a, b := Plain(t), Plain(s)[ext := RowOf(t, l)];
    assert a.Keys == b.Keys;
    forall e | e in b && e != ext ensures a[e] == b[e] {
      assert RowOf(t, s.ids[e]) == RowOf(s, s.ids[e]);
    }
  }

  lemma PutKeeps(s: Store, ext: string, v: Vec)
    requires Rows(s) && GoodId(ext)
    ensures Rows(PutOne(s, ext, v)) && Plain(PutOne(s, ext, v)) == Plain(s)[ext := v]
  {
    var x := Registered(s.ids, s.next, ext, None);
    var l := x.result.value;
    assert x.ids == s.ids[ext := l] && Fits(s, ext, l);
    assert x.counter >= s.next && x.counter > l;
    StoredKeeps(s, x.counter, l, ext, v);
    StoredPlain(s, x.counter, l, ext, v);
  }

  /** The matrix stands for p. */
  ghost predicate Holds(s: Store, p: Points) {
    Rows(s) && Plain(s) == p
  }

  lemma PutHolds(s: Store, ext: string, v: Vec, p: Points)
    requires Shape(s) && GoodId(ext)
    ensures Holds(s, p) ==> Holds(PutOne(s, ext, v), p[ext := v])
  {
    if Holds(s, p) {
      PutKeeps(s, ext, v);
    }
  }

  /** The matrix stands for the plain map after k entries of the batch. */
  ghost predicate HoldsAfter(s: Store, exts: seq<string>, vecs: seq<Vec>, p: Points, k: nat) {
    && Shape(s) && k <= |exts| == |vecs|
    && Holds(PutAll(s, exts, vecs, k), Upserted(p, exts, vecs, k))
  }

  /** Entry k of the batch keeps it so. */
  ghost predicate NextHolds(s: Store, exts: seq<string>, vecs: seq<Vec>, p: Points, k: nat) {
    HoldsAfter(s, exts, vecs, p, k) ==> HoldsAfter(s, exts, vecs, p, k + 1)
  }

  lemma GoodIdHolds(s: Store, exts: seq<string>, vecs: seq<Vec>, k: nat, p: Points)
    requires k < |exts| == |vecs| && GoodId(exts[k])
    ensures NextHolds(s, exts, vecs, p, k)
  {
    if HoldsAfter(s, exts, vecs, p, k) {
      PutHolds(PutAll(s, exts, vecs, k), exts[k], vecs[k], Upserted(p, exts, vecs, k));
    }
  }

  lemma AllHold(s: Store, exts: seq<string>, vecs: seq<Vec>, p: Points, n: nat)
    requires HoldsAfter(s, exts, vecs, p, 0) && forall k: nat :: k < n ==> NextHolds(s, exts, vecs, p, k)
    ensures HoldsAfter(s, exts, vecs, p, n)
  {
    var k := 0;
    while k < n
      invariant 0 <= k <= n
      invariant HoldsAfter(s, exts, vecs, p, k)
    {
      assert NextHolds(s, exts, vecs, p, k);
      k := k + 1;
    }
  }

  lemma PutAllKeeps(s: Store, exts: seq<string>, vecs: seq<Vec>, p: Points, n: nat)
    requires Holds(s, p) && n <= |exts| == |vecs| && forall i :: 0 <= i < n ==> GoodId(exts[i])
    ensures HoldsAfter(s, exts, vecs, p, n)
  {
    forall k: nat | k < n ensures NextHolds(s, exts, vecs, p, k) {
      GoodIdHolds(s, exts, vecs, k, p);
    }
    AllHold(s, exts, vecs, p, n);
  }

  /** The serving store has no part in what the matrix stands for. */
  lemma SamePlain(s: Store, p: Points)
    requires Rows(s)
    ensures Rows(s.(points := p)) && Plain(s.(points := p)) == Plain(s)
  {
  }

  // ----- exactly when `add` refines the plain map -----------------------------------

  /** No later entry of the batch has the same id. */
  ghost predicate LastOf(exts: seq<string>, i: nat, k: nat) {
    i < k <= |exts| && forall j :: i < j < k ==> exts[j] != exts[i]
  }

  /** Ids neither blank nor padded, and the vector that remains for each id not all zero. */
  ghost predicate GoodBatch(exts: seq<string>, vecs: seq<Vec>) {
    && |exts| == |vecs|
    && (forall i :: 0 <= i < |exts| ==> GoodId(exts[i]))
    && (forall i :: 0 <= i < |exts| && LastOf(exts, i, |exts|) ==> NonZero(vecs[i]))
  }

  /** What a batch leaves in a plain map: its last vector for each of its ids, and all the rest. */
  lemma {:induction false} UpsertedAt(p: Points, exts: seq<string>, vecs: seq<Vec>, k: nat, e: string)
    requires k <= |exts| == |vecs|
    ensures e in Upserted(p, exts, vecs, k) <==> e in p || e in exts[..k]
    ensures e !in exts[..k] && e in p ==> Upserted(p, exts, vecs, k)[e] == p[e]
    ensures forall i :: 0 <= i < k && exts[i] == e && LastOf(exts, i, k) ==> Upserted(p, exts, vecs, k)[e] == vecs[i]
    ensures e in exts[..k] ==> exists i :: 0 <= i < k && exts[i] == e && LastOf(exts, i, k)
  {
    if k > 0 {
      UpsertedAt(p, exts, vecs, k - 1, e);
      assert exts[..k] == exts[..k - 1] + [exts[k - 1]];
      forall i | 0 <= i < k && exts[i] == e && LastOf(exts, i, k) ensures Upserted(p, exts, vecs, k)[e] == vecs[i] {
        assert i < k - 1 ==> exts[k - 1] != exts[i] && LastOf(exts, i, k - 1);
      }
      if e == exts[k - 1] {
        assert LastOf(exts, k - 1, k);
      } else if e in exts[..k] {
        var i :| 0 <= i < k - 1 && exts[i] == e && LastOf(exts, i, k - 1);
        assert LastOf(exts, i, k);
      }
    }
  }

  /** The plain map keeps no zero vector exactly when the last vectors of the batch are not zero. */
  lemma UpsertedNonZero(p: Points, exts: seq<string>, vecs: seq<Vec>)
    requires AllNonZero(p) && |exts| == |vecs|
    ensures AllNonZero(Upserted(p, exts, vecs, |exts|)) <==>
              forall i :: 0 <= i < |exts| && LastOf(exts, i, |exts|) ==> NonZero(vecs[i])
  {
    var n := |exts|;
    var r := Upserted(p, exts, vecs, n);
    assert exts[..n] == exts;
    forall i | 0 <= i < n && LastOf(exts, i, n) ensures exts[i] in r && r[exts[i]] == vecs[i] {
      UpsertedAt(p, exts, vecs, n, exts[i]);
    }
    forall e | e in r ensures e in exts || (e in p && r[e] == p[e]) {
      UpsertedAt(p, exts, vecs, n, e);
    }
    forall e | e in r && e in exts ensures exists i :: 0 <= i < n && exts[i] == e && LastOf(exts, i, n) {
      UpsertedAt(p, exts, vecs, n, e);
    }
  }

  /** Whatever is added, registered ids are trimmed. */
  lemma {:induction false} PutAllGoodIds(s: Store, exts: seq<string>, vecs: seq<Vec>, k: nat)
    requires Shape(s) && GoodIds(s.ids) && k <= |exts| == |vecs| && k <= Acceptable(exts)
    ensures GoodIds(PutAll(s, exts, vecs, k).ids)
  {
    if k > 0 {
      PutAllGoodIds(s, exts, vecs, k - 1);
      PutGoodIds(PutAll(s, exts, vecs, k - 1), exts[k - 1], vecs[k - 1]);
    }
  }

  lemma PutGoodIds(s: Store, ext: string, v: Vec)
    requires Shape(s) && Strip(ext) != ""
    ensures GoodIds(s.ids) ==> GoodIds(PutOne(s, ext, v).ids)
  {
  }

  /**
   * Adding a batch is the same update of the plain map if and only if its ids are neither blank nor padded and the
   * last vector it gives for each id is not zero.
   */
  lemma AddRefines(s: Store, exts: seq<string>, vecs: seq<Vec>, p: Points)
    requires Refines(s, p) && |exts| == |vecs|
    ensures Refines(Added(s, exts, vecs), Upserted(p, exts, vecs, |exts|)) <==> GoodBatch(exts, vecs)
  {
    UpsertedNonZero(p, exts, vecs);
    if forall i :: 0 <= i < |exts| ==> GoodId(exts[i]) {
      GoodIdsAdded(s, exts, vecs, p);
    } else {
      var i :| 0 <= i < |exts| && !GoodId(exts[i]);
      BadIdLost(s, exts, vecs, p, i);
    }
  }

  lemma GoodIdsAdded(s: Store, exts: seq<string>, vecs: seq<Vec>, p: Points)
    requires Refines(s, p) && |exts| == |vecs| && forall i :: 0 <= i < |exts| ==> GoodId(exts[i])
    ensures var t, r := Added(s, exts, vecs), Upserted(p, exts, vecs, |exts|); Rows(t) && t.points == r && Plain(t) == r
  {
    var t, r := PutAll(s, exts, vecs, |exts|), Upserted(p, exts, vecs, |exts|);
    PutAllKeeps(s, exts, vecs, p, |exts|);
    assert Acceptable(exts) == |exts|;
    SamePlain(t, r);
  }

  /** A blank id stops a batch half-way: the ids before it are in the matrix, and none of the batch is served. */
  lemma BlankStops(s: Store, exts: seq<string>, vecs: seq<Vec>, p: Points)
    requires Refines(s, p) && |exts| == |vecs| && Acceptable(exts) < |exts|
    requires forall i :: 0 <= i < Acceptable(exts) ==> GoodId(exts[i])
    ensures var t := Added(s, exts, vecs);
            Rows(t) && t.points == p && Plain(t) == Upserted(p, exts, vecs, Acceptable(exts))
  {
    PutAllKeeps(s, exts, vecs, p, Acceptable(exts));
  }

  /** The matrix never stands for a blank or padded id. */
  lemma BadIdLost(s: Store, exts: seq<string>, vecs: seq<Vec>, p: Points, i: nat)
    requires Refines(s, p) && |exts| == |vecs| && i < |exts| && !GoodId(exts[i])
    ensures Plain(Added(s, exts, vecs)) != Upserted(p, exts, vecs, |exts|)
  {
    PutAllGoodIds(s, exts, vecs, Acceptable(exts));
    assert exts[i] in exts[..|exts|];
    UpsertedAt(p, exts, vecs, |exts|, exts[i]);
    assert exts[i] !in Plain(Added(s, exts, vecs));
  }

  lemma WipeRows(s: Store, l: Label)
    requires OwnRows(s) && l in s.rowOf
    ensures var t := Wiped(s, l);
            OwnRows(t) && OtherRowsKept(s, t, l) && t.rowOf == s.rowOf && t.extOf == s.extOf && !NonZero(RowOf(t, l))
  {
  }

  lemma WipePlain(s: Store, e: string)
    requires OwnRows(s) && Numbered(s) && Named(s) && e in s.ids
    ensures Plain(Wiped(s, s.ids[e])) == Plain(s) - {e}
  {
    var l := s.ids[e];
    WipeRows(s, l);
    RestOfMap(s, Wiped(s, l), e);
  }

  lemma RestOfMap(s: Store, t: Store, e: string)
    requires OwnRows(s) && Named(s) && Injective(s.ids) && e in s.ids && Shape(t) && OtherRowsKept(s, t, s.ids[e])
    requires t.ids == s.ids && t.rowOf.Keys == s.rowOf.Keys && t.deleted == s.deleted + {s.ids[e]}
    ensures Plain(t) == Plain(s) - {e}
  {
    var a, b := Plain(t), Plain(s) - {e};
    assert a.Keys == b.Keys;
    forall x | x in b ensures a[x] == b[x] {
      assert s.ids[x] != s.ids[e];
      assert RowOf(t, s.ids[x]) == RowOf(s, s.ids[x]);
    }
  }

  lemma WipeKeeps(s: Store, e: string)
    requires Rows(s) && e in s.ids
    ensures Rows(Wiped(s, s.ids[e]))
  {
    var l := s.ids[e];
    var t := Wiped(s, l);
    WipeRows(s, l);
    forall k | k in t.rowOf && k !in t.deleted ensures LiveRow(t, k) {
      assert k != l && LiveRow(s, k);
    }
    forall k | k in t.deleted ensures k in t.rowOf && !NonZero(RowOf(t, k)) {
      assert k != l ==> !NonZero(RowOf(s, k));
    }
  }

  /** Forgetting the id of a deleted label. */
  lemma ForgetKeeps(s: Store, e: string)
    requires Rows(s) && e in s.ids && s.ids[e] in s.deleted
    ensures Rows(s.(ids := s.ids - {e})) && Plain(s.(ids := s.ids - {e})) == Plain(s)
  {
    ForgetLive(s, e);
    ForgetPlain(s, e);
  }

  lemma ForgetLive(s: Store, e: string)
    requires LiveOrDead(s) && e in s.ids && s.ids[e] in s.deleted
    ensures LiveOrDead(s.(ids := s.ids - {e}))
  {
    var t := s.(ids := s.ids - {e});
    forall k | k in t.rowOf && k !in t.deleted ensures LiveRow(t, k) {
      assert LiveRow(s, k) && s.extOf[k] != e;
    }
  }

  lemma ForgetPlain(s: Store, e: string)
    requires Shape(s) && e in s.ids && s.ids[e] in s.deleted
    ensures Plain(s.(ids := s.ids - {e})) == Plain(s)
  {
    assert Plain(s.(ids := s.ids - {e})).Keys == Plain(s).Keys;
  }

  lemma EraseRefines(s: Store, ext: string, drop: bool, p: Points)
    requires Refines(s, p)
    ensures Refines(Erased(s, ext, drop), p - {Strip(ext)})
  {
    var e := Strip(ext);
    if e in s.ids {
      WipeKeeps(s, e);
      WipePlain(s, e);
      ForgetKeeps(Wiped(s, s.ids[e]), e);
    }
  }

  /** Rebuilding the serving store from the matrix changes nothing. */
  lemma CompactRefines(s: Store, q: Points, p: Points)
    requires Refines(s, p) && Compacts(s, q)
    ensures q == p
  {
    forall e | e in q ensures e in p && q[e] == p[e] {
      var l :| Alive(s, l) && s.extOf[l] == e && q[e] == RowOf(s, l);
    }
    forall e | e in p ensures e in q {
      assert Plain(s)[e] == RowOf(s, s.ids[e]);
      assert Alive(s, s.ids[e]);
    }
  }

  // ----- runs -----------------------------------------------------------------------

  datatype Op = Add(exts: seq<string>, vecs: seq<Vec>) | Erase(ext: string, drop: bool) | Compact

  ghost predicate Good(op: Op) {
    op.Add? ==> GoodBatch(op.exts, op.vecs)
  }

  ghost predicate Step(s: Store, op: Op, s': Store) {
    && Shape(s)
    && match op
       case Add(exts, vecs) => |exts| == |vecs| && s' == Added(s, exts, vecs)
       case Erase(ext, drop) => s' == Erased(s, ext, drop)
       case Compact => s' == s.(points := s'.points) && Compacts(s, s'.points)
  }

  /** The same operation on a plain map. */
  function OnMap(p: Points, op: Op): (r: Points) {
    match op
    case Add(exts, vecs) => if |exts| == |vecs| then Upserted(p, exts, vecs, |exts|) else p
    case Erase(ext, _) => p - {Strip(ext)}
    case Compact => p
  }

  function AllOnMap(ops: seq<Op>): (p: Points) {
    if ops == [] then map[] else OnMap(AllOnMap(ops[..|ops| - 1]), ops[|ops| - 1])
  }

  ghost predicate IsRun(ss: seq<Store>, ops: seq<Op>) {
    && |ss| == |ops| + 1 && ss[0] == EMPTY
    && forall i :: 0 <= i < |ops| ==> Step(ss[i], ops[i], ss[i + 1])
  }

  /**
   * After any run the serving store is the plain map of the ids added and not deleted since, with their last
   * vectors, the matrix agrees with it, and the row of every deleted label is zero.
   */
  lemma {:induction false} RunRefines(ss: seq<Store>, ops: seq<Op>)
    requires IsRun(ss, ops) && forall i :: 0 <= i < |ops| ==> Good(ops[i])
    ensures Refines(ss[|ops|], AllOnMap(ops))
  {
    if ops == [] {
      assert Plain(EMPTY) == map[];
    } else {
      var k := |ops| - 1;
      assert IsRun(ss[..k + 1], ops[..k]);
      RunRefines(ss[..k + 1], ops[..k]);
      var s, p := ss[k], AllOnMap(ops[..k]);
      match ops[k]
      case Add(exts, vecs) => AddRefines(s, exts, vecs, p);
      case Erase(ext, drop) => EraseRefines(s, ext, drop, p);
      case Compact => CompactRefines(s, ss[k + 1].points, p);
    }
  }

  /** Erased with its mapping: no id leads to the label and none ever will. */
  ghost predicate Retired(s: Store, l: Label) {
    l in s.deleted && l < s.next && !Uses(s.ids, l)
  }

  lemma EraseRetires(s: Store, ext: string)
    requires Rows(s) && Strip(ext) in s.ids
    ensures Retired(Erased(s, ext, true), s.ids[Strip(ext)])
  {
  }

  lemma PutKeepsRetired(s: Store, ext: string, v: Vec, l: Label)
    requires Shape(s) && Retired(s, l)
    ensures Retired(PutOne(s, ext, v), l)
  {
    var x := Registered(s.ids, s.next, Strip(ext), None);
    forall e | e in x.ids ensures x.ids[e] != l {
      assert e in s.ids ==> s.ids[e] != l;
    }
  }

  lemma {:induction false} PutAllKeepsRetired(s: Store, exts: seq<string>, vecs: seq<Vec>, k: nat, l: Label)
    requires Shape(s) && Retired(s, l) && k <= |exts| && k <= |vecs|
    ensures Retired(PutAll(s, exts, vecs, k), l)
  {
    if k > 0 {
      PutAllKeepsRetired(s, exts, vecs, k - 1, l);
      PutKeepsRetired(PutAll(s, exts, vecs, k - 1), exts[k - 1], vecs[k - 1], l);
    }
  }

  lemma StepKeepsRetired(s: Store, op: Op, s': Store, l: Label)
    requires Step(s, op, s') && Retired(s, l)
    ensures Retired(s', l)
  {
    match op
    case Add(exts, vecs) => PutAllKeepsRetired(s, exts, vecs, Acceptable(exts), l);
    case Erase(ext, drop) =>
      forall e | e in s'.ids ensures s'.ids[e] != l {
        assert e in s.ids;
      }
    case Compact =>
  }

  /** A label erased with its mapping stays deleted, and its row zero, for the rest of the run. */
  lemma {:induction false} ErasedForever(ss: seq<Store>, ops: seq<Op>, i: nat, j: nat)
    requires IsRun(ss, ops) && forall x :: 0 <= x < |ops| ==> Good(ops[x])
    requires i < j <= |ops| && ops[i].Erase? && ops[i].drop && Strip(ops[i].ext) in ss[i].ids
    ensures var l := ss[i].ids[Strip(ops[i].ext)];
            Retired(ss[j], l) && Shape(ss[j]) && l in ss[j].rowOf && !NonZero(RowOf(ss[j], l))
  {
    var l := ss[i].ids[Strip(ops[i].ext)];
    RowsAt(ss, ops, j);
    if j == i + 1 {
      RowsAt(ss, ops, i);
      assert Step(ss[i], ops[i], ss[j]);
      EraseRetires(ss[i], ops[i].ext);
    } else {
      ErasedForever(ss, ops, i, j - 1);
      StepKeepsRetired(ss[j - 1], ops[j - 1], ss[j], l);
    }
  }

  lemma RowsAt(ss: seq<Store>, ops: seq<Op>, i: nat)
    requires IsRun(ss, ops) && (forall x :: 0 <= x < |ops| ==> Good(ops[x])) && i < |ss|
    ensures Rows(ss[i])
  {
    RunRefines(ss[..i + 1], ops[..i]);
  }

  // ----- the two hypotheses are needed ----------------------------------------------

  /**
   * An id that is not trimmed: the registry knows it by its trimmed form, the serving store does not. Deleting
   * it leaves the vector that was served under the padded name.
   */
  lemma PaddedIdSurvives(u: Vec, v: Vec)
    requires NonZero(u) && NonZero(v)
    ensures var s1 := Added(EMPTY, [" a"], [u]); var s2 := Added(s1, ["a"], [v]); var s3 := Erased(s2, "a", true);
            s3.points == map[" a" := u] && s3.ids == map[]
  {
    assert Strip(" a") == Strip("a") == "a";
    var s1 := Added(EMPTY, [" a"], [u]);
    AddsOne(EMPTY, " a", u);
    assert s1.ids == map["a" := 0] && s1.points == map[" a" := u];
    var s2 := Added(s1, ["a"], [v]);
    AddsOne(s1, "a", v);
    assert s2.points == map[" a" := u, "a" := v] && s2.extOf[0] == "a";
    ErasesOnlyName(s2, "a", 0);
  }

  lemma AddsOne(s: Store, ext: string, v: Vec)
    requires Shape(s) && Strip(ext) != ""
    ensures Added(s, [ext], [v]) == PutOne(s, ext, v).(points := s.points[ext := v])
  {
    var exts, vecs := [ext], [v];
    assert exts[1..] == [] && Acceptable(exts) == 1 + Acceptable([]) == 1;
    assert PutAll(s, exts, vecs, 0) == s && Upserted(s.points, exts, vecs, 0) == s.points;
  }

  lemma ErasesOnlyName(s: Store, e: string, l: Label)
    requires Shape(s) && GoodId(e) && e in s.ids && s.ids[e] == l && l in s.rowOf && s.extOf[l] == e
    ensures Erased(s, e, true).points == s.points - {e} && Erased(s, e, true).ids == s.ids - {e}
  {
  }

  /** An embedding of zeros is served after `add` and gone after `compact`. */
  lemma ZeroVectorIsLost(n: nat, q: Points)
    requires Compacts(Added(EMPTY, ["a"], [Zeros(n)]), q)
    ensures Added(EMPTY, ["a"], [Zeros(n)]).points == map["a" := Zeros(n)] && q == map[]
  {
    assert Strip("a") == "a" && ["a"][1..] == [];
    assert PutAll(EMPTY, ["a"], [Zeros(n)], 1) == PutOne(EMPTY, "a", Zeros(n));
    assert Upserted(map[], ["a"], [Zeros(n)], 1) == Upserted(map[], ["a"], [Zeros(n)], 0)["a" := Zeros(n)];
    var s := Added(EMPTY, ["a"], [Zeros(n)]);
    assert forall l :: l in s.rowOf ==> l == 0 && RowOf(s, l) == Zeros(n);
  }

  // ----- the adapter ----------------------------------------------------------------

  /** `InMemoryQdrantClient`. */
  class InMemoryQdrantClient {
    var data: map<string, Points>

    constructor ()
      ensures data == map[]
    {
      data := map[];
    }

    function PointsOf(coll: string): (p: Points)
      reads this
    {
      if coll in data then data[coll] else map[]
    }

    method RecreateCollection(coll: string)
      modifies this
      ensures PointsOf(coll) == map[] && forall c :: c != coll ==> PointsOf(c) == old(PointsOf(c))
    {
      data := data[coll := map[]];
    }

    method UpsertPoints(coll: string, exts: seq<string>, vecs: seq<Vec>)
      requires |exts| == |vecs|
      modifies this
      ensures PointsOf(coll) == Upserted(old(PointsOf(coll)), exts, vecs, |exts|)
      ensures forall c :: c != coll ==> PointsOf(c) == old(PointsOf(c))
    {
      var p := PointsOf(coll);
      var i := 0;
      while i < |exts|
        invariant 0 <= i <= |exts| && p == Upserted(old(PointsOf(coll)), exts, vecs, i)
      {
        p := p[exts[i] := vecs[i]];
        i := i + 1;
      }
      data := data[coll := p];
    }

    method DeletePoint(coll: string, ext: string)
      modifies this
      ensures PointsOf(coll) == old(PointsOf(coll)) - {ext}
      ensures forall c :: c != coll ==> PointsOf(c) == old(PointsOf(c))
    {
      if coll in data {
        data := data[coll := data[coll] - {ext}];
      }
    }
  }

  datatype AddError = BadDimension | LengthMismatch | NoVectors | BlankId
  datatype AddResult = Labels(labels: seq<Label>) | Refused(error: AddError)

  /** The points gathered from the live labels other than those still to be looked at. */
  ghost predicate CompactsBut(s: Store, p: Points, todo: set<Label>)
    requires Shape(s)
  {
    && (forall l :: Alive(s, l) && l !in todo ==> s.extOf[l] in p)
    && (forall e :: e in p ==> exists l :: Alive(s, l) && s.extOf[l] == e && p[e] == RowOf(s, l))
  }

  lemma NoneSeen(s: Store)
    requires Shape(s)
    ensures CompactsBut(s, map[], s.rowOf.Keys) && AliveLabels(s) - s.rowOf.Keys == {}
  {
  }

  lemma SeeNext(s: Store, p: Points, todo: set<Label>, l: Label)
    requires Shape(s) && CompactsBut(s, p, todo) && l in todo
    ensures CompactsBut(s, if Alive(s, l) then p[s.extOf[l] := RowOf(s, l)] else p, todo - {l})
  {
    if Alive(s, l) {
      var r := p[s.extOf[l] := RowOf(s, l)];
      forall e | e in r ensures exists k :: Alive(s, k) && s.extOf[k] == e && r[e] == RowOf(s, k) {
        if e == s.extOf[l] {
          assert Alive(s, l) && s.extOf[l] == e && r[e] == RowOf(s, l);
        }
      }
    }
  }

  /** Each label is the one its id is registered under. */
  ghost predicate LabelsOf(ids: Forward, exts: seq<string>, labels: seq<Label>) {
    |labels| == |exts| && forall i :: 0 <= i < |exts| ==> Strip(exts[i]) in ids && ids[Strip(exts[i])] == labels[i]
  }

  lemma MoreLabels(ids: Forward, ids': Forward, exts: seq<string>, labels: seq<Label>, l: Label)
    requires |labels| < |exts| && LabelsOf(ids, exts[..|labels|], labels)
    requires Strip(exts[|labels|]) in ids' && ids'[Strip(exts[|labels|])] == l
    requires forall e :: e in ids ==> e in ids' && ids'[e] == ids[e]
    ensures LabelsOf(ids', exts[..|labels| + 1], labels + [l])
  {
    forall i | 0 <= i < |labels| + 1
      ensures Strip(exts[i]) in ids' && ids'[Strip(exts[i])] == (labels + [l])[i]
    {
      if i < |labels| {
        assert exts[..|labels|][i] == exts[i];
      }
    }
  }

  lemma CountNext(alive: set<Label>, todo: set<Label>, l: Label)
    requires l in todo
    ensures |alive - (todo - {l})| == |alive - todo| + if l in alive then 1 else 0
  {
    assert alive - (todo - {l}) == alive - todo + if l in alive then {l} else {};
  }

  /** What the loop of `compact` has gathered when the labels of `todo` are left. */
  ghost predicate Collected(s: Store, p: Points, n: nat, todo: set<Label>)
    requires Shape(s)
  {
    CompactsBut(s, p, todo) && n == |AliveLabels(s) - todo|
  }

  lemma CollectNext(s: Store, p: Points, n: nat, todo: set<Label>, l: Label)
    requires Shape(s) && Collected(s, p, n, todo) && l in todo
    ensures if Alive(s, l) then Collected(s, p[s.extOf[l] := RowOf(s, l)], n + 1, todo - {l})
            else Collected(s, p, n, todo - {l})
  {
    CountNext(AliveLabels(s), todo, l);
    SeeNext(s, p, todo, l);
  }

  lemma AllCollected(s: Store, p: Points, n: nat)
    requires Shape(s) && Collected(s, p, n, {})
    ensures Compacts(s, p) && n == |AliveLabels(s)|
  {
    assert AliveLabels(s) - {} == AliveLabels(s);
  }

  method AnyOf(labels: set<Label>) returns (l: Label)
    requires labels != {}
    ensures l in labels
  {
    SomeLabel(labels);
    l :| l in labels;
  }

  lemma SomeLabel(labels: set<Label>)
    ensures labels == {} || exists l :: l in labels
  {
    if forall l :: l !in labels {
      assert labels == {};
    }
  }

  lemma PutOneIds(s: Store, ext: string, v: Vec)
    requires Shape(s) && Strip(ext) != ""
    ensures var r, x := PutOne(s, ext, v), Registered(s.ids, s.next, Strip(ext), None);
            && r.ids == x.ids && x.result.Ok? && Strip(ext) in r.ids && r.ids[Strip(ext)] == x.result.value
            && forall e :: e in s.ids ==> e in r.ids && r.ids[e] == s.ids[e]
  {
  }

  /** `BackendEraseResult`, as far as the caller looks at it. */
  datatype EraseResult = EraseResult(success: bool, l: Label, bytes: nat)

  class QdrantHardDeleteAdapter {
    const dim: nat
    const collection: string
    const registry: CollectionIdRegistry
    const client: InMemoryQdrantClient
    var vectors: seq<Vec>
    var labelToRow: map<Label, nat>
    var labelToExt: map<Label, string>
    var deleted: set<Label>

    function View(): (s: Store)
      reads this, registry, client
    {
      Store(registry.Ids(collection), registry.Counter(collection), vectors, labelToRow, labelToExt, deleted,
            client.PointsOf(collection))
    }

    /** Only what the Python types guarantee; `Refines` is for the callers to keep. */
    ghost predicate Valid()
      reads this, registry, client
    {
      && collection != "" && Trimmed(collection) && registry.Valid() && Shape(View())
      && forall i :: 0 <= i < |vectors| ==> |vectors[i]| == dim
    }

    constructor (dim: nat, collection: string, registry: CollectionIdRegistry, client: InMemoryQdrantClient)
      requires dim > 0 && collection != "" && Trimmed(collection) && registry.Valid()
      requires registry.Ids(collection) == map[] && registry.Counter(collection) == 0
      modifies client
      ensures Valid() && View() == EMPTY && this.registry == registry && this.client == client
    {
      this.dim, this.collection, this.registry, this.client := dim, collection, registry, client;
      vectors, labelToRow, labelToExt, deleted := [], map[], map[], {};
      new;
      client.RecreateCollection(collection);
    }

    /** One turn of the loop of `add`. */
    method PutOneRow(ext: string, v: Vec) returns (r: Result<Label, IdRegistry.Error>)
      requires Valid() && |v| == dim
      modifies this, registry
      ensures Valid() && View() == if r.Ok? then PutOne(old(View()), ext, v) else old(View())
      ensures r.Ok? <==> Strip(ext) != ""
      ensures r.Ok? ==> Strip(ext) in View().ids && View().ids[Strip(ext)] == r.value
      ensures forall e :: e in old(View()).ids ==> e in View().ids && View().ids[e] == old(View()).ids[e]
    {
      r := registry.Register(collection, ext, None);
      if r.Ok? {
        WriteRow(r.value, ext, v);
        PutOneIds(old(View()), ext, v);
      }
    }

    /** `_append_row` and the label maps. */
    method WriteRow(l: Label, ext: string, v: Vec)
      requires Valid() && |v| == dim
      modifies this
      ensures Valid()
      ensures View() == Stored(old(View()), registry.Ids(collection), registry.Counter(collection), l, ext, v)
    {
      if l in labelToRow {
        vectors := vectors[labelToRow[l] := v];
      } else {
        labelToRow := labelToRow[l := |vectors|];
        vectors := vectors + [v];
      }
      labelToExt := labelToExt[l := ext];
      deleted := deleted - {l};
    }

    method Add(exts: seq<string>, vecs: seq<Vec>) returns (r: AddResult)
      requires Valid()
      modifies this, registry, client
      ensures Valid()
      ensures r.Refused? && !r.error.BlankId? ==> View() == old(View())
      ensures r.Labels? || r.error.BlankId? ==> |exts| == |vecs| && View() == Added(old(View()), exts, vecs)
      ensures r.Labels? ==> LabelsOf(View().ids, exts, r.labels) && Acceptable(exts) == |exts|
      ensures r.Refused? && r.error.BlankId? ==> Acceptable(exts) < |exts|
      ensures var bad := exists i :: 0 <= i < |vecs| && |vecs[i]| != dim;
              && (r == Refused(BadDimension) <==> bad)
              && (r == Refused(LengthMismatch) <==> !bad && |exts| != |vecs|)
              && (r == Refused(NoVectors) <==> !bad && |exts| == |vecs| == 0)
              && (r == Refused(BlankId) <==>
                    !bad && |exts| == |vecs| > 0 && exists i :: 0 <= i < |exts| && Strip(exts[i]) == "")
    {
      if i :| 0 <= i < |vecs| && |vecs[i]| != dim {
        return Refused(BadDimension);
      }
      if |exts| != |vecs| {
        return Refused(LengthMismatch);
      }
      if exts == [] {
        return Refused(NoVectors);
      }
      r := AddRows(exts, vecs);
    }

    method AddRows(exts: seq<string>, vecs: seq<Vec>) returns (r: AddResult)
      requires Valid() && |exts| == |vecs| > 0 && forall i :: 0 <= i < |vecs| ==> |vecs[i]| == dim
      modifies this, registry, client
      ensures Valid() && View() == Added(old(View()), exts, vecs)
      ensures r.Labels? ==> LabelsOf(View().ids, exts, r.labels) && Acceptable(exts) == |exts|
      ensures r.Refused? ==> r.error == BlankId && Acceptable(exts) < |exts|
      ensures r.Refused? <==> exists i :: 0 <= i < |exts| && Strip(exts[i]) == ""
    {
      var labels := PutRows(exts, vecs);
      AcceptsAll(exts);
      if |labels| < |exts| {
        return Refused(BlankId);
      }
      assert exts[..|labels|] == exts;
      client.UpsertPoints(collection, exts, vecs);
      r := Labels(labels);
    }

    /** The loop of `add`, up to the first blank id. */
    method PutRows(exts: seq<string>, vecs: seq<Vec>) returns (labels: seq<Label>)
      requires Valid() && |exts| == |vecs| && forall i :: 0 <= i < |vecs| ==> |vecs[i]| == dim
      modifies this, registry
      ensures Valid() && |labels| == Acceptable(exts) && LabelsOf(View().ids, exts[..|labels|], labels)
      ensures View() == PutAll(old(View()), exts, vecs, |labels|)
    {
      ghost var s := View();
      labels := [];
      while |labels| < |exts|
        invariant Valid() && |labels| <= Acceptable(exts)
        invariant View() == PutAll(s, exts, vecs, |labels|)
        invariant LabelsOf(View().ids, exts[..|labels|], labels)
        decreases |exts| - |labels|
      {
        AcceptableAt(exts, |labels|);
        ghost var ids := View().ids;
        var l := PutOneRow(exts[|labels|], vecs[|labels|]);
        if l.Err? {
          return;
        }
        MoreLabels(ids, View().ids, exts, labels, l.value);
        labels := labels + [l.value];
      }
    }

    /** `hard_delete_label`. */
    method HardDeleteLabel(l: Label) returns (r: EraseResult)
      requires Valid()
      modifies this, client
      ensures Valid()
      ensures r.success <==> l in old(labelToRow)
      ensures View() == if r.success then Wiped(old(View()), l) else old(View())
      ensures r.success ==> r.bytes == 4 * dim
      ensures r.success ==>
                && labelToRow == old(labelToRow) && labelToExt == old(labelToExt) && deleted == old(deleted) + {l}
                && vectors == old(vectors)[labelToRow[l] := Zeros(dim)]
                && View().points == old(View()).points - {labelToExt[l]} && View().ids == old(View()).ids
    {
      if l !in labelToRow {
        return EraseResult(false, l, 0);
      }
      var row := labelToRow[l];
      vectors := vectors[row := Zeros(|vectors[row]|)];
      deleted := deleted + {l};
      client.DeletePoint(collection, labelToExt[l]);
      r := EraseResult(true, l, 4 * dim);
    }

    method VerifyZeroed(l: Label) returns (zero: bool)
      requires Valid()
      ensures zero <==> l in labelToRow && !NonZero(RowOf(View(), l))
    {
      zero := l in labelToRow && !NonZero(vectors[labelToRow[l]]);
    }

    /** One id of `ErasureService.delete`, with this adapter as the backend. */
    method EraseId(ext: string, drop: bool) returns (erased: bool)
      requires Valid()
      modifies this, registry, client
      ensures Valid() && View() == Erased(old(View()), ext, drop)
      ensures erased <==> Strip(ext) != "" && Strip(ext) in old(View()).ids && old(View()).ids[Strip(ext)] in old(labelToRow)
      ensures View().ids == (if erased && drop then old(View()).ids - {Strip(ext)} else old(View()).ids)
      ensures View().next == old(View()).next
      ensures erased ==> var l := old(View()).ids[Strip(ext)];
                         l in deleted && l in labelToRow && labelToRow == old(labelToRow)
                         && vectors == old(vectors)[labelToRow[l] := Zeros(dim)]
    {
      erased := false;
      var l := registry.Resolve(collection, ext);
      if l.Ok? {
        var r := HardDeleteLabel(l.value);
        if r.success {
          if drop {
            var _ := registry.Drop(collection, ext);
          }
          erased := true;
        }
      }
    }

    /** The loop of `compact` over the matrix. */
    method CollectLive() returns (live: Points, n: nat)
      requires Valid()
      ensures Compacts(View(), live) && n == |AliveLabels(View())|
    {
      ghost var s := View();
      live, n := map[], 0;
      var todo := labelToRow.Keys;
      NoneSeen(s);
      while todo != {}
        invariant todo <= labelToRow.Keys && Collected(s, live, n, todo)
        decreases |todo|
      {
        var l := AnyOf(todo);
        CollectNext(s, live, n, todo, l);
        if l !in deleted && NonZero(vectors[labelToRow[l]]) {
          live := live[labelToExt[l] := vectors[labelToRow[l]]];
          n := n + 1;
        }
        todo := todo - {l};
      }
      AllCollected(s, live, n);
    }

    /** `compact`: the serving store is recreated from the live rows, which are counted. */
    method Compact() returns (n: nat)
      requires Valid()
      modifies client
      ensures Valid() && View() == old(View()).(points := View().points)
      ensures Compacts(old(View()), View().points) && n == |AliveLabels(old(View()))|
    {
      var live;
      live, n := CollectLive();
      client.RecreateCollection(collection);
      client.data := client.data[collection := live];
    }
  }

  lemma AcceptableAt(exts: seq<string>, i: nat)
    requires i <= Acceptable(exts) && i < |exts|
    ensures i < Acceptable(exts) <==> Strip(exts[i]) != ""
  {
    assert i == Acceptable(exts) ==> Strip(exts[i]) == "";
  }
}
