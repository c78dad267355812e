module Wal {
  /** The write-ahead log: its two fixed-size records, the scan that reads them back, and the append-only file. */

  import opened Bytes
  import opened Options

  type Digest = seq<byte> -> seq<byte>

  /** SHA-256 is only assumed to return 32 bytes. */
  ghost predicate IsDigest(sha: Digest) {
    forall b :: |sha(b)| == 32
  }

  datatype Record =
    | Begin(timestamp: nat, transactionId: nat, targetNodeId: nat, maxM: nat)
    | Commit(timestamp: nat, transactionId: nat)

  const MAGIC_BEGIN: seq<byte> := [0x57, 0x44, 0x45, 0x4C]
  const MAGIC_COMMIT: seq<byte> := [0x57, 0x43, 0x4D, 0x54]
  const BEGIN_SIZE: nat := 72
  const COMMIT_SIZE: nat := 56

  /** The fields fit their columns: `struct.pack` refuses everything else. */
  predicate Packable(r: Record) {
    && r.timestamp < 0x1_0000_0000_0000_0000 && r.transactionId < 0x1_0000_0000_0000_0000
    && (r.Begin? ==> r.targetNodeId < 0x1_0000_0000_0000_0000 && r.maxM < 0x1_0000_0000)
  }

  function Payload(r: Record): (b: seq<byte>)
    ensures |b| == if r.Begin? then 28 else 16
  {
    match r
    case Begin(ts, tx, node, maxM) => LE(ts, 8) + LE(tx, 8) + LE(node, 8) + LE(maxM, 4)
    case Commit(ts, tx) => LE(ts, 8) + LE(tx, 8)
  }

  function Size(r: Record): (n: nat) {
    if r.Begin? then BEGIN_SIZE else COMMIT_SIZE
  }

  function Header(r: Record): (b: seq<byte>)
    ensures |b| == 8
  {
    match r
    case Begin(_, _, _, _) => MAGIC_BEGIN + [1, 0, 0, 0]
    case Commit(_, _) => MAGIC_COMMIT + [2, 0, 0, 0]
  }

  function Encode(r: Record, sha: Digest): (b: seq<byte>)
    requires IsDigest(sha)
    ensures |b| == Size(r)
  {
    match r
    case Begin(_, _, _, _) => Header(r) + Payload(r) + LE(0, 4) + sha(Payload(r))
    case Commit(_, _) => Header(r) + Payload(r) + sha(Payload(r))
  }

  function EncodeAll(rs: seq<Record>, sha: Digest): (b: seq<byte>)
    requires IsDigest(sha)
  {
    if rs == [] then [] else Encode(rs[0], sha) + EncodeAll(rs[1..], sha)
  }

  // ----- the scan -------------------------------------------------------------------

  /** The records yielded, and whether the scan then raised an error. */
  datatype Scan = Scan(records: seq<Record>, corrupt: bool)

  /** What the bytes at one position hold: a record, a torn tail (or nothing), or garbage. */
  datatype Item = Read(record: Record) | Torn | Garbage

  function DecodeBegin(b: seq<byte>): (r: Record)
    requires |b| >= BEGIN_SIZE
    ensures r.Begin?
  {
    Begin(FromLE(b[8..16]), FromLE(b[16..24]), FromLE(b[24..32]), FromLE(b[32..36]))
  }

  function DecodeCommit(b: seq<byte>): (r: Record)
    requires |b| >= COMMIT_SIZE
    ensures r.Commit?
  {
    Commit(FromLE(b[8..16]), FromLE(b[16..24]))
  }

  function NextItem(b: seq<byte>, sha: Digest): (i: Item)
    ensures i.Read? ==> |b| >= Size(i.record)
  {
    if |b| < 8 then Torn
    else if b[..4] == MAGIC_BEGIN && b[4] == 1 then
      if |b| < BEGIN_SIZE then Torn
      else if b[40..72] != sha(Payload(DecodeBegin(b))) then Garbage
      else Read(DecodeBegin(b))
    else if b[..4] == MAGIC_COMMIT && b[4] == 2 then
      if |b| < COMMIT_SIZE then Torn
      else if b[24..56] != sha(Payload(DecodeCommit(b))) then Garbage
      else Read(DecodeCommit(b))
    else Garbage
  }

  /** `iter_records` over the rest of a file. */
  function ScanAll(b: seq<byte>, sha: Digest): (s: Scan)
    decreases |b|
  {
    match NextItem(b, sha)
    case Torn => Scan([], false)
    case Garbage => Scan([], true)
    case Read(r) =>
      var s := ScanAll(b[Size(r)..], sha);
      Scan([r] + s.records, s.corrupt)
  }

  // ----- round trip and torn tails --------------------------------------------------

  lemma FiveParts(a: seq<byte>, b: seq<byte>, c: seq<byte>, d: seq<byte>, e: seq<byte>)
    ensures var s, i := a + b + c + d + e, |a| + |b|;
            && s[..|a|] == a && s[|a|..i] == b && s[i..i + |c|] == c && s[i + |c|..i + |c| + |d|] == d
            && s[i + |c| + |d|..] == e
  {
  }

  /** Where the columns of a record lie, whatever follows it. */
  lemma BeginColumns(r: Record, rest: seq<byte>, sha: Digest)
    requires IsDigest(sha) && r.Begin?
    ensures var b := Encode(r, sha) + rest;
            && b[..8] == Header(r) && b[8..36] == Payload(r) && b[40..72] == sha(Payload(r))
  {
    FiveParts(Header(r), Payload(r), LE(0, 4), sha(Payload(r)), rest);
  }

  lemma CommitColumns(r: Record, rest: seq<byte>, sha: Digest)
    requires IsDigest(sha) && r.Commit?
    ensures var b := Encode(r, sha) + rest;
            && b[..8] == Header(r) && b[8..24] == Payload(r) && b[24..56] == sha(Payload(r))
  {
    FiveParts(Header(r), Payload(r), sha(Payload(r)), rest, []);
    var b := Encode(r, sha) + rest;
    assert b + [] == b;
  }

  lemma PayloadColumns(r: Record)
    ensures Payload(r)[..8] == LE(r.timestamp, 8) && Payload(r)[8..16] == LE(r.transactionId, 8)
    ensures r.Begin? ==> Payload(r)[16..24] == LE(r.targetNodeId, 8) && Payload(r)[24..28] == LE(r.maxM, 4)
  {
    var p := Payload(r);
    if r.Begin? {
      FiveParts(LE(r.timestamp, 8), LE(r.transactionId, 8), LE(r.targetNodeId, 8), LE(r.maxM, 4), []);
    } else {
      FiveParts(LE(r.timestamp, 8), LE(r.transactionId, 8), [], [], []);
      assert p + [] + [] + [] == p;
    }
    assert p + [] == p;
  }

  lemma SubSlice(b: seq<byte>, from: nat, to: nat, i: nat, j: nat)
    requires from <= to <= |b| && i <= j <= to - from
    ensures b[from..to][i..j] == b[from + i..from + j]
  {
    var x, y := b[from..to][i..j], b[from + i..from + j];
    assert |x| == |y|;
    forall k | 0 <= k < |x| ensures x[k] == y[k] {
    }
  }

  /** The numbers read from a packed payload are the ones packed. */
  lemma PayloadDecodes(r: Record)
    requires Packable(r)
    ensures FromLE(Payload(r)[..8]) == r.timestamp && FromLE(Payload(r)[8..16]) == r.transactionId
    ensures r.Begin? ==> FromLE(Payload(r)[16..24]) == r.targetNodeId && FromLE(Payload(r)[24..28]) == r.maxM
  {
    Pow256Values();
    PayloadColumns(r);
    FromLEofLE(r.timestamp, 8);
    FromLEofLE(r.transactionId, 8);
    if r.Begin? {
      FromLEofLE(r.targetNodeId, 8);
      FromLEofLE(r.maxM, 4);
    }
  }

  /** A BEGIN byte by byte: magic, type and flags, four numbers, four reserved bytes, the digest of the numbers. */
  lemma BeginLayout(r: Record, b: seq<byte>, sha: Digest)
    requires IsDigest(sha) && Packable(r) && r.Begin? && b == Encode(r, sha)
    ensures |b| == 72 && b[..8] == [0x57, 0x44, 0x45, 0x4C, 1, 0, 0, 0]
    ensures FromLE(b[8..16]) == r.timestamp && FromLE(b[16..24]) == r.transactionId
    ensures FromLE(b[24..32]) == r.targetNodeId && FromLE(b[32..36]) == r.maxM
    ensures b[36..40] == [0, 0, 0, 0] && b[40..72] == sha(b[8..36])
  {
    BeginNumbers(r, b, sha);
    BeginDigest(r, b, sha);
    BeginReserved(r, b, sha);
  }

  lemma BeginDigest(r: Record, b: seq<byte>, sha: Digest)
    requires IsDigest(sha) && r.Begin? && |b| == 72 && b == Encode(r, sha)
    ensures b[..8] == [0x57, 0x44, 0x45, 0x4C, 1, 0, 0, 0] && b[40..72] == sha(b[8..36])
  {
    assert b + [] == b;
    BeginColumns(r, [], sha);
  }

  lemma BeginNumbers(r: Record, b: seq<byte>, sha: Digest)
    requires IsDigest(sha) && Packable(r) && r.Begin? && |b| == 72 && b == Encode(r, sha)
    ensures FromLE(b[8..16]) == r.timestamp && FromLE(b[16..24]) == r.transactionId
    ensures FromLE(b[24..32]) == r.targetNodeId && FromLE(b[32..36]) == r.maxM
  {
    assert b + [] == b;
    BeginDecodes(r, [], sha);
  }

  lemma BeginReserved(r: Record, b: seq<byte>, sha: Digest)
    requires IsDigest(sha) && r.Begin? && b == Encode(r, sha)
    ensures b[36..40] == [0, 0, 0, 0]
  {
    FiveParts(Header(r), Payload(r), LE(0, 4), sha(Payload(r)), []);
    assert b + [] == b;
    assert LE(0, 1) == [0] && LE(0, 2) == [0, 0] && LE(0, 3) == [0, 0, 0];
  }

  /** A COMMIT byte by byte. */
  lemma CommitLayout(r: Record, sha: Digest)
    requires IsDigest(sha) && Packable(r) && r.Commit?
    ensures var b := Encode(r, sha);
            && |b| == 56 && b[..8] == [0x57, 0x43, 0x4D, 0x54, 2, 0, 0, 0]
            && FromLE(b[8..16]) == r.timestamp && FromLE(b[16..24]) == r.transactionId
            && b[24..56] == sha(b[8..24])
  {
    var b := Encode(r, sha);
    assert b + [] == b;
    CommitDecodes(r, [], sha);
    CommitColumns(r, [], sha);
  }

  lemma HeaderDecides(b: seq<byte>, r: Record)
    requires |b| >= 8 && b[..8] == Header(r)
    ensures r.Begin? <==> b[..4] == MAGIC_BEGIN && b[4] == 1
    ensures r.Commit? <==> b[..4] == MAGIC_COMMIT && b[4] == 2
  {
    assert b[..4] == b[..8][..4];
    assert b[4] == b[..8][4];
    assert MAGIC_BEGIN[1] != MAGIC_COMMIT[1];
  }

  lemma BeginDecodes(r: Record, rest: seq<byte>, sha: Digest)
    requires IsDigest(sha) && Packable(r) && r.Begin?
    ensures DecodeBegin(Encode(r, sha) + rest) == r
  {
    var b := Encode(r, sha) + rest;
    PayloadDecodes(r);
    BeginColumns(r, rest, sha);
    SubSlice(b, 8, 36, 0, 8);
    SubSlice(b, 8, 36, 8, 16);
    SubSlice(b, 8, 36, 16, 24);
    SubSlice(b, 8, 36, 24, 28);
  }

  lemma CommitDecodes(r: Record, rest: seq<byte>, sha: Digest)
    requires IsDigest(sha) && Packable(r) && r.Commit?
    ensures DecodeCommit(Encode(r, sha) + rest) == r
  {
    var b := Encode(r, sha) + rest;
    PayloadDecodes(r);
    CommitColumns(r, rest, sha);
    SubSlice(b, 8, 24, 0, 8);
    SubSlice(b, 8, 24, 8, 16);
  }

  /** A wholly written record is read back, whatever follows it. */
  lemma NextReads(r: Record, rest: seq<byte>, sha: Digest)
    requires IsDigest(sha) && Packable(r)
    ensures NextItem(Encode(r, sha) + rest, sha) == Read(r)
  {
    var b := Encode(r, sha) + rest;
    if r.Begin? {
      BeginDecodes(r, rest, sha);
      BeginColumns(r, rest, sha);
    } else {
      CommitDecodes(r, rest, sha);
      CommitColumns(r, rest, sha);
    }
    HeaderDecides(b, r);
  }

  /** A strict prefix of a record reads as a torn tail. */
  lemma PrefixTorn(r: Record, n: nat, sha: Digest)
    requires IsDigest(sha) && n < Size(r)
    ensures NextItem(Encode(r, sha)[..n], sha) == Torn
  {
    var b := Encode(r, sha)[..n];
    if n >= 8 {
      assert b[..8] == Header(r);
      HeaderDecides(b, r);
    }
  }

  /** How many records fit wholly in n bytes. */
  function Fitting(rs: seq<Record>, n: nat): (k: nat)
    ensures k <= |rs|
  {
    if rs == [] || n < Size(rs[0]) then 0 else 1 + Fitting(rs[1..], n - Size(rs[0]))
  }

  /** `Fitting` is the greatest number of records whose encoding has at most n bytes. */
  lemma {:induction false} FittingIsGreatest(rs: seq<Record>, n: nat, k: nat, sha: Digest)
    requires IsDigest(sha) && k <= |rs|
    ensures k <= Fitting(rs, n) <==> |EncodeAll(rs[..k], sha)| <= n
  {
    if k > 0 {
      assert rs[..k][0] == rs[0] && rs[..k][1..] == rs[1..][..k - 1];
      assert |EncodeAll(rs[..k], sha)| == Size(rs[0]) + |EncodeAll(rs[1..][..k - 1], sha)|;
      if n >= Size(rs[0]) {
        FittingIsGreatest(rs[1..], n - Size(rs[0]), k - 1, sha);
      }
    }
  }

  lemma PrefixSplit(e: seq<byte>, rest: seq<byte>, n: nat)
    requires n <= |e| + |rest|
    ensures n < |e| ==> (e + rest)[..n] == e[..n]
    ensures n >= |e| ==> (e + rest)[..n] == e + rest[..n - |e|]
  {
  }

  lemma PrefixCons<T>(rs: seq<T>, k: nat)
    requires rs != [] && k <= |rs| - 1
    ensures [rs[0]] + rs[1..][..k] == rs[..k + 1]
  {
  }

  /**
   * Scanning the first n bytes of any log, for any n, yields exactly the records that fit in n bytes and
   * never fails.
   */
  lemma {:induction false} ScanPrefix(rs: seq<Record>, n: nat, sha: Digest)
    requires IsDigest(sha) && n <= |EncodeAll(rs, sha)| && forall r :: r in rs ==> Packable(r)
    ensures ScanAll(EncodeAll(rs, sha)[..n], sha) == Scan(rs[..Fitting(rs, n)], false)
  {
    if rs != [] {
      var r, e, rest := rs[0], Encode(rs[0], sha), EncodeAll(rs[1..], sha);
      assert r in rs;
      PrefixSplit(e, rest, n);
      if n < Size(r) {
        PrefixTorn(r, n, sha);
      } else {
        var m := n - Size(r);
        ScanNext(r, rest[..m], sha);
        ScanPrefix(rs[1..], m, sha);
        PrefixCons(rs, Fitting(rs[1..], m));
      }
    }
  }

  lemma {:induction false} FittingAll(rs: seq<Record>, sha: Digest)
    requires IsDigest(sha)
    ensures Fitting(rs, |EncodeAll(rs, sha)|) == |rs|
  {
    if rs != [] {
      FittingAll(rs[1..], sha);
    }
  }

  /** A log written whole is read back whole. */
  lemma ScanWhole(rs: seq<Record>, sha: Digest)
    requires IsDigest(sha) && forall r :: r in rs ==> Packable(r)
    ensures ScanAll(EncodeAll(rs, sha), sha) == Scan(rs, false)
  {
    var all := EncodeAll(rs, sha);
    ScanPrefix(rs, |all|, sha);
    FittingAll(rs, sha);
    assert all[..|all|] == all && rs[..|rs|] == rs;
  }

  lemma ConsSplit<T>(a: seq<T>, b: seq<T>)
    requires a != []
    ensures a == [a[0]] + a[1..] && a + b == [a[0]] + (a[1..] + b)
  {
  }

  lemma EncodeCons(r: Record, rest: seq<Record>, sha: Digest)
    requires IsDigest(sha)
    ensures EncodeAll([r] + rest, sha) == Encode(r, sha) + EncodeAll(rest, sha)
  {
    assert ([r] + rest)[1..] == rest;
  }

  lemma {:induction false} EncodeAllConcat(a: seq<Record>, b: seq<Record>, sha: Digest)
    requires IsDigest(sha)
    ensures EncodeAll(a + b, sha) == EncodeAll(a, sha) + EncodeAll(b, sha)
  {
    if a == [] {
      assert a + b == b;
    } else {
      var r, rest := a[0], a[1..];
      ConsSplit(a, b);
      EncodeAllConcat(rest, b, sha);
      EncodeCons(r, rest, sha);
      EncodeCons(r, rest + b, sha);
      Regroup(Encode(r, sha), EncodeAll(rest, sha), EncodeAll(b, sha));
    }
  }

  lemma ScanNext(r: Record, rest: seq<byte>, sha: Digest)
    requires IsDigest(sha) && Packable(r)
    ensures ScanAll(Encode(r, sha) + rest, sha)
         == Scan([r] + ScanAll(rest, sha).records, ScanAll(rest, sha).corrupt)
  {
    NextReads(r, rest, sha);
    assert (Encode(r, sha) + rest)[Size(r)..] == rest;
  }

  lemma Regroup<T>(a: seq<T>, b: seq<T>, c: seq<T>)
    ensures a + b + c == a + (b + c)
  {
  }

  lemma ConsRest<T>(rs: seq<T>, s: seq<T>)
    requires rs != []
    ensures [rs[0]] + (rs[1..] + s) == rs + s
  {
    assert [rs[0]] + rs[1..] == rs;
  }

  /** Scanning a well-formed log followed by anything continues with that. */
  lemma {:induction false} ScanAfter(rs: seq<Record>, tail: seq<byte>, sha: Digest)
    requires IsDigest(sha) && forall r :: r in rs ==> Packable(r)
    ensures ScanAll(EncodeAll(rs, sha) + tail, sha)
         == Scan(rs + ScanAll(tail, sha).records, ScanAll(tail, sha).corrupt)
  {
    if rs == [] {
      assert EncodeAll(rs, sha) == [];
      assert [] + tail == tail;
      assert [] + ScanAll(tail, sha).records == ScanAll(tail, sha).records;
    } else {
      var r, rest := rs[0], EncodeAll(rs[1..], sha);
      assert r in rs;
      Regroup(Encode(r, sha), rest, tail);
      ScanNext(r, rest + tail, sha);
      ScanAfter(rs[1..], tail, sha);
      ConsRest(rs, ScanAll(tail, sha).records);
    }
  }

  lemma BrokenMagic(torn: Record, n: nat, next: Record, rest: seq<byte>, sha: Digest)
    requires IsDigest(sha) && 1 <= n <= 4
    ensures NextItem(Encode(torn, sha)[..n] + (Encode(next, sha) + rest), sha) == Garbage
  {
    var b := Encode(torn, sha)[..n] + (Encode(next, sha) + rest);
    assert b[n] == Encode(next, sha)[0] == Header(next)[0] == 0x57;
    if n < 4 {
      assert b[..4][n] == 0x57;
      assert MAGIC_BEGIN[n] != 0x57 && MAGIC_COMMIT[n] != 0x57;
    }
  }

  /** What a torn record of this kind becomes when the bytes written after it complete it. */
  function Spliced(t: seq<byte>, torn: Record): (r: Record)
    requires |t| >= Size(torn)
    ensures r.Begin? == torn.Begin?
  {
    if torn.Begin? then DecodeBegin(t) else DecodeCommit(t)
  }

  /** The 32 bytes where the splice has its checksum happen to be that checksum. */
  predicate Collides(t: seq<byte>, torn: Record, sha: Digest)
    requires |t| >= Size(torn)
  {
    (if torn.Begin? then t[40..72] else t[24..56]) == sha(Payload(Spliced(t, torn)))
  }

  lemma SplicedItem(torn: Record, n: nat, more: seq<byte>, sha: Digest)
    requires IsDigest(sha) && 5 <= n < Size(torn)
    ensures var t := Encode(torn, sha)[..n] + more;
            NextItem(t, sha) == if |t| < Size(torn) then Torn
                                else if Collides(t, torn, sha) then Read(Spliced(t, torn)) else Garbage
  {
    var t := Encode(torn, sha)[..n] + more;
    assert t[4] == Encode(torn, sha)[4] == Header(torn)[4];
    assert t[..4] == Encode(torn, sha)[..4] == Header(torn)[..4];
    assert MAGIC_BEGIN[1] != MAGIC_COMMIT[1];
  }

  /**
   * A torn tail is skipped but never truncated, so a record appended after one is lost. When at least one byte
   * of a record was written before a crash, the first scan ignores it; after a later append the scan raises at
   * the tail, or stops there as before if tail and appended bytes together are too short for a record of the torn
   * kind. The one exception is a digest collision: five bytes or more, completed to a record that never was.
   */
  lemma TornTailHidesLaterRecords(rs: seq<Record>, torn: Record, n: nat, next: Record, rest: seq<byte>, sha: Digest)
    requires IsDigest(sha) && (forall r :: r in rs ==> Packable(r)) && 0 < n < Size(torn)
    ensures ScanAll(EncodeAll(rs, sha) + Encode(torn, sha)[..n], sha) == Scan(rs, false)
    ensures var t := Encode(torn, sha)[..n] + (Encode(next, sha) + rest);
            ScanAll(EncodeAll(rs, sha) + t, sha) ==
              if n >= 5 && |t| < Size(torn) then Scan(rs, false)
              else if n >= 5 && Collides(t, torn, sha) then
                var s := ScanAll(t[Size(torn)..], sha);
                Scan(rs + ([Spliced(t, torn)] + s.records), s.corrupt)
              else Scan(rs, true)
  {
    PrefixTorn(torn, n, sha);
    ScanAfter(rs, Encode(torn, sha)[..n], sha);
    if n <= 4 {
      BrokenMagic(torn, n, next, rest, sha);
    } else {
      SplicedItem(torn, n, Encode(next, sha) + rest, sha);
    }
    ScanAfter(rs, Encode(torn, sha)[..n] + (Encode(next, sha) + rest), sha);
    assert rs + [] == rs;
  }

  // ----- what the records say -------------------------------------------------------

  /** Ids of the records, BEGIN and COMMIT alike. */
  function MaxTx(rs: seq<Record>): (m: nat)
    ensures forall r :: r in rs ==> r.transactionId <= m
    ensures m == 0 || exists r :: r in rs && r.transactionId == m
  {
    if rs == [] then 0
    else
      var k := |rs| - 1;
      var m := MaxTx(rs[..k]);
      assert forall r :: r in rs <==> r == rs[k] || r in rs[..k];
      if rs[k].transactionId > m then rs[k].transactionId else m
  }

  /** The `committed` set after reading rs. */
  function CommittedIds(rs: seq<Record>): (s: set<nat>)
    ensures forall tx :: tx in s <==> exists r :: r in rs && r.Commit? && r.transactionId == tx
  {
    if rs == [] then {}
    else
      var k := |rs| - 1;
      assert forall r :: r in rs <==> r == rs[k] || r in rs[..k];
      CommittedIds(rs[..k]) + if rs[k].Commit? then {rs[k].transactionId} else {}
  }

  /** The `begins` dictionary after reading rs: its keys in insertion order, and the last BEGIN of each. */
  function BeginKeys(rs: seq<Record>): (keys: seq<nat>) {
    if rs == [] then []
    else
      var k := |rs| - 1;
      var keys := BeginKeys(rs[..k]);
      if rs[k].Begin? && rs[k].transactionId !in keys then keys + [rs[k].transactionId] else keys
  }

  function Begins(rs: seq<Record>): (m: map<nat, Record>)
    ensures forall tx :: tx in m <==> tx in BeginKeys(rs)
    ensures forall tx :: tx in m ==> m[tx] in rs && m[tx].Begin? && m[tx].transactionId == tx
  {
    if rs == [] then map[]
    else
      var k := |rs| - 1;
      assert forall r :: r in rs <==> r == rs[k] || r in rs[..k];
      var m := Begins(rs[..k]);
      if rs[k].Begin? then m[rs[k].transactionId := rs[k]] else m
  }

  function InsertId(x: nat, ids: seq<nat>): (r: seq<nat>)
    ensures forall y :: y in r <==> y == x || y in ids
  {
    if ids == [] || x <= ids[0] then [x] + ids
    else
      assert forall y :: y in ids <==> y == ids[0] || y in ids[1..];
      [ids[0]] + InsertId(x, ids[1..])
  }

  /** `sorted` of the keys. */
  function SortIds(ids: seq<nat>): (r: seq<nat>)
    ensures forall y :: y in r <==> y in ids
  {
    if ids == [] then []
    else
      assert forall y :: y in ids <==> y == ids[0] || y in ids[1..];
      InsertId(ids[0], SortIds(ids[1..]))
  }

  /** The BEGINs of the listed transactions that are not committed. */
  function Select(ids: seq<nat>, begins: map<nat, Record>, committed: set<nat>): (r: seq<Record>)
    requires forall tx :: tx in ids ==> tx in begins
  {
    if ids == [] then []
    else
      var k := |ids| - 1;
      var r := Select(ids[..k], begins, committed);
      if ids[k] in committed then r else r + [begins[ids[k]]]
  }

  /** `uncommitted_deletes` as the code computes it. */
  function Pending(rs: seq<Record>): (p: seq<Record>) {
    Select(SortIds(BeginKeys(rs)), Begins(rs), CommittedIds(rs))
  }

  // ----- whatever the transaction ids ------------------------------------------------

  ghost predicate Ascending(ids: seq<nat>) {
    forall i, j :: 0 <= i < j < |ids| ==> ids[i] < ids[j]
  }

  ghost predicate Distinct(ids: seq<nat>) {
    forall i, j :: 0 <= i < j < |ids| ==> ids[i] != ids[j]
  }

  lemma {:induction false} KeysDistinct(rs: seq<Record>)
    ensures Distinct(BeginKeys(rs))
    ensures forall tx :: tx in BeginKeys(rs) <==> exists r :: r in rs && r.Begin? && r.transactionId == tx
  {
    if rs != [] {
      var k := |rs| - 1;
      assert forall r :: r in rs <==> r == rs[k] || r in rs[..k];
      KeysDistinct(rs[..k]);
    }
  }

  lemma {:induction false} InsertAscending(x: nat, ids: seq<nat>)
    requires Ascending(ids) && x !in ids
    ensures Ascending(InsertId(x, ids))
  {
    if ids != [] && x > ids[0] {
      InsertAscending(x, ids[1..]);
      var r := InsertId(x, ids[1..]);
      forall j | 0 <= j < |r| ensures ids[0] < r[j] {
        assert r[j] in r;
      }
    }
  }

  lemma {:induction false} SortAscending(ids: seq<nat>)
    requires Distinct(ids)
    ensures Ascending(SortIds(ids))
  {
    if ids != [] {
      SortAscending(ids[1..]);
      InsertAscending(ids[0], SortIds(ids[1..]));
    }
  }

  /** The last BEGIN of its transaction. */
  ghost predicate LastBegin(rs: seq<Record>, i: int) {
    0 <= i < |rs| && rs[i].Begin? && forall j :: i < j < |rs| && rs[j].Begin? ==> rs[j].transactionId != rs[i].transactionId
  }

  lemma {:induction false} BeginsAreLast(rs: seq<Record>, tx: nat) returns (i: nat)
    requires tx in Begins(rs)
    ensures LastBegin(rs, i) && rs[i] == Begins(rs)[tx] && rs[i].transactionId == tx
  {
    var k := |rs| - 1;
    BeginsNext(rs, tx);
    if rs[k].Begin? && rs[k].transactionId == tx {
      i := k;
    } else {
      i := BeginsAreLast(rs[..k], tx);
      LastStays(rs, i);
    }
  }

  lemma BeginsNext(rs: seq<Record>, tx: nat)
    requires tx in Begins(rs)
    ensures var r := rs[|rs| - 1];
            if r.Begin? && r.transactionId == tx then Begins(rs)[tx] == r
            else tx in Begins(rs[..|rs| - 1]) && Begins(rs)[tx] == Begins(rs[..|rs| - 1])[tx]
  {
  }

  lemma LastStays(rs: seq<Record>, i: nat)
    requires rs != [] && LastBegin(rs[..|rs| - 1], i)
    requires var r := rs[|rs| - 1]; !(r.Begin? && r.transactionId == rs[i].transactionId)
    ensures LastBegin(rs, i)
  {
  }

  lemma {:induction false} SelectExactly(ids: seq<nat>, begins: map<nat, Record>, committed: set<nat>)
    requires Ascending(ids)
    requires forall tx :: tx in ids ==> tx in begins && begins[tx].Begin? && begins[tx].transactionId == tx
    ensures var p := Select(ids, begins, committed);
            && (forall r :: r in p <==> r.transactionId in ids && r.transactionId !in committed && r == begins[r.transactionId])
            && (forall i, j :: 0 <= i < j < |p| ==> p[i].transactionId < p[j].transactionId)
  {
    if ids != [] {
      var k := |ids| - 1;
      SelectExactly(ids[..k], begins, committed);
      assert forall tx :: tx in ids <==> tx == ids[k] || tx in ids[..k];
      var q := Select(ids[..k], begins, committed);
      forall i | 0 <= i < |q| ensures q[i].transactionId < ids[k] {
        assert q[i] in q && q[i].transactionId in ids[..k];
      }
    }
  }

  /**
   * On any log, also one whose ids repeat or fall: the transactions with a BEGIN and no COMMIT, each with its last
   * BEGIN, in ascending order of their ids.
   */
  lemma PendingExactly(rs: seq<Record>, r: Record)
    ensures r in Pending(rs) <==>
              (exists i :: LastBegin(rs, i) && rs[i] == r)
              && forall c :: c in rs && c.Commit? ==> c.transactionId != r.transactionId
    ensures forall i, j :: 0 <= i < j < |Pending(rs)| ==> Pending(rs)[i].transactionId < Pending(rs)[j].transactionId
  {
    KeysDistinct(rs);
    SortAscending(BeginKeys(rs));
    SelectExactly(SortIds(BeginKeys(rs)), Begins(rs), CommittedIds(rs));
    LastIsKept(rs, r);
    assert r.transactionId !in CommittedIds(rs) <==> forall c :: c in rs && c.Commit? ==> c.transactionId != r.transactionId;
  }

  lemma LastIsKept(rs: seq<Record>, r: Record)
    ensures r.transactionId in Begins(rs) && Begins(rs)[r.transactionId] == r <==>
              exists i :: LastBegin(rs, i) && rs[i] == r
  {
    var tx := r.transactionId;
    KeysDistinct(rs);
    forall j | LastBegin(rs, j) ensures rs[j].transactionId in Begins(rs) {
      assert rs[j] in rs;
    }
    if tx in Begins(rs) {
      var i := BeginsAreLast(rs, tx);
      forall j | LastBegin(rs, j) && rs[j].transactionId == tx ensures j == i {
      }
    }
  }

  // ----- with increasing transaction ids it is what it should be --------------------

  ghost predicate TxIncreasing(rs: seq<Record>) {
    forall i, j :: 0 <= i < j < |rs| && rs[i].Begin? && rs[j].Begin? ==> rs[i].transactionId < rs[j].transactionId
  }

  /** The BEGINs of rs whose id is not in the set, in log order. */
  function Uncommitted(rs: seq<Record>, committed: set<nat>): (r: seq<Record>)
    ensures forall b :: b in r <==> b in rs && b.Begin? && b.transactionId !in committed
  {
    if rs == [] then []
    else
      var k := |rs| - 1;
      assert forall x :: x in rs <==> x == rs[k] || x in rs[..k];
      var r := Uncommitted(rs[..k], committed);
      if rs[k].Begin? && rs[k].transactionId !in committed then r + [rs[k]] else r
  }

  function BeginIds(rs: seq<Record>): (ids: seq<nat>)
    ensures forall x :: x in ids <==> exists r :: r in rs && r.Begin? && r.transactionId == x
  {
    if rs == [] then []
    else
      var k := |rs| - 1;
      assert forall x :: x in rs <==> x == rs[k] || x in rs[..k];
      var ids := BeginIds(rs[..k]);
      if rs[k].Begin? then ids + [rs[k].transactionId] else ids
  }

  ghost predicate Rising(ids: seq<nat>) {
    forall i, j :: 0 <= i < j < |ids| ==> ids[i] < ids[j]
  }

  lemma {:induction false} KeysAreIds(rs: seq<Record>)
    requires TxIncreasing(rs)
    ensures BeginKeys(rs) == BeginIds(rs) && Rising(BeginIds(rs))
  {
    if rs != [] {
      var k := |rs| - 1;
      KeysAreIds(rs[..k]);
      if rs[k].Begin? {
        var ids := BeginIds(rs[..k]);
        forall i | 0 <= i < |ids| ensures ids[i] < rs[k].transactionId {
          var x := ids[i];
          assert x in ids;
          var r :| r in rs[..k] && r.Begin? && r.transactionId == x;
          var j :| 0 <= j < k && rs[j] == r;
        }
      }
    }
  }

  lemma {:induction false} SortRising(ids: seq<nat>)
    requires Rising(ids)
    ensures SortIds(ids) == ids
  {
    if ids != [] {
      SortRising(ids[1..]);
      assert ids == [ids[0]] + ids[1..];
    }
  }

  lemma {:induction false} SelectIsUncommitted(rs: seq<Record>, begins: map<nat, Record>, committed: set<nat>)
    requires TxIncreasing(rs) && forall r :: r in rs && r.Begin? ==> r.transactionId in begins && begins[r.transactionId] == r
    requires forall tx :: tx in BeginIds(rs) ==> tx in begins
    ensures Select(BeginIds(rs), begins, committed) == Uncommitted(rs, committed)
  {
    if rs != [] {
      var k := |rs| - 1;
      assert forall x :: x in rs <==> x == rs[k] || x in rs[..k];
      SelectIsUncommitted(rs[..k], begins, committed);
      if rs[k].Begin? {
        assert BeginIds(rs)[..|BeginIds(rs)| - 1] == BeginIds(rs[..k]);
      }
    }
  }

  lemma {:induction false} BeginsExact(rs: seq<Record>, r: Record)
    requires TxIncreasing(rs) && r in rs && r.Begin?
    ensures r.transactionId in Begins(rs) && Begins(rs)[r.transactionId] == r
  {
    var k := |rs| - 1;
    if r != rs[k] {
      assert r in rs[..k];
      BeginsExact(rs[..k], r);
      var j :| 0 <= j < k && rs[j] == r;
    }
  }

  /** With strictly increasing ids, exactly the BEGINs without a COMMIT are returned, in log order. */
  lemma PendingIsUncommitted(rs: seq<Record>)
    requires TxIncreasing(rs)
    ensures Pending(rs) == Uncommitted(rs, CommittedIds(rs))
  {
    KeysAreIds(rs);
    SortRising(BeginIds(rs));
    forall r | r in rs && r.Begin? ensures r.transactionId in Begins(rs) && Begins(rs)[r.transactionId] == r {
      BeginsExact(rs, r);
    }
    SelectIsUncommitted(rs, Begins(rs), CommittedIds(rs));
  }

  // ----- the log file ---------------------------------------------------------------

  datatype Outcome<T> = Done(value: T) | ValueError | StructError

  /** One record read moves it from what is left of the file to what has been read. */
  lemma ReadOn(file: seq<byte>, pos: nat, records: seq<Record>, r: Record, sha: Digest)
    requires pos <= |file| && NextItem(file[pos..], sha) == Read(r)
    ensures pos + Size(r) <= |file|
    ensures var s, next := ScanAll(file[pos..], sha), ScanAll(file[pos + Size(r)..], sha);
            records + s.records == records + [r] + next.records && s.corrupt == next.corrupt
  {
    var next := file[pos + Size(r)..];
    assert file[pos..][Size(r)..] == next;
    Regroup(records, [r], ScanAll(next, sha).records);
  }

  /** `iter_records`: reads record after record from the start of the file. */
  method IterRecords(file: seq<byte>, sha: Digest) returns (s: Scan)
    ensures s == ScanAll(file, sha)
  {
    var pos, records := 0, [];
    assert file[0..] == file;
    while true
      invariant 0 <= pos <= |file|
      invariant ScanAll(file, sha)
             == Scan(records + ScanAll(file[pos..], sha).records, ScanAll(file[pos..], sha).corrupt)
      decreases |file| - pos
    {
      match NextItem(file[pos..], sha) {
        case Torn =>
          assert records + [] == records;
          return Scan(records, false);
        case Garbage =>
          assert records + [] == records;
          return Scan(records, true);
        case Read(r) =>
          ReadOn(file, pos, records, r, sha);
          pos, records := pos + Size(r), records + [r];
      }
    }
  }

  /** `_recover_max_tx_id`, over the records scanned. */
  method RecoverMaxTxId(records: seq<Record>) returns (m: nat)
    ensures m == MaxTx(records)
  {
    m := 0;
    var i := 0;
    while i < |records|
      invariant 0 <= i <= |records| && m == MaxTx(records[..i])
    {
      assert records[..i + 1][..i] == records[..i];
      if records[i].transactionId > m {
        m := records[i].transactionId;
      }
      i := i + 1;
    }
    assert records[..i] == records;
  }

  /** The loop that fills the `begins` dictionary and the `committed` set. */
  method FillDictionaries(records: seq<Record>)
    returns (keys: seq<nat>, begins: map<nat, Record>, committed: set<nat>)
    ensures keys == BeginKeys(records) && begins == Begins(records) && committed == CommittedIds(records)
  {
    keys, begins, committed := [], map[], {};
    var i := 0;
    while i < |records|
      invariant 0 <= i <= |records|
      invariant keys == BeginKeys(records[..i]) && begins == Begins(records[..i])
      invariant committed == CommittedIds(records[..i])
    {
      var rec := records[i];
      assert records[..i + 1][..i] == records[..i];
      if rec.Begin? {
        if rec.transactionId !in begins {
          keys := keys + [rec.transactionId];
        }
        begins := begins[rec.transactionId := rec];
      } else {
        committed := committed + {rec.transactionId};
      }
      i := i + 1;
    }
    assert records[..i] == records;
  }

  method SelectPending(ids: seq<nat>, begins: map<nat, Record>, committed: set<nat>) returns (pending: seq<Record>)
    requires forall tx :: tx in ids ==> tx in begins
    ensures pending == Select(ids, begins, committed)
  {
    pending := [];
    var i := 0;
    while i < |ids|
      invariant 0 <= i <= |ids| && pending == Select(ids[..i], begins, committed)
    {
      assert ids[..i + 1][..i] == ids[..i];
      assert ids[i] in ids;
      if ids[i] !in committed {
        pending := pending + [begins[ids[i]]];
      }
      i := i + 1;
    }
    assert ids[..i] == ids;
  }

  lemma IdsRise(log: seq<Record>, rec: Record)
    requires TxIncreasing(log) && rec.Begin?
    requires forall b :: b in log && b.Begin? ==> b.transactionId < rec.transactionId
    ensures TxIncreasing(log + [rec])
  {
    forall i, j | 0 <= i < j < |log + [rec]| && (log + [rec])[i].Begin? && (log + [rec])[j].Begin?
      ensures (log + [rec])[i].transactionId < (log + [rec])[j].transactionId
    {
      assert log[i] in log;
    }
  }

  class WriteAheadLog {
    const sha: Digest
    var file: seq<byte>
    var txCounter: nat
    /** The whole records at the start of the file, and what follows them: nothing, unless an append was torn. */
    ghost var log: seq<Record>
    ghost var tail: seq<byte>

    ghost predicate Valid()
      reads this
    {
      && IsDigest(sha)
      && file == EncodeAll(log, sha) + tail
      && (forall r :: r in log ==> Packable(r))
      && (forall r :: r in log && r.Begin? ==> r.transactionId <= txCounter)
    }

    /** Opens the file a previous process left, torn tail included, and continues its numbering. */
    constructor (sha: Digest, file: seq<byte>, ghost log: seq<Record>, ghost tail: seq<byte>)
      requires IsDigest(sha) && file == EncodeAll(log, sha) + tail && NextItem(tail, sha) == Torn
      requires forall r :: r in log ==> Packable(r)
      ensures Valid() && this.sha == sha && this.file == file && this.log == log && this.tail == tail
      ensures txCounter == MaxTx(log)
    {
      var s := IterRecords(file, sha);
      var m := RecoverMaxTxId(s.records);
      assert s.records == log by {
        ScanAfter(log, tail, sha);
        assert log + [] == log;
      }
      this.sha, this.file, this.log, this.tail, txCounter := sha, file, log, tail, m;
    }

    /**
     * `append_begin_delete`, with the next id unless one is given. The counter moves even when the record cannot
     * be packed. A record written after a torn tail does not become part of the log.
     */
    method AppendBeginDelete(node: int, maxM: int, explicit: Option<int>, timestamp: nat) returns (r: Outcome<Record>)
      requires Valid()
      modifies this
      ensures Valid()
      ensures r.ValueError? <==> node < 0 || maxM < 1
      ensures r.ValueError? ==> unchanged(this)
      ensures !r.ValueError? ==>
                var tx := if explicit.Some? then explicit.value else old(txCounter) + 1;
                && txCounter == (if tx > old(txCounter) then tx else old(txCounter))
                && (r.Done? <==> tx >= 0 && Packable(Begin(timestamp, tx, node, maxM)))
                && (r.Done? ==> r.value == Begin(timestamp, tx, node, maxM))
      ensures r.StructError? ==> file == old(file) && log == old(log) && tail == old(tail)
      ensures r.Done? ==> Appends(old(file), old(log), old(tail), r.value)
      ensures r.Done? && explicit == None ==> forall b :: b in old(log) && b.Begin? ==>
                b.transactionId < r.value.transactionId
      ensures TxIncreasing(old(log)) && (explicit == None || explicit.value > old(txCounter)) ==> TxIncreasing(log)
    {
      if node < 0 || maxM < 1 {
        return ValueError;
      }
      var tx := if explicit.Some? then explicit.value else txCounter + 1;
      if tx > txCounter {
        txCounter := tx;
      }
      if tx < 0 || !Packable(Begin(timestamp, tx, node, maxM)) {
        return StructError;
      }
      var rec := Begin(timestamp, tx, node, maxM);
      AppendRecord(rec);
      r := Done(rec);
      if TxIncreasing(old(log)) && tx > old(txCounter) && log == old(log) + [rec] {
        IdsRise(old(log), rec);
      }
    }

    /** The file with one more record at its end, which is part of the log unless it follows a torn tail. */
    ghost predicate Appends(file0: seq<byte>, log0: seq<Record>, tail0: seq<byte>, rec: Record)
      reads this
      requires IsDigest(sha)
    {
      && file == file0 + Encode(rec, sha)
      && if tail0 == [] then log == log0 + [rec] && tail == []
         else log == log0 && tail == tail0 + Encode(rec, sha)
    }

    method AppendCommit(transactionId: nat, timestamp: nat) returns (r: Outcome<Record>)
      requires Valid()
      modifies this
      ensures Valid() && txCounter == old(txCounter)
      ensures r.Done? <==> Packable(Commit(timestamp, transactionId))
      ensures !r.Done? ==> r.StructError? && unchanged(this)
      ensures r.Done? ==> r.value == Commit(timestamp, transactionId) && Appends(old(file), old(log), old(tail), r.value)
    {
      var rec := Commit(timestamp, transactionId);
      if !Packable(rec) {
        return StructError;
      }
      AppendRecord(rec);
      r := Done(rec);
    }

    method AppendRecord(rec: Record)
      requires Valid() && Packable(rec) && (rec.Begin? ==> rec.transactionId <= txCounter)
      modifies this`file, this`log, this`tail
      ensures Valid() && Appends(old(file), old(log), old(tail), rec)
    {
      if tail == [] {
        EncodeAllConcat(log, [rec], sha);
        assert EncodeAll([rec], sha) == Encode(rec, sha) by {
          assert Encode(rec, sha) + [] == Encode(rec, sha);
        }
        assert file == EncodeAll(log, sha);
        log := log + [rec];
      } else {
        Regroup(EncodeAll(log, sha), tail, Encode(rec, sha));
        tail := tail + Encode(rec, sha);
      }
      file := file + Encode(rec, sha);
    }

    /**
     * `uncommitted_deletes`: it raises exactly when the scan of the file does. Of a file that ends where its
     * records end, or in a torn record, it returns the uncommitted BEGINs if their ids rise.
     */
    method UncommittedDeletes() returns (r: Outcome<seq<Record>>)
      requires Valid()
      ensures var s := ScanAll(file, sha); r == if s.corrupt then ValueError else Done(Pending(s.records))
      ensures NextItem(tail, sha) == Torn ==>
                && r == Done(Pending(log))
                && (TxIncreasing(log) ==> r == Done(Uncommitted(log, CommittedIds(log))))
    {
      var s := IterRecords(file, sha);
      ScanAfter(log, tail, sha);
      assert log + [] == log;
      if TxIncreasing(log) {
        PendingIsUncommitted(log);
      }
      if s.corrupt {
        return ValueError;
      }
      var keys, begins, committed := FillDictionaries(s.records);
      var pending := SelectPending(SortIds(keys), begins, committed);
      r := Done(pending);
    }
  }
}
