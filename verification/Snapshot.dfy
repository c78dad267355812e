module Snapshot {
  /** index.bin: the binary layout written by `save_to_file` and read back by `load_from_file`. */

  import opened Bytes
  import opened Layers
  import opened LayerHeal
  import opened Options

  datatype Error =
    | NoIndex | BadMagic | UnsupportedVersion | Truncated | DimZero | TooLarge | NeighbourOutOfRange

  /** What a reader takes from the front of the bytes, and what it leaves. */
  datatype Parsed<T> = Parsed(value: T, rest: seq<byte>) | Rejected(error: Error)

  /** An index in memory; a float32 is its 32-bit pattern. */
  datatype Image = Image(n: nat, dim: nat, words: seq<nat>, adjacency: Adjacency, entrypoint: int)

  datatype Header = Header(n: nat, dim: nat, entrypoint: int)

  const MAGIC: seq<byte> := [0x48, 0x4E, 0x53, 0x57]
  const U32: nat := 0x1_0000_0000
  const U64: nat := 0x1_0000_0000_0000_0000
  const I64: int := 0x8000_0000_0000_0000

  /** An i64 as the unsigned number with the same eight bytes, and back. */
  function Unsigned(v: int): (u: nat)
    ensures -I64 <= v < I64 ==> u == (if v < 0 then v + U64 else v)
  {
    if v < 0 then v % U64 else v
  }

  function Signed(u: nat): (v: int) {
    if u < I64 then u else u - U64
  }

  // ----- one value ------------------------------------------------------------------

  function ReadNat(b: seq<byte>, k: nat): (r: Parsed<nat>) {
    if |b| < k then Rejected(Truncated) else Parsed(FromLE(b[..k]), b[k..])
  }

  function WordReader(): seq<byte> -> Parsed<nat> {
    b => ReadNat(b, 4)
  }

  function WordWriter(): nat -> seq<byte> {
    w => LE(w, 4)
  }

  function ReadLabel(b: seq<byte>, n: nat): (r: Parsed<int>) {
    var p := ReadNat(b, 8);
    if p.Rejected? then Rejected(p.error)
    else if !(0 <= Signed(p.value) < n) then Rejected(NeighbourOutOfRange)
    else Parsed(Signed(p.value), p.rest)
  }

  function LabelReader(n: nat): seq<byte> -> Parsed<int> {
    b => ReadLabel(b, n)
  }

  function LabelWriter(): int -> seq<byte> {
    x => LE(Unsigned(x), 8)
  }

  // ----- a counted run of values ----------------------------------------------------

  function WriteMany<T>(write: T -> seq<byte>, xs: seq<T>): (b: seq<byte>) {
    if xs == [] then [] else write(xs[0]) + WriteMany(write, xs[1..])
  }

  function ReadMany<T>(read: seq<byte> -> Parsed<T>, count: nat, b: seq<byte>): (r: Parsed<seq<T>>)
    ensures r.Parsed? ==> |r.value| == count
  {
    if count == 0 then Parsed([], b)
    else
      match read(b)
      case Rejected(e) => Rejected(e)
      case Parsed(x, rest) => Prepend([x], ReadMany(read, count - 1, rest))
  }

  function Prepend<T>(xs: seq<T>, r: Parsed<seq<T>>): (p: Parsed<seq<T>>) {
    match r
    case Rejected(e) => Rejected(e)
    case Parsed(ys, rest) => Parsed(xs + ys, rest)
  }

  /** What `write` writes, `read` reads back, whatever follows. */
  ghost predicate Returns<T>(read: seq<byte> -> Parsed<T>, write: T -> seq<byte>, x: T) {
    forall rest :: read(write(x) + rest) == Parsed(x, rest)
  }

  /** Whatever `read` accepts is what `write` would have written, and is fine. */
  ghost predicate Canonical<T>(read: seq<byte> -> Parsed<T>, write: T -> seq<byte>, fine: T -> bool) {
    forall b :: read(b).Parsed? ==> b == write(read(b).value) + read(b).rest && fine(read(b).value)
  }

  lemma {:induction false} ManyReturn<T>(read: seq<byte> -> Parsed<T>, write: T -> seq<byte>, xs: seq<T>, rest: seq<byte>)
    requires forall x :: x in xs ==> Returns(read, write, x)
    ensures ReadMany(read, |xs|, WriteMany(write, xs) + rest) == Parsed(xs, rest)
  {
    if xs == [] {
      assert [] + rest == rest;
    } else {
      var tail := WriteMany(write, xs[1..]);
      assert WriteMany(write, xs) + rest == write(xs[0]) + (tail + rest);
      assert Returns(read, write, xs[0]);
      ManyReturn(read, write, xs[1..], rest);
      assert [xs[0]] + xs[1..] == xs;
    }
  }

  lemma {:induction false} ManyCanonical<T>(
    read: seq<byte> -> Parsed<T>, write: T -> seq<byte>, fine: T -> bool, count: nat, b: seq<byte>)
    requires Canonical(read, write, fine)
    ensures var r := ReadMany(read, count, b);
            r.Parsed? ==> b == WriteMany(write, r.value) + r.rest && forall x :: x in r.value ==> fine(x)
  {
    var r := ReadMany(read, count, b);
    if count == 0 {
      assert [] + b == b;
    } else if r.Parsed? {
      var p := read(b);
      ManyCanonical(read, write, fine, count - 1, p.rest);
      var s := ReadMany(read, count - 1, p.rest);
      assert r.value == [p.value] + s.value && r.value[1..] == s.value;
      assert b == write(p.value) + (WriteMany(write, s.value) + r.rest);
    }
  }

  // ----- counted lists --------------------------------------------------------------

  /** A u32 count, then that many values. */
  function WriteCounted<T>(write: T -> seq<byte>, xs: seq<T>): (b: seq<byte>) {
    LE(|xs|, 4) + WriteMany(write, xs)
  }

  function ReadCounted<T>(read: seq<byte> -> Parsed<T>, b: seq<byte>): (r: Parsed<seq<T>>)
    ensures r.Parsed? ==> |r.value| < U32
  {
    var p := ReadNat(b, 4);
    if p.Rejected? then Rejected(p.error)
    else
      LEofFromLE(b[..4]);
      Pow256Values();
      ReadMany(read, p.value, p.rest)
  }

  lemma NatReturns(v: nat, k: nat, rest: seq<byte>)
    requires v < Pow256(k)
    ensures ReadNat(LE(v, k) + rest, k) == Parsed(v, rest)
  {
    var b := LE(v, k) + rest;
    assert b[..k] == LE(v, k) && b[k..] == rest;
    FromLEofLE(v, k);
  }

  lemma NatCanonical(b: seq<byte>, k: nat)
    requires |b| >= k
    ensures b == LE(FromLE(b[..k]), k) + b[k..] && FromLE(b[..k]) < Pow256(k)
  {
    LEofFromLE(b[..k]);
    assert b == b[..k] + b[k..];
  }

  lemma CountedReturns<T>(read: seq<byte> -> Parsed<T>, write: T -> seq<byte>, xs: seq<T>, rest: seq<byte>)
    requires |xs| < U32 && forall x :: x in xs ==> Returns(read, write, x)
    ensures ReadCounted(read, WriteCounted(write, xs) + rest) == Parsed(xs, rest)
  {
    Pow256Values();
    var tail := WriteMany(write, xs);
    assert WriteCounted(write, xs) + rest == LE(|xs|, 4) + (tail + rest);
    NatReturns(|xs|, 4, tail + rest);
    ManyReturn(read, write, xs, rest);
  }

  lemma CountedCanonical<T>(read: seq<byte> -> Parsed<T>, write: T -> seq<byte>, fine: T -> bool, b: seq<byte>)
    requires Canonical(read, write, fine)
    ensures var r := ReadCounted(read, b);
            r.Parsed? ==> b == WriteCounted(write, r.value) + r.rest && forall x :: x in r.value ==> fine(x)
  {
    var r := ReadCounted(read, b);
    if r.Parsed? {
      NatCanonical(b, 4);
      var count := FromLE(b[..4]);
      ManyCanonical(read, write, fine, count, b[4..]);
      assert b == LE(count, 4) + (WriteMany(write, r.value) + r.rest);
    }
  }

  function ListReader(n: nat): seq<byte> -> Parsed<seq<int>> {
    b => ReadCounted(LabelReader(n), b)
  }

  function ListWriter(): seq<int> -> seq<byte> {
    list => WriteCounted(LabelWriter(), list)
  }

  function NodeReader(n: nat): seq<byte> -> Parsed<seq<seq<int>>> {
    b => ReadCounted(ListReader(n), b)
  }

  function NodeWriter(): seq<seq<int>> -> seq<byte> {
    lists => WriteCounted(ListWriter(), lists)
  }

  // ----- what fits the layout -------------------------------------------------------

  predicate FineLabel(x: int, n: nat) {
    0 <= x < n && x < I64
  }

  predicate FineList(list: seq<int>, n: nat) {
    |list| < U32 && forall x :: x in list ==> FineLabel(x, n)
  }

  predicate FineNode(lists: seq<seq<int>>, n: nat) {
    |lists| < U32 && forall list :: list in lists ==> FineList(list, n)
  }

  predicate NormalEntry(e: int, n: nat) {
    -I64 <= e < I64 && e < n
  }

  /** An index whose numbers fit their columns and whose labels are rows. */
  predicate Storable(x: Image) {
    && x.n < U64 && x.dim < U64 && (x.n > 0 ==> x.dim > 0) && x.n * x.dim < U64
    && |x.words| == x.n * x.dim && (forall w :: w in x.words ==> w < U32)
    && |x.adjacency| == x.n && (forall lists :: lists in x.adjacency ==> FineNode(lists, x.n))
  }

  lemma LabelsReturn(x: int, n: nat)
    requires FineLabel(x, n)
    ensures Returns(LabelReader(n), LabelWriter(), x)
  {
    Pow256Values();
    forall rest ensures LabelReader(n)(LabelWriter()(x) + rest) == Parsed(x, rest) {
      NatReturns(x, 8, rest);
    }
  }

  lemma ListsReturn(list: seq<int>, n: nat)
    requires FineList(list, n)
    ensures Returns(ListReader(n), ListWriter(), list)
  {
    forall x | x in list ensures Returns(LabelReader(n), LabelWriter(), x) {
      LabelsReturn(x, n);
    }
    forall rest ensures ListReader(n)(ListWriter()(list) + rest) == Parsed(list, rest) {
      CountedReturns(LabelReader(n), LabelWriter(), list, rest);
    }
  }

  lemma NodesReturn(lists: seq<seq<int>>, n: nat)
    requires FineNode(lists, n)
    ensures Returns(NodeReader(n), NodeWriter(), lists)
  {
    forall list | list in lists ensures Returns(ListReader(n), ListWriter(), list) {
      ListsReturn(list, n);
    }
    forall rest ensures NodeReader(n)(NodeWriter()(lists) + rest) == Parsed(lists, rest) {
      CountedReturns(ListReader(n), ListWriter(), lists, rest);
    }
  }

  lemma WordsReturn(w: nat)
    requires w < U32
    ensures Returns(WordReader(), WordWriter(), w)
  {
    Pow256Values();
    forall rest ensures WordReader()(WordWriter()(w) + rest) == Parsed(w, rest) {
      NatReturns(w, 4, rest);
    }
  }

  function Below(k: nat): nat -> bool {
    w => w < k
  }

  function FineLabels(n: nat): int -> bool {
    x => FineLabel(x, n)
  }

  function FineLists(n: nat): seq<int> -> bool {
    list => FineList(list, n)
  }

  function FineNodes(n: nat): seq<seq<int>> -> bool {
    lists => FineNode(lists, n)
  }

  lemma WordsCanonical()
    ensures Canonical(WordReader(), WordWriter(), Below(U32))
  {
    Pow256Values();
    forall b | WordReader()(b).Parsed?
      ensures var p := WordReader()(b); b == WordWriter()(p.value) + p.rest && Below(U32)(p.value)
    {
      NatCanonical(b, 4);
    }
  }

  lemma LabelsCanonical(n: nat)
    ensures Canonical(LabelReader(n), LabelWriter(), FineLabels(n))
  {
    forall b | LabelReader(n)(b).Parsed?
      ensures var p := LabelReader(n)(b); b == LabelWriter()(p.value) + p.rest && FineLabels(n)(p.value)
    {
      LabelCanonical(b, n);
    }
  }

  lemma LabelCanonical(b: seq<byte>, n: nat)
    ensures var p := ReadLabel(b, n);
            p.Parsed? ==> b == LE(Unsigned(p.value), 8) + p.rest && FineLabel(p.value, n)
  {
    if |b| >= 8 {
      Pow256Values();
      NatCanonical(b, 8);
    }
  }

  lemma ListsCanonical(n: nat)
    ensures Canonical(ListReader(n), ListWriter(), FineLists(n))
  {
    LabelsCanonical(n);
    forall b | ListReader(n)(b).Parsed?
      ensures var p := ListReader(n)(b); b == ListWriter()(p.value) + p.rest && FineLists(n)(p.value)
    {
      CountedCanonical(LabelReader(n), LabelWriter(), FineLabels(n), b);
      var p := ReadCounted(LabelReader(n), b);
      assert forall x :: x in p.value ==> FineLabels(n)(x);
    }
  }

  lemma NodesCanonical(n: nat)
    ensures Canonical(NodeReader(n), NodeWriter(), FineNodes(n))
  {
    ListsCanonical(n);
    forall b | NodeReader(n)(b).Parsed?
      ensures var p := NodeReader(n)(b); b == NodeWriter()(p.value) + p.rest && FineNodes(n)(p.value)
    {
      CountedCanonical(ListReader(n), ListWriter(), FineLists(n), b);
      var p := ReadCounted(ListReader(n), b);
      assert forall list :: list in p.value ==> FineLists(n)(list);
    }
  }

  // ----- the whole file -------------------------------------------------------------

  function WriteHeader(h: Header): (b: seq<byte>)
    ensures |b| == 32
  {
    MAGIC + LE(1, 4) + LE(h.n, 8) + LE(h.dim, 8) + LE(Unsigned(h.entrypoint), 8)
  }

  /** The header, its magic and version, and the guards on the two sizes. */
  function ReadHeader(b: seq<byte>): (r: Parsed<Header>) {
    if |b| < 4 || b[..4] != MAGIC then Rejected(BadMagic)
    else if |b| < 8 then Rejected(Truncated)
    else if FromLE(b[4..8]) != 1 then Rejected(UnsupportedVersion)
    else if |b| < 32 then Rejected(Truncated)
    else
      var n, dim := FromLE(b[8..16]), FromLE(b[16..24]);
      if n > 0 && dim == 0 then Rejected(DimZero)
      else if n * dim >= U64 then Rejected(TooLarge)
      else Parsed(Header(n, dim, Signed(FromLE(b[24..32]))), b[32..])
  }

  /** `save_to_file`, for an index that has rows. */
  function Encode(x: Image): (b: seq<byte>) {
    WriteHeader(Header(x.n, x.dim, x.entrypoint))
      + WriteMany(WordWriter(), x.words) + WriteMany(NodeWriter(), x.adjacency)
  }

  /** The rows and the adjacency that a header announces. */
  function ReadBody(h: Header, b: seq<byte>): (r: Parsed<Image>) {
    match ReadMany(WordReader(), h.n * h.dim, b)
    case Rejected(e) => Rejected(e)
    case Parsed(words, rest) =>
      match ReadMany(NodeReader(h.n), h.n, rest)
      case Rejected(e) => Rejected(e)
      case Parsed(adj, tail) => Parsed(Image(h.n, h.dim, words, adj, h.entrypoint), tail)
  }

  /** The file as it stands, with the entrypoint column unrepaired. */
  function DecodeRaw(b: seq<byte>): (r: Parsed<Image>) {
    match ReadHeader(b)
    case Rejected(e) => Rejected(e)
    case Parsed(h, rest) => ReadBody(h, rest)
  }

  function Repaired(e: int, n: nat): (r: int)
    ensures r < n
  {
    if e >= n then (if n > 0 then 0 else -1) else e
  }

  /** `load_from_file`: what is left after the last node is ignored. */
  function Decode(b: seq<byte>): (r: Parsed<Image>) {
    match DecodeRaw(b)
    case Rejected(e) => Rejected(e)
    case Parsed(x, rest) => Parsed(x.(entrypoint := Repaired(x.entrypoint, x.n)), rest)
  }

  lemma SixParts(a: seq<byte>, b: seq<byte>, c: seq<byte>, d: seq<byte>, e: seq<byte>, rest: seq<byte>)
    requires |a| == |b| == 4 && |c| == |d| == |e| == 8
    ensures var s := a + b + c + d + e + rest;
            s[..4] == a && s[4..8] == b && s[8..16] == c && s[16..24] == d && s[24..32] == e && s[32..] == rest
  {
  }

  lemma HeaderColumns(h: Header, rest: seq<byte>)
    ensures var b := WriteHeader(h) + rest;
            && |b| >= 32 && b[..4] == MAGIC && b[4..8] == LE(1, 4) && b[8..16] == LE(h.n, 8)
            && b[16..24] == LE(h.dim, 8) && b[24..32] == LE(Unsigned(h.entrypoint), 8) && b[32..] == rest
  {
    SixParts(MAGIC, LE(1, 4), LE(h.n, 8), LE(h.dim, 8), LE(Unsigned(h.entrypoint), 8), rest);
  }

  /** The front of a file: magic, version 1, the two sizes, and the entry point as a two's complement number. */
  lemma HeaderLayout(h: Header, rest: seq<byte>, b: seq<byte>)
    requires h.n < U64 && h.dim < U64 && -I64 <= h.entrypoint < I64 && b == WriteHeader(h) + rest
    ensures |b| >= 32 && b[..4] == [0x48, 0x4E, 0x53, 0x57] && FromLE(b[4..8]) == 1
    ensures FromLE(b[8..16]) == h.n && FromLE(b[16..24]) == h.dim
    ensures FromLE(b[24..32]) == if h.entrypoint < 0 then 0x1_0000_0000_0000_0000 + h.entrypoint else h.entrypoint
  {
    Pow256Values();
    HeaderColumns(h, rest);
    FromLEofLE(1, 4);
    FromLEofLE(h.n, 8);
    FromLEofLE(h.dim, 8);
    FromLEofLE(Unsigned(h.entrypoint), 8);
  }

  /** A file: the header, four bytes for each number of each row, then the nodes. */
  lemma FileLayout(x: Image, i: nat)
    requires Storable(x) && i < |x.words|
    ensures var b, n := Encode(x), 32 + 4 * |x.words|;
            && b[..32] == WriteHeader(Header(x.n, x.dim, x.entrypoint))
            && 36 + 4 * i <= n <= |b| && FromLE(b[32 + 4 * i..36 + 4 * i]) == x.words[i]
            && b[n..] == WriteMany(NodeWriter(), x.adjacency)
  {
    var b, h := Encode(x), WriteHeader(Header(x.n, x.dim, x.entrypoint));
    var words, nodes := WriteMany(WordWriter(), x.words), WriteMany(NodeWriter(), x.adjacency);
    ManyLayout(WordWriter(), x.words, 4, i);
    assert x.words[i] in x.words;
    Pow256Values();
    FromLEofLE(x.words[i], 4);
    ThreeParts(h, words, nodes, 4 * i, 4);
  }

  lemma ThreeParts(a: seq<byte>, b: seq<byte>, c: seq<byte>, i: nat, w: nat)
    requires i + w <= |b|
    ensures var s := a + b + c;
            && s[..|a|] == a && s[|a| + |b|..] == c && s[|a| + i..|a| + i + w] == b[i..i + w]
  {
  }

  /** A node: the number of its layers, then their lists one after the other. */
  lemma NodeLayout(lists: seq<seq<int>>, n: nat)
    requires FineNode(lists, n)
    ensures var b := NodeWriter()(lists);
            |b| >= 4 && FromLE(b[..4]) == |lists| && b[4..] == WriteMany(ListWriter(), lists)
  {
    Pow256Values();
    FromLEofLE(|lists|, 4);
    assert NodeWriter()(lists) == LE(|lists|, 4) + WriteMany(ListWriter(), lists);
  }

  lemma {:induction false} ManyInOrder<T>(write: T -> seq<byte>, a: seq<T>, b: seq<T>)
    ensures WriteMany(write, a + b) == WriteMany(write, a) + WriteMany(write, b)
  {
    if a == [] {
      assert a + b == b;
    } else {
      assert (a + b)[0] == a[0] && (a + b)[1..] == a[1..] + b;
      ManyInOrder(write, a[1..], b);
    }
  }

  /** Values of one width follow one another: the i-th starts where i of them end. */
  lemma {:induction false} ManyLayout<T>(write: T -> seq<byte>, xs: seq<T>, width: nat, i: nat)
    requires i < |xs| && forall x :: x in xs ==> |write(x)| == width
    ensures |WriteMany(write, xs)| == width * |xs| && 0 <= width * i <= width * i + width <= width * |xs|
    ensures WriteMany(write, xs)[width * i..width * i + width] == write(xs[i])
  {
    assert xs[0] in xs && |write(xs[0])| == width;
    if |xs| > 1 {
      ManyLayout(write, xs[1..], width, if i > 0 then i - 1 else 0);
    } else {
      assert xs[1..] == [];
    }
    Steps(width, i, |xs|);
  }

  lemma Steps(width: nat, i: nat, n: nat)
    requires i < n
    ensures 0 <= width * i <= width * i + width <= width * n
    ensures width * n == width + width * (n - 1)
    ensures i > 0 ==> width * i == width + width * (i - 1)
  {
    Spread(width, n - 1, 1);
    Spread(width, n - 1 - i, i + 1);
    Spread(width, i, 1);
    if i > 0 {
      Spread(width, i - 1, 1);
    }
  }

  lemma Spread(width: nat, a: nat, b: nat)
    ensures width * (a + b) == width * a + width * b && width * a >= 0
  {
  }

  /** A neighbour list: its length, then its labels, eight bytes each. */
  lemma ListLayout(list: seq<int>, n: nat, i: nat)
    requires FineList(list, n) && i < |list|
    ensures var b := ListWriter()(list);
            && |b| == 4 + 8 * |list| && FromLE(b[..4]) == |list|
            && FromLE(b[4 + 8 * i..12 + 8 * i]) == list[i]
  {
    var b, labels := ListWriter()(list), WriteMany(LabelWriter(), list);
    ManyLayout(LabelWriter(), list, 8, i);
    assert list[i] in list && FineLabel(list[i], n);
    Pow256Values();
    FromLEofLE(|list|, 4);
    FromLEofLE(list[i], 8);
    assert b == LE(|list|, 4) + labels == LE(|list|, 4) + labels + [];
    ThreeParts(LE(|list|, 4), labels, [], 8 * i, 8);
  }

  lemma HeaderReturns(h: Header, rest: seq<byte>)
    requires h.n < U64 && h.dim < U64 && (h.n > 0 ==> h.dim > 0) && h.n * h.dim < U64
    requires -I64 <= h.entrypoint < I64
    ensures ReadHeader(WriteHeader(h) + rest) == Parsed(h, rest)
  {
    Pow256Values();
    HeaderColumns(h, rest);
    FromLEofLE(1, 4);
    FromLEofLE(h.n, 8);
    FromLEofLE(h.dim, 8);
    FromLEofLE(Unsigned(h.entrypoint), 8);
  }

  lemma HeaderCanonical(b: seq<byte>)
    requires ReadHeader(b).Parsed?
    ensures var p := ReadHeader(b);
            && b == WriteHeader(p.value) + p.rest
            && p.value.n < U64 && p.value.dim < U64 && -I64 <= p.value.entrypoint < I64
  {
    Pow256Values();
    LEofFromLE(b[4..8]);
    LEofFromLE(b[8..16]);
    LEofFromLE(b[16..24]);
    LEofFromLE(b[24..32]);
    InSixParts(b);
  }

  lemma InSixParts(b: seq<byte>)
    requires |b| >= 32
    ensures b == b[..4] + b[4..8] + b[8..16] + b[16..24] + b[24..32] + b[32..]
  {
  }

  /** A saved index, followed by anything, loads as itself. */
  lemma RoundTrip(x: Image, tail: seq<byte>)
    requires Storable(x) && NormalEntry(x.entrypoint, x.n)
    ensures Decode(Encode(x) + tail) == Parsed(x, tail)
  {
    RawRoundTrip(x, tail);
  }

  lemma RawRoundTrip(x: Image, tail: seq<byte>)
    requires Storable(x) && -I64 <= x.entrypoint < I64
    ensures DecodeRaw(Encode(x) + tail) == Parsed(x, tail)
  {
    var h := Header(x.n, x.dim, x.entrypoint);
    var words, nodes := WriteMany(WordWriter(), x.words), WriteMany(NodeWriter(), x.adjacency);
    assert Encode(x) + tail == WriteHeader(h) + (words + (nodes + tail));
    HeaderReturns(h, words + (nodes + tail));
    forall w | w in x.words ensures Returns(WordReader(), WordWriter(), w) {
      WordsReturn(w);
    }
    ManyReturn(WordReader(), WordWriter(), x.words, nodes + tail);
    forall lists | lists in x.adjacency ensures Returns(NodeReader(x.n), NodeWriter(), lists) {
      NodesReturn(lists, x.n);
    }
    ManyReturn(NodeReader(x.n), NodeWriter(), x.adjacency, tail);
  }

  /** Whatever is accepted is an index that fits the layout, and its raw form is exactly the bytes consumed. */
  lemma RawCanonical(b: seq<byte>)
    requires DecodeRaw(b).Parsed?
    ensures var p := DecodeRaw(b);
            Storable(p.value) && -I64 <= p.value.entrypoint < I64 && b == Encode(p.value) + p.rest
  {
    HeaderCanonical(b);
    var h, body := ReadHeader(b).value, ReadHeader(b).rest;
    BodyCanonical(h, body);
    var x, rest := DecodeRaw(b).value, DecodeRaw(b).rest;
    var words, nodes := WriteMany(WordWriter(), x.words), WriteMany(NodeWriter(), x.adjacency);
    FourGrouped(WriteHeader(h), words, nodes, rest);
  }

  lemma FourGrouped<T>(a: seq<T>, b: seq<T>, c: seq<T>, d: seq<T>)
    ensures a + (b + c + d) == a + b + c + d
  {
  }

  lemma BodyCanonical(h: Header, b: seq<byte>)
    ensures var p := ReadBody(h, b);
            p.Parsed? ==>
              var x := p.value;
              && x.n == h.n && x.dim == h.dim && x.entrypoint == h.entrypoint
              && |x.words| == h.n * h.dim && (forall w :: w in x.words ==> w < U32)
              && |x.adjacency| == h.n && (forall lists :: lists in x.adjacency ==> FineNode(lists, h.n))
              && b == WriteMany(WordWriter(), x.words) + WriteMany(NodeWriter(), x.adjacency) + p.rest
  {
    WordsCanonical();
    ManyCanonical(WordReader(), WordWriter(), Below(U32), h.n * h.dim, b);
    var w := ReadMany(WordReader(), h.n * h.dim, b);
    if w.Parsed? {
      assert forall x :: x in w.value ==> Below(U32)(x);
      NodesCanonical(h.n);
      ManyCanonical(NodeReader(h.n), NodeWriter(), FineNodes(h.n), h.n, w.rest);
      var a := ReadMany(NodeReader(h.n), h.n, w.rest);
      if a.Parsed? {
        assert forall lists :: lists in a.value ==> FineNodes(h.n)(lists);
      }
    }
  }

  /** The value of the entrypoint column. */
  function EntryColumn(b: seq<byte>): (e: int)
    requires |b| >= 32
  {
    Signed(FromLE(b[24..32]))
  }

  /**
   * Accepted bytes hold only labels that are rows, and saving the index again reproduces the bytes consumed
   * exactly when the entrypoint column was negative or a row.
   */
  lemma AcceptedBytes(b: seq<byte>)
    requires Decode(b).Parsed?
    ensures var p := Decode(b);
            && Storable(p.value) && Sound(p.value.adjacency) && NormalEntry(p.value.entrypoint, p.value.n)
            && |b| >= 32
            && p.value.entrypoint == (if EntryColumn(b) < p.value.n then EntryColumn(b)
                                      else if p.value.n > 0 then 0 else -1)
            && (b == Encode(p.value) + p.rest <==> EntryColumn(b) < p.value.n)
  {
    RawCanonical(b);
    var raw, x := DecodeRaw(b).value, Decode(b).value;
    assert raw.entrypoint == EntryColumn(b);
    SoundLists(x.adjacency, x.n);
    if b == Encode(x) + Decode(b).rest {
      RawRoundTrip(x, Decode(b).rest);
    }
  }

  lemma SoundLists(adj: Adjacency, n: nat)
    requires |adj| == n && forall lists :: lists in adj ==> FineNode(lists, n)
    ensures Sound(adj)
  {
    forall layer: nat ensures InRange(LayerOf(adj, layer)) {
      var g := LayerOf(adj, layer);
      forall k | 0 <= k < |g| ensures Labels(g[k], |g|) {
        var lists := adj[k];
        assert FineNode(lists, n);
        if layer < |lists| {
          var list := lists[layer];
          assert list in lists;
          forall i | 0 <= i < |list| ensures 0 <= list[i] < n {
            var x := list[i];
            assert x in list;
          }
        }
      }
    }
  }

  // ----- files that are cut short ---------------------------------------------------

  /** What `write` writes of x, cut short anywhere, is recognised as cut short. */
  ghost predicate CutShows<T>(read: seq<byte> -> Parsed<T>, write: T -> seq<byte>, x: T) {
    forall k :: 0 <= k < |write(x)| ==> read(write(x)[..k]) == Rejected(Truncated)
  }

  lemma {:induction false} ManyCut<T>(read: seq<byte> -> Parsed<T>, write: T -> seq<byte>, xs: seq<T>, k: nat)
    requires forall x :: x in xs ==> Returns(read, write, x) && CutShows(read, write, x)
    requires k < |WriteMany(write, xs)|
    ensures ReadMany(read, |xs|, WriteMany(write, xs)[..k]) == Rejected(Truncated)
  {
    var head, tail := write(xs[0]), WriteMany(write, xs[1..]);
    assert Returns(read, write, xs[0]) && CutShows(read, write, xs[0]);
    if k < |head| {
      assert (head + tail)[..k] == head[..k];
    } else {
      assert (head + tail)[..k] == head + tail[..k - |head|];
      ManyCut(read, write, xs[1..], k - |head|);
    }
  }

  lemma CountedCut<T>(read: seq<byte> -> Parsed<T>, write: T -> seq<byte>, xs: seq<T>, k: nat)
    requires |xs| < U32 && forall x :: x in xs ==> Returns(read, write, x) && CutShows(read, write, x)
    requires k < |WriteCounted(write, xs)|
    ensures ReadCounted(read, WriteCounted(write, xs)[..k]) == Rejected(Truncated)
  {
    var tail := WriteMany(write, xs);
    if k >= 4 {
      Pow256Values();
      assert (LE(|xs|, 4) + tail)[..k] == LE(|xs|, 4) + tail[..k - 4];
      NatReturns(|xs|, 4, tail[..k - 4]);
      ManyCut(read, write, xs, k - 4);
    }
  }

  lemma ListCut(list: seq<int>, n: nat)
    requires FineList(list, n)
    ensures CutShows(ListReader(n), ListWriter(), list)
  {
    forall x | x in list ensures Returns(LabelReader(n), LabelWriter(), x) && CutShows(LabelReader(n), LabelWriter(), x) {
      LabelsReturn(x, n);
    }
    forall k | 0 <= k < |ListWriter()(list)| ensures ListReader(n)(ListWriter()(list)[..k]) == Rejected(Truncated) {
      CountedCut(LabelReader(n), LabelWriter(), list, k);
    }
  }

  lemma NodeCut(lists: seq<seq<int>>, n: nat)
    requires FineNode(lists, n)
    ensures CutShows(NodeReader(n), NodeWriter(), lists)
  {
    forall list | list in lists ensures Returns(ListReader(n), ListWriter(), list) && CutShows(ListReader(n), ListWriter(), list) {
      ListsReturn(list, n);
      ListCut(list, n);
    }
    forall k | 0 <= k < |NodeWriter()(lists)| ensures NodeReader(n)(NodeWriter()(lists)[..k]) == Rejected(Truncated) {
      CountedCut(ListReader(n), ListWriter(), lists, k);
    }
  }

  lemma HeaderCut(h: Header, k: nat)
    requires k < 32
    ensures ReadHeader(WriteHeader(h)[..k]) == Rejected(if k < 4 then BadMagic else Truncated)
  {
    var b, c := WriteHeader(h) + [], WriteHeader(h)[..k];
    assert b == WriteHeader(h);
    HeaderColumns(h, []);
    if k >= 4 {
      assert c[..4] == b[..4];
    }
    if k >= 8 {
      assert c[4..8] == b[4..8];
      Pow256Values();
      FromLEofLE(1, 4);
    }
  }

  lemma BodyCut(x: Image, k: nat)
    requires Storable(x) && k < |WriteMany(WordWriter(), x.words) + WriteMany(NodeWriter(), x.adjacency)|
    ensures ReadBody(Header(x.n, x.dim, x.entrypoint),
                     (WriteMany(WordWriter(), x.words) + WriteMany(NodeWriter(), x.adjacency))[..k]) == Rejected(Truncated)
  {
    var words, nodes := WriteMany(WordWriter(), x.words), WriteMany(NodeWriter(), x.adjacency);
    forall w | w in x.words ensures Returns(WordReader(), WordWriter(), w) && CutShows(WordReader(), WordWriter(), w) {
      WordsReturn(w);
    }
    if k < |words| {
      assert (words + nodes)[..k] == words[..k];
      ManyCut(WordReader(), WordWriter(), x.words, k);
    } else {
      assert (words + nodes)[..k] == words + nodes[..k - |words|];
      ManyReturn(WordReader(), WordWriter(), x.words, nodes[..k - |words|]);
      forall lists | lists in x.adjacency
        ensures Returns(NodeReader(x.n), NodeWriter(), lists) && CutShows(NodeReader(x.n), NodeWriter(), lists)
      {
        NodesReturn(lists, x.n);
        NodeCut(lists, x.n);
      }
      ManyCut(NodeReader(x.n), NodeWriter(), x.adjacency, k - |words|);
    }
  }

  /** A file cut short anywhere is rejected as truncated, or within its first four bytes for its magic. */
  lemma PrefixRejected(x: Image, k: nat)
    requires Storable(x) && NormalEntry(x.entrypoint, x.n) && k < |Encode(x)|
    ensures Decode(Encode(x)[..k]) == Rejected(if k < 4 then BadMagic else Truncated)
  {
    var h := Header(x.n, x.dim, x.entrypoint);
    var body := WriteMany(WordWriter(), x.words) + WriteMany(NodeWriter(), x.adjacency);
    InTwoParts(x);
    FrontOf(WriteHeader(h), body, k);
    if k < 32 {
      HeaderCut(h, k);
    } else {
      BodyCut(x, k - 32);
      BodyRejected(h, body[..k - 32]);
    }
  }

  lemma InTwoParts(x: Image)
    ensures Encode(x) == WriteHeader(Header(x.n, x.dim, x.entrypoint))
                         + (WriteMany(WordWriter(), x.words) + WriteMany(NodeWriter(), x.adjacency))
  {
  }

  lemma BodyRejected(h: Header, b: seq<byte>)
    requires h.n < U64 && h.dim < U64 && (h.n > 0 ==> h.dim > 0) && h.n * h.dim < U64 && -I64 <= h.entrypoint < I64
    requires ReadBody(h, b).Rejected?
    ensures Decode(WriteHeader(h) + b) == Rejected(ReadBody(h, b).error)
  {
    HeaderReturns(h, b);
  }

  lemma FrontOf(a: seq<byte>, b: seq<byte>, k: nat)
    requires k <= |a| + |b|
    ensures (a + b)[..k] == if k < |a| then a[..k] else a + b[..k - |a|]
  {
  }

  /** Which check of the header rejects a file, if one does: the first that fails, in this order. */
  lemma HeaderErrors(b: seq<byte>)
    ensures var r := Decode(b);
            if |b| < 4 || b[..4] != [0x48, 0x4E, 0x53, 0x57] then r == Rejected(BadMagic)
            else if |b| >= 8 && FromLE(b[4..8]) != 1 then r == Rejected(UnsupportedVersion)
            else if |b| < 32 then r == Rejected(Truncated)
            else if FromLE(b[8..16]) > 0 && FromLE(b[16..24]) == 0 then r == Rejected(DimZero)
            else if FromLE(b[8..16]) * FromLE(b[16..24]) >= 0x1_0000_0000_0000_0000 then r == Rejected(TooLarge)
            else r.Parsed? || r.error == Truncated || r.error == NeighbourOutOfRange
  {
    if ReadHeader(b).Parsed? {
      BodyErrors(ReadHeader(b).value, b[32..]);
    }
  }

  lemma BodyErrors(h: Header, b: seq<byte>)
    ensures var r := ReadBody(h, b); r.Parsed? || r.error == Truncated || r.error == NeighbourOutOfRange
  {
    ManyErrors(WordReader(), h.n * h.dim, b);
    NodeErrors(h.n);
    if ReadMany(WordReader(), h.n * h.dim, b).Parsed? {
      ManyErrors(NodeReader(h.n), h.n, ReadMany(WordReader(), h.n * h.dim, b).rest);
    }
  }

  /** The bytes are too short, or hold a label out of range, if anything is wrong with them. */
  ghost predicate BodyError<T>(r: Parsed<T>) {
    r.Parsed? || r.error == Truncated || r.error == NeighbourOutOfRange
  }

  ghost predicate OnlyBodyErrors<T>(read: seq<byte> -> Parsed<T>) {
    forall c :: BodyError(read(c))
  }

  lemma {:induction false} ManyErrors<T>(read: seq<byte> -> Parsed<T>, count: nat, b: seq<byte>)
    requires OnlyBodyErrors(read)
    ensures BodyError(ReadMany(read, count, b))
  {
    assert BodyError(read(b));
    if count > 0 && read(b).Parsed? {
      ManyErrors(read, count - 1, read(b).rest);
    }
  }

  lemma CountedErrors<T>(read: seq<byte> -> Parsed<T>, b: seq<byte>)
    requires OnlyBodyErrors(read)
    ensures BodyError(ReadCounted(read, b))
  {
    if |b| >= 4 {
      ManyErrors(read, FromLE(b[..4]), b[4..]);
    }
  }

  lemma NodeErrors(n: nat)
    ensures OnlyBodyErrors(NodeReader(n))
  {
    assert OnlyBodyErrors(LabelReader(n));
    assert OnlyBodyErrors(ListReader(n)) by {
      forall c ensures BodyError(ListReader(n)(c)) {
        CountedErrors(LabelReader(n), c);
      }
    }
    forall c ensures BodyError(NodeReader(n)(c)) {
      CountedErrors(ListReader(n), c);
    }
  }

  // ----- the reading and writing loops ----------------------------------------------

  method PutWords(out: seq<byte>, words: seq<nat>) returns (out': seq<byte>)
    ensures out' == out + WriteMany(WordWriter(), words)
  {
    out' := out;
    var i := 0;
    assert words[0..] == words;
    while i < |words|
      invariant 0 <= i <= |words|
      invariant out' + WriteMany(WordWriter(), words[i..]) == out + WriteMany(WordWriter(), words)
    {
      WriteNext(out', WordWriter(), words, i);
      out' := out' + LE(words[i], 4);
      i := i + 1;
    }
    assert out' + [] == out';
  }

  /** Writing element i moves it from what is left to write to what is written. */
  lemma WriteNext<T>(out: seq<byte>, write: T -> seq<byte>, xs: seq<T>, i: nat)
    requires i < |xs|
    ensures out + WriteMany(write, xs[i..]) == out + write(xs[i]) + WriteMany(write, xs[i + 1..])
  {
    assert xs[i..][1..] == xs[i + 1..];
  }

  method PutList(out: seq<byte>, list: seq<int>) returns (out': seq<byte>)
    ensures out' == out + ListWriter()(list)
  {
    out' := out + LE(|list|, 4);
    var i := 0;
    assert list[0..] == list;
    while i < |list|
      invariant 0 <= i <= |list|
      invariant out' + WriteMany(LabelWriter(), list[i..]) == out + LE(|list|, 4) + WriteMany(LabelWriter(), list)
    {
      WriteNext(out', LabelWriter(), list, i);
      out' := out' + LE(Unsigned(list[i]), 8);
      i := i + 1;
    }
    assert out' + [] == out';
  }

  method PutNode(out: seq<byte>, lists: seq<seq<int>>) returns (out': seq<byte>)
    ensures out' == out + NodeWriter()(lists)
  {
    out' := out + LE(|lists|, 4);
    var i := 0;
    assert lists[0..] == lists;
    while i < |lists|
      invariant 0 <= i <= |lists|
      invariant out' + WriteMany(ListWriter(), lists[i..]) == out + LE(|lists|, 4) + WriteMany(ListWriter(), lists)
    {
      WriteNext(out', ListWriter(), lists, i);
      out' := PutList(out', lists[i]);
      i := i + 1;
    }
    assert out' + [] == out';
  }

  method TakeWords(b: seq<byte>, count: nat) returns (r: Parsed<seq<nat>>)
    ensures r == ReadMany(WordReader(), count, b)
  {
    var i, words, rest := 0, [], b;
    NothingRead(ReadMany(WordReader(), count, b));
    while i < count
      invariant 0 <= i <= count
      invariant ReadMany(WordReader(), count, b) == Prepend(words, ReadMany(WordReader(), count - i, rest))
    {
      ReadNext(words, WordReader(), count - i, rest);
      if |rest| < 4 {
        return Rejected(Truncated);
      }
      words, rest := words + [FromLE(rest[..4])], rest[4..];
      i := i + 1;
    }
    assert words + [] == words;
    r := Parsed(words, rest);
  }

  lemma NothingRead<T>(r: Parsed<seq<T>>)
    ensures Prepend([], r) == r
  {
    if r.Parsed? {
      assert [] + r.value == r.value;
    }
  }

  lemma ReadDone<T>(xs: seq<T>, read: seq<byte> -> Parsed<T>, b: seq<byte>)
    ensures Prepend(xs, ReadMany(read, 0, b)) == Parsed(xs, b)
  {
    assert xs + [] == xs;
  }

  /** Reading one element moves it from what is left to read to what has been read. */
  lemma ReadNext<T>(xs: seq<T>, read: seq<byte> -> Parsed<T>, count: nat, b: seq<byte>)
    requires count > 0
    ensures Prepend(xs, ReadMany(read, count, b)) ==
              match read(b)
              case Rejected(e) => Rejected(e)
              case Parsed(x, rest) => Prepend(xs + [x], ReadMany(read, count - 1, rest))
  {
    if read(b).Parsed? {
      var p := ReadMany(read, count - 1, read(b).rest);
      if p.Parsed? {
        assert xs + ([read(b).value] + p.value) == xs + [read(b).value] + p.value;
      }
    }
  }

  lemma ReadOneMore<T>(whole: Parsed<seq<T>>, xs: seq<T>, read: seq<byte> -> Parsed<T>, count: nat, b: seq<byte>,
                       p: Parsed<T>)
    requires count > 0 && whole == Prepend(xs, ReadMany(read, count, b)) && p == read(b)
    ensures if p.Rejected? then whole == Rejected(p.error)
            else whole == Prepend(xs + [p.value], ReadMany(read, count - 1, p.rest))
  {
    ReadNext(xs, read, count, b);
  }

  method TakeList(b: seq<byte>, n: nat) returns (r: Parsed<seq<int>>)
    ensures r == ListReader(n)(b)
  {
    if |b| < 4 {
      return Rejected(Truncated);
    }
    var degree := FromLE(b[..4]);
    var i, list, rest := 0, [], b[4..];
    NothingRead(ReadMany(LabelReader(n), degree, rest));
    while i < degree
      invariant 0 <= i <= degree
      invariant ReadMany(LabelReader(n), degree, b[4..]) == Prepend(list, ReadMany(LabelReader(n), degree - i, rest))
    {
      ReadNext(list, LabelReader(n), degree - i, rest);
      if |rest| < 8 {
        return Rejected(Truncated);
      }
      var nb := Signed(FromLE(rest[..8]));
      if nb < 0 || nb >= n {
        return Rejected(NeighbourOutOfRange);
      }
      list, rest := list + [nb], rest[8..];
      i := i + 1;
    }
    assert list + [] == list;
    r := Parsed(list, rest);
  }

  method TakeNode(b: seq<byte>, n: nat) returns (r: Parsed<seq<seq<int>>>)
    ensures r == NodeReader(n)(b)
  {
    if |b| < 4 {
      return Rejected(Truncated);
    }
    var layers := FromLE(b[..4]);
    var i, lists, rest := 0, [], b[4..];
    NothingRead(ReadMany(ListReader(n), layers, rest));
    while i < layers
      invariant 0 <= i <= layers
      invariant ReadMany(ListReader(n), layers, b[4..]) == Prepend(lists, ReadMany(ListReader(n), layers - i, rest))
    {
      var p := TakeList(rest, n);
      ReadOneMore(ReadMany(ListReader(n), layers, b[4..]), lists, ListReader(n), layers - i, rest, p);
      if p.Rejected? {
        return Rejected(p.error);
      }
      lists, rest := lists + [p.value], p.rest;
      i := i + 1;
    }
    assert lists + [] == lists;
    r := Parsed(lists, rest);
  }

  method TakeNodes(b: seq<byte>, n: nat) returns (r: Parsed<Adjacency>)
    ensures r == ReadMany(NodeReader(n), n, b)
  {
    ghost var read := NodeReader(n);
    ghost var whole := ReadMany(read, n, b);
    NothingRead(whole);
    var i, rest := 0, b;
    var adj: Adjacency := [];
    while i < n
      invariant 0 <= i <= n
      invariant whole == Prepend(adj, ReadMany(read, n - i, rest))
    {
      var p := TakeNode(rest, n);
      ReadOneMore(whole, adj, read, n - i, rest, p);
      if p.Rejected? {
        return Rejected(p.error);
      }
      adj, rest := adj + [p.value], p.rest;
      i := i + 1;
    }
    ReadDone(adj, read, rest);
    r := Parsed(adj, rest);
  }

  /** The overflow test divides where the product could wrap. */
  lemma OverflowGuard(n: nat, d: nat, most: nat)
    requires d > 0
    ensures n > most / d <==> n * d > most
  {
    var q := most / d;
    assert most == q * d + most % d;
    if n > q {
      TimesGrows(q + 1, n, d);
    } else {
      TimesGrows(n, q, d);
    }
  }

  lemma TimesGrows(a: nat, b: nat, d: nat)
    requires a <= b
    ensures a * d <= b * d
  {
  }

  /** The lists of n rows. */
  function NodesOf(adj: Adjacency, n: nat): (r: Adjacency)
    ensures |r| == n && forall i :: 0 <= i < n ==> r[i] == if i < |adj| then adj[i] else []
  {
    seq(n, i requires 0 <= i => if i < |adj| then adj[i] else [])
  }

  class IndexFile {
    var n: nat
    var dim: nat
    var words: seq<nat>
    var adjacency: Adjacency
    var entrypoint: int

    constructor ()
      ensures Current() == Image(0, 0, [], [], -1)
    {
      n, dim, words, adjacency, entrypoint := 0, 0, [], [], -1;
    }

    function Current(): (x: Image)
      reads this
    {
      Image(n, dim, words, adjacency, entrypoint)
    }

    /**
     * `save_to_file`: an index without rows is refused. One node is written for each row; a row without lists is
     * written as a node without layers.
     */
    method SaveToFile() returns (r: Result<seq<byte>, Error>)
      ensures r == if n == 0 then Err(NoIndex) else Ok(Encode(Current().(adjacency := NodesOf(adjacency, n))))
      ensures n > 0 && |adjacency| == n ==> r == Ok(Encode(Current()))
    {
      if n == 0 {
        return Err(NoIndex);
      }
      var out := MAGIC + LE(1, 4) + LE(n, 8) + LE(dim, 8) + LE(Unsigned(entrypoint), 8);
      out := PutWords(out, words);
      ghost var start, nodes := out, NodesOf(adjacency, n);
      var node := 0;
      assert nodes[0..] == nodes;
      while node < n
        invariant 0 <= node <= n
        invariant out + WriteMany(NodeWriter(), nodes[node..]) == start + WriteMany(NodeWriter(), nodes)
      {
        WriteNext(out, NodeWriter(), nodes, node);
        out := PutNode(out, if node < |adjacency| then adjacency[node] else []);
        node := node + 1;
      }
      assert out + [] == out;
      assert |adjacency| == n ==> nodes == adjacency;
      r := Ok(out);
    }

    /** `load_from_file`: the live index changes only when the whole file has been accepted. */
    method LoadFromFile(file: seq<byte>) returns (r: Result<(), Error>)
      modifies this
      ensures r.Err? <==> Decode(file).Rejected?
      ensures r.Err? ==> r.error == Decode(file).error && Current() == old(Current())
      ensures r.Ok? ==> Current() == Decode(file).value
    {
      if |file| < 4 || file[..4] != MAGIC {
        return Err(BadMagic);
      }
      if |file| < 8 {
        return Err(Truncated);
      }
      if FromLE(file[4..8]) != 1 {
        return Err(UnsupportedVersion);
      }
      if |file| < 32 {
        return Err(Truncated);
      }
      var n64, d64, ep := FromLE(file[8..16]), FromLE(file[16..24]), Signed(FromLE(file[24..32]));
      if n64 > 0 && d64 == 0 {
        return Err(DimZero);
      }
      if d64 != 0 {
        OverflowGuard(n64, d64, U64 - 1);
      }
      if d64 != 0 && n64 > (U64 - 1) / d64 {
        return Err(TooLarge);
      }
      var vectors := TakeWords(file[32..], n64 * d64);
      if vectors.Rejected? {
        return Err(vectors.error);
      }
      var adj := TakeNodes(vectors.rest, n64);
      if adj.Rejected? {
        return Err(adj.error);
      }
      n, dim, words, adjacency, entrypoint := n64, d64, vectors.value, adj.value, ep;
      if entrypoint >= 0 && entrypoint >= n {
        entrypoint := if n > 0 then 0 else -1;
      }
      r := Ok(());
    }
  }
}
