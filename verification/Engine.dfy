module Engine {
  /**
   * `PersistenceEngine` as an object over the log, the index and index.bin. Its methods are proved to take the
   * steps of the protocol in `Persistence`, so that its invariant holds after each of them, raised or returned.
   */

  import opened Bytes
  import opened LayerHeal
  import opened Layers
  import opened HnswIndex
  import opened Options
  import opened Persistence
  import opened Wal

  /** How a delete or a replay ends. */
  datatype Outcome =
    | Deleted(transactionId: nat)
    | BadArgument          // append_begin_delete refuses; nothing has happened
    | Unpackable           // a field does not fit its column
    | EraseFailed(error: HnswIndex.Error)
    | FlushFailed

  datatype Recovery = Recovered | NothingPending | Deferred | Stopped(outcome: Outcome)

  // ----- the protocol steps of one call ---------------------------------------------

  /** The world with one delete in flight, for the BEGIN r. */
  function Flying(w: World, r: Record, stage: Stage, retires: Option<nat>): (w': World)
    requires r.Begin?
  {
    w.(ops := map[0 := Op(r.targetNodeId, r.maxM, r.transactionId, stage, retires)])
  }

  function Logged(w: World, r: Record): (w': World) {
    w.(log := w.log + [r], counter := r.transactionId)
  }

  /** What a crash leaves. */
  function Down(w: World): (w': World) {
    w.(up := false, mem := None, booting := false, todo := [], ops := map[])
  }

  ghost predicate Idle(w: World) {
    w.up && w.ops == map[]
  }

  lemma Falls(w: World, dim: nat, metric: Metric)
    requires Inv(w, dim)
    ensures Inv(Down(w), dim)
  {
    assert Step(w, Crash, Down(w), dim, metric);
    StepKeeps(w, Crash, Down(w), dim, metric);
  }

  lemma Starts(w: World, r: Record, dim: nat, metric: Metric)
    requires Inv(w, dim) && Idle(w) && !w.booting && r.Begin? && r.transactionId == w.counter + 1 && r.maxM >= 1
    ensures Inv(Flying(Logged(w, r), r, Begun, None), dim)
  {
    var e, w' := BeginDelete(0, r.targetNodeId, r.maxM, r.timestamp), Flying(Logged(w, r), r, Begun, None);
    assert w.ops[0 := w'.ops[0]] == w'.ops;
    StepKeeps(w, e, w', dim, metric);
  }

  lemma Restarts(w: World, r: Record, dim: nat, metric: Metric)
    requires Inv(w, dim) && Idle(w) && w.booting && w.todo != [] && w.todo[0].Begin?
    requires r == Begin(r.timestamp, w.counter + 1, w.todo[0].targetNodeId, w.todo[0].maxM)
    ensures Inv(Flying(Logged(w, r).(todo := w.todo[1..]), r, Begun, Some(w.todo[0].transactionId)), dim)
  {
    var w' := Flying(Logged(w, r).(todo := w.todo[1..]), r, Begun, Some(w.todo[0].transactionId));
    StepKeeps(w, Replay(0, r.timestamp), w', dim, metric);
  }

  /** A BEGIN whose erasure raised; at most the row has been overwritten. */
  lemma StaysBegun(w: World, r: Record, dim: nat, metric: Metric)
    requires r.Begin? && Inv(Flying(w, r, Begun, None), dim) && !w.booting && w.ops == map[]
    ensures Inv(w, dim)
  {
    var w1 := Flying(w, r, Begun, None);
    assert WithoutKey(w1.ops, 0) == map[];
    assert Step(w1, EraseFails(0), w, dim, metric);
    StepKeeps(w1, EraseFails(0), w, dim, metric);
  }

  /** An attempt overwrites the row and then does not get the locks of the heal. */
  lemma Overwrites(w: World, r: Record, retires: Option<nat>, dim: nat, metric: Metric)
    requires r.Begin? && Inv(Flying(w, r, Begun, retires), dim)
    requires w.mem.Some? && r.targetNodeId < |w.mem.value.data|
    ensures Inv(Flying(w.(mem := Some(WipedRow(w.mem.value, r.targetNodeId, dim))), r, Begun, retires), dim)
  {
    var w1 := Flying(w, r, Begun, retires);
    var w2 := Flying(w.(mem := Some(WipedRow(w.mem.value, r.targetNodeId, dim))), r, Begun, retires);
    StepKeeps(w1, Wipe(0), w2, dim, metric);
  }

  lemma Flies(w: World, r: Record, retires: Option<nat>, after: State, t: HealingMetrics, dim: nat, metric: Metric)
    requires r.Begin? && Inv(Flying(w, r, Begun, retires), dim) && w.mem.Some?
    requires HnswIndex.Erases(w.mem.value, after, r.targetNodeId, r.maxM, dim, metric, t)
    ensures Inv(Flying(w.(mem := Some(after)), r, Erased, retires), dim)
    ensures Inv(Flying(w.(mem := Some(after), disk := Some(after)), r, Published, retires), dim)
  {
    var w1, w2 := Flying(w, r, Begun, retires), Flying(w.(mem := Some(after)), r, Erased, retires);
    assert w1.ops[0 := w2.ops[0]] == w2.ops;
    StepKeeps(w1, Erase(0, after, t), w2, dim, metric);
    Publishes(w.(mem := Some(after)), r, retires, after, dim, metric);
  }

  lemma Publishes(w: World, r: Record, retires: Option<nat>, s: State, dim: nat, metric: Metric)
    requires r.Begin? && w.mem == Some(s) && Inv(Flying(w, r, Erased, retires), dim)
    ensures Inv(Flying(w.(disk := Some(s)), r, Published, retires), dim)
  {
    var w1, w2 := Flying(w, r, Erased, retires), Flying(w, r, Saved(s), retires);
    var w3 := Flying(w.(disk := Some(s)), r, Published, retires);
    assert w1.ops[0 := w2.ops[0]] == w2.ops && w2.ops[0 := w3.ops[0]] == w3.ops;
    StepKeeps(w1, Save(0), w2, dim, metric);
    StepKeeps(w2, Publish(0), w3, dim, metric);
  }

  /** A delete that raises after the erasure is forgotten; its BEGIN stays open. */
  lemma Drops(w: World, r: Record, stage: Stage, dim: nat, metric: Metric)
    requires r.Begin? && Inv(Flying(w, r, stage, None), dim) && !stage.Begun? && !w.booting && w.ops == map[]
    ensures Inv(w, dim)
  {
    var w1 := Flying(w, r, stage, None);
    assert WithoutKey(w1.ops, 0) == map[];
    assert Step(w1, Abandon(0), w, dim, metric);
    StepKeeps(w1, Abandon(0), w, dim, metric);
  }

  lemma Lands(w: World, r: Record, ts: nat, dim: nat, metric: Metric)
    requires r.Begin? && Inv(Flying(w, r, Published, None), dim) && w.ops == map[]
    ensures Inv(w.(log := w.log + [Commit(ts, r.transactionId)]), dim)
  {
    var w1, w2 := Flying(w, r, Published, None), w.(log := w.log + [Commit(ts, r.transactionId)]);
    assert WithoutKey(w1.ops, 0) == map[];
    assert Step(w1, CommitNew(0, ts), w2, dim, metric);
    StepKeeps(w1, CommitNew(0, ts), w2, dim, metric);
  }

  lemma Retires(w: World, r: Record, orphan: nat, ts: nat, dim: nat, metric: Metric)
    requires r.Begin? && Inv(Flying(w, r, Published, Some(orphan)), dim) && w.ops == map[]
    ensures Inv(Flying(w.(log := w.log + [Commit(ts, r.transactionId)]), r, Retiring, Some(orphan)), dim)
    ensures Inv(w.(log := w.log + [Commit(ts, r.transactionId)] + [Commit(ts, orphan)]), dim)
  {
    var w1, w2 := Flying(w, r, Published, Some(orphan)),
                  Flying(w.(log := w.log + [Commit(ts, r.transactionId)]), r, Retiring, Some(orphan));
    var w3 := w.(log := w.log + [Commit(ts, r.transactionId)] + [Commit(ts, orphan)]);
    assert w1.ops[0 := w2.ops[0]] == w2.ops && WithoutKey(w2.ops, 0) == map[];
    StepKeeps(w1, CommitNew(0, ts), w2, dim, metric);
    assert Step(w2, CommitOld(0, ts), w3, dim, metric);
    StepKeeps(w2, CommitOld(0, ts), w3, dim, metric);
  }

  /** An id taken for a record that could not be written is lost, no more. */
  lemma BurnsId(w: World, dim: nat)
    requires Inv(w, dim)
    ensures Inv(w.(counter := w.counter + 1), dim)
  {
    var w' := w.(counter := w.counter + 1);
    forall id | id in w'.ops ensures OpInv(w', w'.ops[id], dim) {
      assert OpInv(w, w.ops[id], dim);
    }
    SameHands(w, w', 0);
  }

  lemma BootsDone(w: World, dim: nat, metric: Metric)
    requires Inv(w, dim) && Idle(w) && w.booting && w.todo == []
    ensures Inv(w.(booting := false), dim)
  {
    assert Step(w, BootDone, w.(booting := false), dim, metric);
    StepKeeps(w, BootDone, w.(booting := false), dim, metric);
  }

  // ----- the engine -----------------------------------------------------------------

  /** What `load_from_file` accepts as a checkpoint of rows of length dim. */
  ghost predicate Loadable(s: State, dim: nat) {
    && s.data != [] && |s.data| == |s.adjacency| && Sound(s.adjacency)
    && forall i :: 0 <= i < |s.data| ==> |s.data[i]| == dim
  }

  /** Some open BEGIN names no row of the index. */
  ghost predicate Unreplayable(log: seq<Record>, s: State) {
    exists b :: b in Uncommitted(log, CommittedIds(log)) && b.Begin? && b.targetNodeId >= |s.data|
  }

  // ----- retries --------------------------------------------------------------------

  /** Some of the first n attempts overwrites the row. */
  ghost predicate Wipes(locks: nat -> Grant, n: nat) {
    exists i: nat :: i < n && locks(i).wipe
  }

  /** Some of the first n attempts gets all its locks. */
  ghost predicate Heals(locks: nat -> Grant, n: nat) {
    exists i: nat :: i < n && locks(i).wipe && locks(i).heal
  }

  /** The node is one of the rows, and some of the first n attempts to erase it gets all its locks. */
  ghost predicate Erasable(rows: nat, node: int, locks: nat -> Grant, n: nat) {
    0 <= node < rows && Heals(locks, n)
  }

  /** The arguments are those of a BEGIN, and its fields fit their columns. */
  ghost predicate Writable(ts: nat, tx: nat, node: int, maxM: int) {
    node >= 0 && maxM >= 1 && Packable(Begin(ts, tx, node, maxM))
  }

  /** How the replay of the open BEGIN b under the id tx ends. */
  ghost predicate EndsAs(b: Record, rows: nat, tx: nat, locks: nat -> Grant, flushes: bool, now: nat, later: nat,
                         n: nat, r: Outcome)
  {
    b.Begin? &&
    var begun, done := Writable(now, tx, b.targetNodeId, b.maxM), Erasable(rows, b.targetNodeId, locks, n);
    && (r.BadArgument? <==> b.maxM < 1)
    && (r.EraseFailed? <==> begun && !done)
    && (r.EraseFailed? ==> r.error == if b.targetNodeId >= rows then OutOfRange else LockContention)
    && (r.FlushFailed? <==> begun && done && !flushes)
    && (r.Deleted? <==> begun && done && flushes && Packable(Commit(later, tx)) && Packable(Commit(later, b.transactionId)))
    && (r.Deleted? ==> r.transactionId == tx)
  }

  /** What is outside the engine during a recovery: the clock, the locks, the disk, and the attempts per erasure. */
  datatype Outside = Outside(clock: nat -> nat, locks: nat -> nat -> Grant, flushes: nat -> bool, attempts: nat)

  /** How the i-th replay ends; each takes the next transaction id and two readings of the clock. */
  ghost predicate Replays(b: Record, i: nat, rows: nat, counter: nat, o: Outside, r: Outcome) {
    EndsAs(b, rows, counter + i + 1, o.locks(i), o.flushes(i), o.clock(2 * i), o.clock(2 * i + 1), o.attempts, r)
  }

  /** The first k of the open BEGINs are replayed. */
  ghost predicate AllReplay(pending: seq<Record>, k: nat, rows: nat, counter: nat, o: Outside) {
    k <= |pending| && forall i :: 0 <= i < k ==> Replays(pending[i], i, rows, counter, o, Deleted(counter + i + 1))
  }

  /** The k-th of the open BEGINs is the first whose replay raises. */
  ghost predicate StopsAt(pending: seq<Record>, k: nat, rows: nat, counter: nat, o: Outside, r: Outcome) {
    k < |pending| && AllReplay(pending, k, rows, counter, o) && !r.Deleted? && Replays(pending[k], k, rows, counter, o, r)
  }

  /** How a recovery of these open BEGINs ends, on an index with so many rows. */
  ghost predicate RecoveryEnds(pending: seq<Record>, rows: nat, counter: nat, o: Outside, r: Recovery) {
    && (r.NothingPending? <==> pending == [])
    && (r.Deferred? <==> pending != [] && rows == 0)
    && (r.Recovered? <==> pending != [] && rows > 0 && AllReplay(pending, |pending|, rows, counter, o))
    && (r.Stopped? ==> exists k :: StopsAt(pending, k, rows, counter, o, r.outcome))
  }

  lemma ReplaysNext(pending: seq<Record>, todo: seq<Record>, i: nat, rows: nat, tx: nat, counter: nat, o: Outside)
    requires i < |pending| && todo == pending[i..] && tx == counter + i + 1 && AllReplay(pending, i, rows, counter, o)
    ensures todo[0] == pending[i] && todo[1..] == pending[i + 1..]
    ensures forall r :: EndsAs(todo[0], rows, tx, o.locks(i), o.flushes(i), o.clock(2 * i), o.clock(2 * i + 1),
                               o.attempts, r) ==>
              if r.Deleted? then AllReplay(pending, i + 1, rows, counter, o) else StopsAt(pending, i, rows, counter, o, r)
  {
  }

  /** Recovery cannot both get through and stop. */
  lemma StoppedOrDone(pending: seq<Record>, k: nat, rows: nat, counter: nat, o: Outside, r: Outcome)
    requires StopsAt(pending, k, rows, counter, o, r)
    ensures !AllReplay(pending, |pending|, rows, counter, o)
  {
    var done := Deleted(counter + k + 1);
    assert !Replays(pending[k], k, rows, counter, o, done);
  }

  /** If all are replayed each names a row and gets its locks in some attempt. */
  lemma AllReplayed(pending: seq<Record>, rows: nat, counter: nat, o: Outside)
    requires AllReplay(pending, |pending|, rows, counter, o)
    ensures forall i :: 0 <= i < |pending| ==>
              pending[i].Begin? && pending[i].targetNodeId < rows && Heals(o.locks(i), o.attempts)
  {
    forall i | 0 <= i < |pending|
      ensures pending[i].Begin? && pending[i].targetNodeId < rows && Heals(o.locks(i), o.attempts)
    {
      assert Replays(pending[i], i, rows, counter, o, Deleted(counter + i + 1));
    }
  }

  /** An erasure that finds the row overwritten by an earlier attempt is one of the original state. */
  lemma ErasesAgain(s: State, s': State, q: int, m: int, dim: nat, metric: Metric, t: HealingMetrics)
    requires 0 <= q < |s.data| && HnswIndex.Erases(WipedRow(s, q, dim), s', q, m, dim, metric, t)
    ensures HnswIndex.Erases(s, s', q, m, dim, metric, t)
  {
    assert s.data[q := Zeros(dim)][q := Zeros(dim)] == s.data[q := Zeros(dim)];
  }

  class PersistenceEngine {
    const wal: WriteAheadLog
    const index: Index
    const dim: nat
    /** How often an erasure is attempted before lock contention is reported: 1 without a retry policy. */
    const attempts: nat
    /** index.bin. */
    var disk: Option<State>

    function Mem(): (m: Option<State>)
      reads index
    {
      if index.data == [] then None else Some(State(index.data, index.adjacency, index.entrypoint))
    }

    /** The world between two calls, or inside recovery. */
    ghost function Live(booting: bool, todo: seq<Record>): (w: World)
      reads this, wal, index
    {
      World(wal.log, disk, true, Mem(), wal.txCounter, booting, todo, map[])
    }

    ghost predicate Parts()
      reads this, wal, index
    {
      && wal.Valid() && wal.tail == [] && index.Valid() && (index.data != [] ==> index.dim == dim)
      && (disk.Some? ==> Loadable(disk.value, dim))
    }

    /** Serving: the parts are sound and the invariant of the protocol holds. */
    ghost predicate Valid()
      reads this, wal, index
    {
      Parts() && Inv(Live(false, []), dim)
    }

    /** Started, with the recovery still to run if there is a checkpoint. */
    ghost predicate Started()
      reads this, wal, index
    {
      && Parts() && disk == Mem()
      && Inv(Live(disk.Some?, if disk.Some? then Uncommitted(wal.log, CommittedIds(wal.log)) else []), dim)
    }

    /** Whatever happens next, a crash included, no committed delete is undone. */
    ghost predicate Durable()
      reads this, wal, index
    {
      Inv(Down(Live(false, [])), dim)
    }

    /** A process starts on what the last one left: `WriteAheadLog(...)` and `load_index_if_present`. */
    constructor (sha: Digest, file: seq<byte>, ghost log: seq<Record>, disk: Option<State>, dim: nat, metric: Metric,
                 attempts: nat)
      requires IsDigest(sha) && IsMetric(metric) && file == EncodeAll(log, sha) && TxIncreasing(log)
      requires forall r :: r in log ==> Packable(r)
      requires disk.Some? ==> Loadable(disk.value, dim)
      requires Inv(World(log, disk, false, None, 0, false, [], map[]), dim)
      ensures Started() && wal.log == log && this.disk == disk && fresh(wal) && fresh(index)
    {
      assert EncodeAll(log, sha) + [] == EncodeAll(log, sha);
      var w := new WriteAheadLog(sha, file, log, []);
      var i := new Index(metric);
      if disk.Some? {
        i.Replace(dim, disk.value.data, disk.value.adjacency, disk.value.entrypoint);
      }
      wal, index, this.disk, this.dim, this.attempts := w, i, disk, dim, attempts;
      new;
      ghost var down, up := World(log, disk, false, None, 0, false, [], map[]), Live(disk.Some?, if disk.Some? then Pending(log) else []);
      assert Step(down, Boot, up, dim, metric);
      StepKeeps(down, Boot, up, dim, metric);
      PendingIsUncommitted(log);
    }

    /** `atomic_flush_index`: the new checkpoint is published whole, or an I/O error leaves the old one. */
    method AtomicFlushIndex(works: bool) returns (ok: bool)
      requires Parts() && index.data != []
      modifies this
      ensures Parts() && ok == works
      ensures disk == if works then Some(State(index.data, index.adjacency, index.entrypoint)) else old(disk)
    {
      ok := works;
      if ok {
        disk := Some(State(index.data, index.adjacency, index.entrypoint));
      }
    }

    function Attempts(): (n: nat)
      ensures n >= 1 && n >= attempts && (n == 1 || n == attempts)
    {
      if attempts < 1 then 1 else attempts
    }

    /**
     * What a delete under a BEGIN has done to the index in memory. The erasure fails without a trace if there
     * is no such row; if no attempt got all its locks, one that got the first has left the row overwritten.
     */
    ghost predicate ErasureOutcome(before: Option<State>, after: Option<State>, node: int, maxM: int,
                                   locks: nat -> Grant, r: Outcome, t: HealingMetrics)
      reads index
    {
      if before == None || !(0 <= node < |before.value.data|) then
        r == EraseFailed(if before == None then NotLoaded else OutOfRange) && after == before
      else if Heals(locks, Attempts()) then
        !r.EraseFailed? && after.Some? && Erases(before.value, after.value, node, maxM, dim, index.metric, t)
      else
        && r == EraseFailed(LockContention)
        && after == Some(if Wipes(locks, Attempts()) then WipedRow(before.value, node, dim) else before.value)
    }

    /** The invariant with the delete of BEGIN b in flight. */
    ghost predicate InFlight(booting: bool, todo: seq<Record>, b: Record, stage: Stage, retires: Option<nat>)
      reads this, wal, index
    {
      b.Begin? && Parts() && Inv(Flying(Live(booting, todo), b, stage, retires), dim)
    }

    /** `with_lock_retry` around `erase_node`: attempts are repeated while locks time out. */
    method EraseRetrying(node: nat, maxM: int, locks: nat -> Grant) returns (r: Result<HealingMetrics, HnswIndex.Error>)
      requires index.Valid() && maxM >= 1
      modifies index`data, index`adjacency, index`entrypoint
      ensures index.Valid()
      ensures old(Mem()) == None || node >= |old(Mem()).value.data| ==>
                && r == Err(if old(Mem()) == None then NotLoaded else OutOfRange) && unchanged(index)
      ensures old(Mem()).Some? && node < |old(Mem()).value.data| ==>
                && Mem().Some?
                && r.Ok? == Heals(locks, Attempts())
                && (r.Ok? ==> Erases(old(Mem()).value, Mem().value, node, maxM, index.dim, index.metric, r.value))
                && (r.Err? ==> r.error == LockContention
                               && Mem() == Some(if Wipes(locks, Attempts())
                                                then WipedRow(old(Mem()).value, node, index.dim)
                                                else old(Mem()).value))
    {
      ghost var s := State(index.data, index.adjacency, index.entrypoint);
      r := Err(LockContention);
      var i := 0;
      while i < Attempts() && r == Err(LockContention)
        invariant 0 <= i <= Attempts() && index.Valid()
        invariant s.data == [] || node >= |s.data| ==>
                    && unchanged(index)
                    && r == Err(if i == 0 then LockContention else if s.data == [] then NotLoaded else OutOfRange)
        invariant 0 <= node < |s.data| ==>
                    && r.Ok? == Heals(locks, i)
                    && var s' := State(index.data, index.adjacency, index.entrypoint);
                       if r.Ok? then Erases(s, s', node, maxM, index.dim, index.metric, r.value)
                       else r.error == LockContention && s' == if Wipes(locks, i) then WipedRow(s, node, index.dim) else s
      {
        ghost var wiped := Wipes(locks, i);
        r := index.EraseNode(node, maxM, locks(i));
        if node < |s.data| {
          if wiped {
            assert s.data[node := Zeros(index.dim)][node := Zeros(index.dim)] == s.data[node := Zeros(index.dim)];
            if r.Ok? {
              ErasesAgain(s, State(index.data, index.adjacency, index.entrypoint), node, maxM, index.dim, index.metric,
                          r.value);
            }
          }
        }
        i := i + 1;
      }
    }

    /** What `hard_delete_and_heal` and `_replay_one` share: erase and flush under a BEGIN that is in the log. */
    method EraseAndFlush(b: Record, locks: nat -> Grant, flushes: bool, ghost booting: bool, ghost todo: seq<Record>,
                         ghost retires: Option<nat>)
      returns (r: Outcome, ghost t: HealingMetrics)
      requires InFlight(booting, todo, b, Begun, retires) && b.maxM >= 1
      modifies this, index
      ensures r.Deleted? <==> Erasable(old(|index.data|), b.targetNodeId, locks, Attempts()) && flushes
      ensures r.FlushFailed? <==> Erasable(old(|index.data|), b.targetNodeId, locks, Attempts()) && !flushes
      ensures r.EraseFailed? <==> !Erasable(old(|index.data|), b.targetNodeId, locks, Attempts())
      ensures r.Deleted? ==> InFlight(booting, todo, b, Published, retires) && disk == Mem()
      ensures r.FlushFailed? ==> InFlight(booting, todo, b, Erased, retires) && disk == old(disk)
      ensures r.EraseFailed? ==> InFlight(booting, todo, b, Begun, retires) && disk == old(disk)
      ensures r.Deleted? ==> r.transactionId == b.transactionId
      ensures ErasureOutcome(old(Mem()), Mem(), b.targetNodeId, b.maxM, locks, r, t)
    {
      ghost var w := Live(booting, todo);
      t := HealingMetrics(0, 0);
      var erased := EraseRetrying(b.targetNodeId, b.maxM, locks);
      if erased.Err? {
        if erased.error == LockContention && Wipes(locks, Attempts()) {
          Overwrites(w, b, retires, dim, index.metric);
        }
        return EraseFailed(erased.error), t;
      }
      t := erased.value;
      Flies(w, b, retires, Mem().value, t, dim, index.metric);
      var flushed := AtomicFlushIndex(flushes);
      r := if flushed then Deleted(b.transactionId) else FlushFailed;
    }

    /** The BEGIN of a delete. */
    method Intend(node: int, maxM: int, now: nat) returns (r: Wal.Outcome<Record>)
      requires Valid()
      modifies wal
      ensures r.ValueError? <==> node < 0 || maxM < 1
      ensures r.Done? <==> Writable(now, old(wal.txCounter) + 1, node, maxM)
      ensures !r.Done? ==> Valid() && wal.log == old(wal.log)
      ensures r.Done? ==>
                && r.value == Begin(now, old(wal.txCounter) + 1, node, maxM) && wal.log == old(wal.log) + [r.value]
                && InFlight(false, [], r.value, Begun, None)
    {
      ghost var w := Live(false, []);
      r := wal.AppendBeginDelete(node, maxM, None, now);
      if r.StructError? {
        BurnsId(w, dim);
      } else if r.Done? {
        FliesFirst(w, r.value);
      }
    }

    lemma FliesFirst(w: World, r: Record)
      requires Inv(w, dim) && Idle(w) && !w.booting && w.todo == [] && Parts()
      requires r.Begin? && r.transactionId == w.counter + 1 && r.maxM >= 1
      requires wal.log == w.log + [r] && wal.txCounter == w.counter + 1 && disk == w.disk && Mem() == w.mem
      ensures InFlight(false, [], r, Begun, None)
    {
      Starts(w, r, dim, index.metric);
      assert Live(false, []) == Logged(w, r);
    }

    /** A delete that raised is forgotten. */
    lemma GivesUp(b: Record, stage: Stage)
      requires InFlight(false, [], b, stage, None)
      ensures Valid()
    {
      if stage.Begun? {
        StaysBegun(Live(false, []), b, dim, index.metric);
      } else {
        Drops(Live(false, []), b, stage, dim, index.metric);
      }
    }

    /** The COMMIT of a delete that has been flushed. */
    method Conclude(b: Record, later: nat) returns (ok: bool)
      requires InFlight(false, [], b, Published, None)
      modifies wal
      ensures Valid() && (ok <==> Packable(Commit(later, b.transactionId)))
      ensures wal.log == old(wal.log) + if ok then [Commit(later, b.transactionId)] else []
    {
      ghost var w := Live(false, []);
      var commit := wal.AppendCommit(b.transactionId, later);
      ok := commit.Done?;
      if ok {
        Lands(w, b, later, dim, index.metric);
      } else {
        GivesUp(b, Published);
      }
    }

    /** The rest of a delete once its BEGIN is in the log. */
    method CarryOut(b: Record, locks: nat -> Grant, flushes: bool, later: nat)
      returns (r: Outcome, ghost t: HealingMetrics)
      requires InFlight(false, [], b, Begun, None) && b.maxM >= 1
      modifies this, wal, index
      ensures Valid() && !r.BadArgument?
      ensures wal.log == old(wal.log) + if r.Deleted? then [Commit(later, b.transactionId)] else []
      ensures var done := Erasable(old(|index.data|), b.targetNodeId, locks, Attempts());
              && (r.EraseFailed? <==> !done) && (r.FlushFailed? <==> done && !flushes)
              && (r.Deleted? <==> done && flushes && Packable(Commit(later, b.transactionId)))
      ensures r.Deleted? ==> r.transactionId == b.transactionId
      ensures ErasureOutcome(old(Mem()), Mem(), b.targetNodeId, b.maxM, locks, r, t)
      ensures disk == if r.EraseFailed? || r.FlushFailed? then old(disk) else Mem()
    {
      r, t := EraseAndFlush(b, locks, flushes, false, [], None);
      if r.Deleted? {
        var committed := Conclude(b, later);
        if !committed {
          r := Unpackable;
        }
      } else {
        GivesUp(b, if r.EraseFailed? then Begun else Erased);
      }
    }

    /**
     * `hard_delete_and_heal`: BEGIN, erase, flush, COMMIT; a failure on the way leaves the BEGIN open. `flushes`
     * says whether the flush gets through.
     */
    method HardDeleteAndHeal(node: int, maxM: int, locks: nat -> Grant, flushes: bool, now: nat, later: nat)
      returns (r: Outcome, ghost t: HealingMetrics)
      requires Valid()
      modifies this, wal, index
      ensures Valid()
      ensures r.BadArgument? <==> node < 0 || maxM < 1
      ensures var tx := old(wal.txCounter) + 1;
              var begun, done := Writable(now, tx, node, maxM), Erasable(old(|index.data|), node, locks, Attempts());
              && (r.Deleted? <==> begun && done && flushes && Packable(Commit(later, tx)))
              && (r.EraseFailed? <==> begun && !done)
              && (r.FlushFailed? <==> begun && done && !flushes)
              && (r.Deleted? ==> r.transactionId == tx)
              && wal.log == old(wal.log) + (if begun then [Begin(now, tx, node, maxM)] else [])
                                         + (if r.Deleted? then [Commit(later, tx)] else [])
              && (begun ==> ErasureOutcome(old(Mem()), Mem(), node, maxM, locks, r, t))
              && (!begun ==> Mem() == old(Mem()))
              && disk == if begun && done && flushes then Mem() else old(disk)
    {
      t := HealingMetrics(0, 0);
      var begin := Intend(node, maxM, now);
      if begin.Done? {
        r, t := CarryOut(begin.value, locks, flushes, later);
      } else {
        r := if begin.ValueError? then BadArgument else Unpackable;
      }
    }

    // ----- recovery ---------------------------------------------------------------

    /** Inside recovery, with these records still to replay. */
    ghost predicate Replaying(todo: seq<Record>)
      reads this, wal, index
    {
      && Parts() && Inv(Live(true, todo), dim)
      && forall i :: 0 <= i < |todo| ==> todo[i].Begin?
    }

    /** A recovery that raises ends the process. */
    lemma Dies(w: World)
      requires Inv(w, dim) && w.log == wal.log && w.disk == disk && w.counter == wal.txCounter
      ensures Durable()
    {
      Falls(w, dim, index.metric);
    }

    /** The same when an id has been taken for a record that could not be written. */
    lemma DiesBurnt(w: World)
      requires Inv(w, dim) && w.log == wal.log && w.disk == disk && w.counter + 1 == wal.txCounter
      ensures Durable()
    {
      BurnsId(w, dim);
      Dies(w.(counter := w.counter + 1));
    }

    lemma FliesAgain(w: World, r: Record)
      requires Inv(w, dim) && Idle(w) && w.booting && w.todo != [] && w.todo[0].Begin? && Parts()
      requires r == Begin(r.timestamp, w.counter + 1, w.todo[0].targetNodeId, w.todo[0].maxM)
      requires wal.log == w.log + [r] && wal.txCounter == w.counter + 1 && disk == w.disk && Mem() == w.mem
      ensures InFlight(true, w.todo[1..], r, Begun, Some(w.todo[0].transactionId))
    {
      Restarts(w, r, dim, index.metric);
      assert Live(true, w.todo[1..]) == Logged(w, r).(todo := w.todo[1..]);
    }

    /** The BEGIN of a replay. */
    method IntendAgain(todo: seq<Record>, now: nat) returns (r: Wal.Outcome<Record>)
      requires Replaying(todo) && todo != []
      modifies wal
      ensures r.Done? <==> Writable(now, old(wal.txCounter) + 1, todo[0].targetNodeId, todo[0].maxM)
      ensures r.ValueError? <==> todo[0].maxM < 1
      ensures !r.Done? ==> Durable() && wal.log == old(wal.log)
      ensures r.Done? ==>
                && wal.txCounter == old(wal.txCounter) + 1
                && r.value == Begin(now, wal.txCounter, todo[0].targetNodeId, todo[0].maxM) && r.value.maxM >= 1
                && wal.log == old(wal.log) + [r.value]
                && InFlight(true, todo[1..], r.value, Begun, Some(todo[0].transactionId))
    {
      ghost var w := Live(true, todo);
      var b := todo[0];
      r := wal.AppendBeginDelete(b.targetNodeId, b.maxM, None, now);
      if r.Done? {
        FliesAgain(w, r.value);
      } else if r.StructError? {
        DiesBurnt(w);
      } else {
        Dies(w);
      }
    }

    /** The two COMMITs of a replay: its own, then that of the orphan. */
    method ConcludeBoth(b: Record, orphan: nat, ghost todo: seq<Record>, later: nat) returns (ok: bool)
      requires InFlight(true, todo, b, Published, Some(orphan))
      modifies wal
      ensures ok <==> Packable(Commit(later, b.transactionId)) && Packable(Commit(later, orphan))
      ensures ok ==> Parts() && Inv(Live(true, todo), dim) && wal.txCounter == old(wal.txCounter)
      ensures ok ==> wal.log == old(wal.log) + [Commit(later, b.transactionId)] + [Commit(later, orphan)]
      ensures !ok ==> Durable()
    {
      ghost var w := Live(true, todo);
      Retires(w, b, orphan, later, dim, index.metric);
      var first := wal.AppendCommit(b.transactionId, later);
      if !first.Done? {
        Dies(Flying(w, b, Published, Some(orphan)));
        return false;
      }
      var second := wal.AppendCommit(orphan, later);
      ok := second.Done?;
      if !ok {
        Dies(Flying(Live(true, todo), b, Retiring, Some(orphan)));
      }
    }

    /** `_replay_one`. */
    method ReplayOne(todo: seq<Record>, locks: nat -> Grant, flushes: bool, now: nat, later: nat)
      returns (r: Outcome, ghost t: HealingMetrics)
      requires Replaying(todo) && todo != [] && Mem().Some?
      modifies this, wal, index
      ensures EndsAs(todo[0], old(|index.data|), old(wal.txCounter) + 1, locks, flushes, now, later, Attempts(), r)
      ensures r.Deleted? ==>
                && Replaying(todo[1..]) && disk == Mem() && Mem().Some? && wal.txCounter == old(wal.txCounter) + 1
                && Erases(old(Mem()).value, Mem().value, todo[0].targetNodeId, todo[0].maxM, dim, index.metric, t)
                && wal.log == old(wal.log) + [Begin(now, wal.txCounter, todo[0].targetNodeId, todo[0].maxM)]
                                           + [Commit(later, wal.txCounter)] + [Commit(later, todo[0].transactionId)]
      ensures !r.Deleted? ==> Durable()
    {
      t := HealingMetrics(0, 0);
      var begin := IntendAgain(todo, now);
      if !begin.Done? {
        r := if begin.ValueError? then BadArgument else Unpackable;
        return;
      }
      r, t := EraseAndFlush(begin.value, locks, flushes, true, todo[1..], Some(todo[0].transactionId));
      if !r.Deleted? {
        Dies(Flying(Live(true, todo[1..]), begin.value, if r.EraseFailed? then Begun else Erased,
                    Some(todo[0].transactionId)));
        return;
      }
      var committed := ConcludeBoth(begin.value, todo[0].transactionId, todo[1..], later);
      if !committed {
        r := Unpackable;
      }
    }

    /** Nothing is open, and every node ever named by a BEGIN is zero in memory and in index.bin. */
    ghost predicate Converged()
      reads this, wal, index
    {
      && Valid() && Uncommitted(wal.log, CommittedIds(wal.log)) == [] && disk.Some? && Mem().Some?
      && forall b :: b in wal.log && b.Begin? ==>
           ZeroRow(disk.value, b.targetNodeId, dim) && ZeroRow(Mem().value, b.targetNodeId, dim)
    }

    /** Nothing is left to replay. */
    lemma Converges()
      requires Replaying([])
      ensures Converged()
    {
      RecoveredState(Live(true, []), dim);
      BootsDone(Live(true, []), dim, index.metric);
    }

    /**
     * `recover_uncommitted`. It completes if and only if the replay of every open BEGIN gets through: the node is a
     * row, some attempt gets its locks, the flush works and the new records fit their columns. Otherwise it stops
     * at the first that does not, with that outcome. `locks(i)` and `flushes(i)` are about the i-th open BEGIN.
     */
    method RecoverUncommitted(clock: nat -> nat, locks: nat -> nat -> Grant, flushes: nat -> bool) returns (r: Recovery)
      requires Started()
      modifies this, wal, index
      ensures r.Stopped? ==> Durable()
      ensures !r.Stopped? ==> Valid()
      ensures r.Recovered? ==> Converged()
      ensures r.NothingPending? || r.Deferred? ==> wal.log == old(wal.log) && Mem() == old(Mem()) && disk == old(disk)
      ensures RecoveryEnds(Uncommitted(old(wal.log), CommittedIds(old(wal.log))), old(|index.data|), old(wal.txCounter),
                           Outside(clock, locks, flushes, Attempts()), r)
    {
      var scanned := wal.UncommittedDeletes();
      var pending := scanned.value;
      if pending == [] {
        if disk.Some? {
          BootsDone(Live(true, []), dim, index.metric);
        }
        return NothingPending;
      }
      if index.data == [] {
        return Deferred;
      }
      r := ReplayAll(pending, clock, locks, flushes);
    }

    method ReplayAll(pending: seq<Record>, clock: nat -> nat, locks: nat -> nat -> Grant, flushes: nat -> bool)
      returns (r: Recovery)
      requires Replaying(pending) && Mem().Some?
      modifies this, wal, index
      ensures r.Recovered? || r.Stopped?
      ensures r.Stopped? ==> Durable()
      ensures r.Recovered? ==> Converged()
      ensures var rows, c, o := old(|index.data|), old(wal.txCounter), Outside(clock, locks, flushes, Attempts());
              && (r.Recovered? <==> AllReplay(pending, |pending|, rows, c, o))
              && (r.Stopped? ==> exists k :: StopsAt(pending, k, rows, c, o, r.outcome))
    {
      ghost var rows, c, o := |index.data|, wal.txCounter, Outside(clock, locks, flushes, Attempts());
      var i, todo := 0, pending;
      while i < |pending|
        invariant 0 <= i <= |pending| && todo == pending[i..] && Replaying(todo)
        invariant Mem().Some? && |index.data| == rows && wal.txCounter == c + i
        invariant AllReplay(pending, i, rows, c, o)
      {
        ReplaysNext(pending, todo, i, rows, wal.txCounter + 1, c, o);
        ghost var t;
        var one;
        one, t := ReplayOne(todo, locks(i), flushes(i), clock(2 * i), clock(2 * i + 1));
        if !one.Deleted? {
          StoppedOrDone(pending, i, rows, c, o, one);
          return Stopped(one);
        }
        i, todo := i + 1, todo[1..];
      }
      Converges();
      r := Recovered;
    }
  }
}
