module Persistence {
  /**
   * The durable-delete protocol as a transition system: any number of deletes in flight, a crash possible at
   * every step, and a restart that recovers. Appends to the log and the replacement of index.bin are atomic.
   */

  import opened Wal
  import opened HnswIndex
  import opened Options
  import opened Seqs

  /** How far a delete has come; `Saved` holds what was written to index.bin.tmp. */
  datatype Stage = Begun | Erased | Saved(snapshot: State) | Published | Retiring

  /** A delete in flight; one that replays an old record also names the transaction to retire. */
  datatype Op = Op(node: nat, maxM: int, tx: nat, stage: Stage, retires: Option<nat>)

  datatype World = World(
    log: seq<Record>,         // index.wal
    disk: Option<State>,      // index.bin
    up: bool,                 // is the process alive?
    mem: Option<State>,       // the index in memory
    counter: nat,             // transaction ids handed out by this process
    booting: bool,            // is start-up recovery running?
    todo: seq<Record>,        // records recovery has yet to replay
    ops: map<nat, Op>)        // deletes in flight

  datatype Event =
    | Boot
    | Load(index: State)
    | Checkpoint
    | BeginDelete(id: nat, node: nat, maxM: int, ts: nat)
    | Replay(id: nat, ts: nat)
    | Wipe(id: nat)
    | Erase(id: nat, after: State, metrics: HealingMetrics)
    | EraseFails(id: nat)
    | Save(id: nat)
    | Abandon(id: nat)
    | Publish(id: nat)
    | CommitNew(id: nat, ts: nat)
    | CommitOld(id: nat, ts: nat)
    | BootDone
    | Crash

  ghost predicate ZeroRow(s: State, x: int, dim: nat) {
    0 <= x < |s.data| && s.data[x] == Zeros(dim)
  }

  ghost predicate NobodySaving(w: World) {
    forall id :: id in w.ops ==> !w.ops[id].stage.Saved?
  }

  /** A row overwritten, the graph not healed. */
  function WipedRow(s: State, x: nat, dim: nat): (s': State)
    requires x < |s.data|
  {
    s.(data := s.data[x := Zeros(dim)])
  }

  function Advanced(w: World, id: nat, stage: Stage): (w': World)
    requires id in w.ops
  {
    w.(ops := w.ops[id := w.ops[id].(stage := stage)])
  }

  ghost predicate Init(w: World) {
    w.log == [] && !w.up && w.mem == None && !w.booting && w.todo == [] && w.ops == map[]
  }

  /** One step of the engine, or a crash. */
  ghost predicate Step(w: World, e: Event, w': World, dim: nat, metric: Metric) {
    match e
    case Boot =>
      // load_index_if_present, then uncommitted_deletes; without an index recovery is deferred
      && !w.up
      && w' == w.(up := true, mem := w.disk, counter := MaxTx(w.log), booting := w.disk.Some?,
                  todo := if w.disk.Some? then Pending(w.log) else [])
    case Load(index) =>
      // a first index is loaded into a process that found no checkpoint
      && w.up && w.disk == None && w.ops == map[] && w' == w.(mem := Some(index))
    case Checkpoint =>
      && w.up && w.mem.Some? && !w.booting && NobodySaving(w) && w' == w.(disk := w.mem)
    case BeginDelete(id, node, maxM, ts) =>
      && w.up && !w.booting && id !in w.ops && maxM >= 1
      && w' == w.(log := w.log + [Begin(ts, w.counter + 1, node, maxM)], counter := w.counter + 1,
                  ops := w.ops[id := Op(node, maxM, w.counter + 1, Begun, None)])
    case Replay(id, ts) =>
      && w.booting && w.ops == map[] && w.todo != [] && w.todo[0].Begin?
      && w' == w.(log := w.log + [Begin(ts, w.counter + 1, w.todo[0].targetNodeId, w.todo[0].maxM)],
                  counter := w.counter + 1, todo := w.todo[1..],
                  ops := map[id := Op(w.todo[0].targetNodeId, w.todo[0].maxM, w.counter + 1, Begun,
                                      Some(w.todo[0].transactionId))])
    case Wipe(id) =>
      // the overwrite alone: its locks are released before the heal takes its own, and a heal may be retried
      && id in w.ops && w.ops[id].stage.Begun? && w.mem.Some? && w.ops[id].node < |w.mem.value.data|
      && w' == w.(mem := Some(WipedRow(w.mem.value, w.ops[id].node, dim)))
    case Erase(id, after, metrics) =>
      && id in w.ops && w.ops[id].stage.Begun? && w.mem.Some?
      && HnswIndex.Erases(w.mem.value, after, w.ops[id].node, w.ops[id].maxM, dim, metric, metrics)
      && w' == Advanced(w, id, Erased).(mem := Some(after))
    case EraseFails(id) =>
      // no attempt got its locks, or there is no such row; a failure during recovery ends the process (Crash)
      id in w.ops && w.ops[id].stage.Begun? && !w.booting && w' == w.(ops := WithoutKey(w.ops, id))
    case Save(id) =>
      // the flush lock is taken: nobody else is between save and replace
      && id in w.ops && w.ops[id].stage.Erased? && w.mem.Some? && NobodySaving(w)
      && w' == Advanced(w, id, Saved(w.mem.value))
    case Abandon(id) =>
      // the flush or the COMMIT raises; during recovery that ends the process (Crash)
      id in w.ops && !w.ops[id].stage.Begun? && !w.booting && w' == w.(ops := WithoutKey(w.ops, id))
    case Publish(id) =>
      && id in w.ops && w.ops[id].stage.Saved?
      && w' == Advanced(w, id, Published).(disk := Some(w.ops[id].stage.snapshot))
    case CommitNew(id, ts) =>
      && id in w.ops && w.ops[id].stage.Published?
      && w' == (if w.ops[id].retires.Some? then Advanced(w, id, Retiring) else w.(ops := WithoutKey(w.ops, id)))
                 .(log := w.log + [Commit(ts, w.ops[id].tx)])
    case CommitOld(id, ts) =>
      && id in w.ops && w.ops[id].stage.Retiring? && w.ops[id].retires.Some?
      && w' == w.(ops := WithoutKey(w.ops, id), log := w.log + [Commit(ts, w.ops[id].retires.value)])
    case BootDone =>
      && w.booting && w.todo == [] && w.ops == map[] && w' == w.(booting := false)
    case Crash =>
      && w' == w.(up := false, mem := None, booting := false, todo := [], ops := map[])
  }

  ghost predicate IsRun(ws: seq<World>, es: seq<Event>, dim: nat, metric: Metric) {
    && |ws| == |es| + 1 && Init(ws[0])
    && forall i :: 0 <= i < |es| ==> Step(ws[i], es[i], ws[i + 1], dim, metric)
  }

  // ----- the invariant --------------------------------------------------------------

  ghost predicate HasBegin(log: seq<Record>, tx: nat, node: nat) {
    exists b :: b in log && b.Begin? && b.transactionId == tx && b.targetNodeId == node
  }

  /** Rows that are zero in s are zero in t. */
  ghost predicate Carries(s: State, t: State, dim: nat) {
    forall x :: ZeroRow(s, x, dim) ==> ZeroRow(t, x, dim)
  }

  ghost predicate LogInv(w: World) {
    && TxIncreasing(w.log)
    && (w.up ==> forall r :: r in w.log ==> r.transactionId <= w.counter)
    && (forall tx :: tx in CommittedIds(w.log) ==> exists node :: HasBegin(w.log, tx, node))
  }

  /** No resurrection: the target of every committed delete is zero in index.bin. */
  ghost predicate CommittedZero(w: World, dim: nat) {
    forall b :: b in w.log && b.Begin? && b.transactionId in CommittedIds(w.log) ==>
      w.disk.Some? && ZeroRow(w.disk.value, b.targetNodeId, dim)
  }

  /** What is zero on disk is zero in anything that may be written over it. */
  ghost predicate ZerosCarried(w: World, dim: nat) {
    && (w.disk.Some? && w.mem.Some? ==> Carries(w.disk.value, w.mem.value, dim))
    && (forall id :: id in w.ops && w.ops[id].stage.Saved? ==>
          && w.mem.Some? && Carries(w.ops[id].stage.snapshot, w.mem.value, dim)
          && (w.disk.Some? ==> Carries(w.disk.value, w.ops[id].stage.snapshot, dim)))
  }

  ghost predicate OpInv(w: World, op: Op, dim: nat) {
    && HasBegin(w.log, op.tx, op.node)
    && (op.retires.Some? ==> HasBegin(w.log, op.retires.value, op.node))
    && match op.stage
       case Begun => true
       case Erased => w.mem.Some? && ZeroRow(w.mem.value, op.node, dim)
       case Saved(s) => ZeroRow(s, op.node, dim)
       case Published => w.disk.Some? && ZeroRow(w.disk.value, op.node, dim)
       case Retiring => w.disk.Some? && ZeroRow(w.disk.value, op.node, dim) && op.tx in CommittedIds(w.log)
  }

  ghost predicate OpsInv(w: World, dim: nat) {
    && (forall id :: id in w.ops ==> OpInv(w, w.ops[id], dim))
    && (forall i, j :: i in w.ops && j in w.ops && w.ops[i].stage.Saved? && w.ops[j].stage.Saved? ==> i == j)
    && (w.ops != map[] ==> w.up)
    && (!w.up ==> w.mem == None && !w.booting)
  }

  /** The BEGIN with this id is being replayed or retired. */
  ghost predicate InHand(w: World, tx: nat) {
    exists id :: id in w.ops && (w.ops[id].tx == tx || w.ops[id].retires == Some(tx))
  }

  /** During recovery every uncommitted BEGIN is still to do or in hand. */
  ghost predicate BootInv(w: World) {
    w.booting ==>
      && w.up && w.disk.Some? && w.mem.Some?
      && (forall b :: b in w.todo ==> b in w.log && b.Begin?)
      && (forall b :: b in Uncommitted(w.log, CommittedIds(w.log)) ==> b in w.todo || InHand(w, b.transactionId))
      && (forall id :: id in w.ops ==> w.ops[id].retires.Some?)
  }

  ghost predicate Inv(w: World, dim: nat) {
    LogInv(w) && CommittedZero(w, dim) && ZerosCarried(w, dim) && OpsInv(w, dim) && BootInv(w)
  }

  // ----- it holds initially and after every step ------------------------------------

  lemma InitInv(w: World, dim: nat)
    requires Init(w)
    ensures Inv(w, dim)
  {
  }

  lemma Appended(log: seq<Record>, r: Record)
    ensures forall x :: x in log + [r] <==> x in log || x == r
    ensures CommittedIds(log + [r]) == CommittedIds(log) + if r.Commit? then {r.transactionId} else {}
    ensures r.Commit? && TxIncreasing(log) ==> TxIncreasing(log + [r])
    ensures r.Begin? && TxIncreasing(log) && (forall x :: x in log ==> x.transactionId < r.transactionId) ==>
              TxIncreasing(log + [r])
    ensures forall tx, node :: HasBegin(log, tx, node) ==> HasBegin(log + [r], tx, node)
  {
    assert (log + [r])[..|log|] == log;
  }

  lemma UniqueBegin(log: seq<Record>, a: Record, b: Record)
    requires TxIncreasing(log) && a in log && b in log && a.Begin? && b.Begin? && a.transactionId == b.transactionId
    ensures a == b
  {
    var i :| 0 <= i < |log| && log[i] == a;
    var j :| 0 <= j < |log| && log[j] == b;
  }

  lemma BootKeeps(w: World, w': World, dim: nat, metric: Metric)
    requires Inv(w, dim) && Step(w, Boot, w', dim, metric)
    ensures Inv(w', dim)
  {
    PendingIsUncommitted(w.log);
  }

  lemma LoadKeeps(w: World, index: State, w': World, dim: nat, metric: Metric)
    requires Inv(w, dim) && Step(w, Load(index), w', dim, metric)
    ensures Inv(w', dim)
  {
  }

  lemma CheckpointKeeps(w: World, w': World, dim: nat, metric: Metric)
    requires Inv(w, dim) && Step(w, Checkpoint, w', dim, metric)
    ensures Inv(w', dim)
  {
    OpsKept(w, w', dim);
  }

  /** A disk or memory that only gains zero rows keeps what is known of the deletes in flight. */
  lemma OpsKept(w: World, w': World, dim: nat)
    requires OpsInv(w, dim) && w'.ops == w.ops && w'.log == w.log && w'.up == w.up && w'.booting == w.booting
    requires w.mem.Some? ==> w'.mem.Some? && Carries(w.mem.value, w'.mem.value, dim)
    requires w.mem == None ==> w'.mem == None
    requires w.disk.Some? ==> w'.disk.Some? && Carries(w.disk.value, w'.disk.value, dim)
    ensures OpsInv(w', dim)
  {
    forall id | id in w'.ops ensures OpInv(w', w'.ops[id], dim) {
      assert OpInv(w, w.ops[id], dim);
    }
  }

  lemma BeginKeeps(w: World, id: nat, node: nat, maxM: int, ts: nat, w': World, dim: nat, metric: Metric)
    requires Inv(w, dim) && Step(w, BeginDelete(id, node, maxM, ts), w', dim, metric)
    ensures Inv(w', dim)
  {
    var r := Begin(ts, w.counter + 1, node, maxM);
    ReplayLog(w, r, w', dim);
    BeginOps(w, id, r, w', dim);
  }

  lemma BeginOps(w: World, id: nat, r: Record, w': World, dim: nat)
    requires OpsInv(w, dim) && w.up && r.Begin? && id !in w.ops && w'.log == w.log + [r]
    requires w'.up == w.up && w'.mem == w.mem && w'.disk == w.disk && w'.booting == w.booting
    requires w'.ops == w.ops[id := Op(r.targetNodeId, r.maxM, r.transactionId, Begun, None)]
    ensures OpsInv(w', dim)
  {
    Appended(w.log, r);
    assert HasBegin(w'.log, r.transactionId, r.targetNodeId);
    forall x | x in w'.ops ensures OpInv(w', w'.ops[x], dim) {
      if x != id {
        assert OpInv(w, w.ops[x], dim);
      }
    }
  }

  // ----- frames: what each part of the invariant depends on -------------------------

  lemma LogFrame(w: World, w': World)
    requires LogInv(w) && w'.log == w.log && (w'.up ==> w.up && w'.counter == w.counter)
    ensures LogInv(w')
  {
  }

  lemma CommittedFrame(w: World, w': World, dim: nat)
    requires CommittedZero(w, dim) && w'.log == w.log
    requires w.disk.Some? ==> w'.disk.Some? && Carries(w.disk.value, w'.disk.value, dim)
    ensures CommittedZero(w', dim)
  {
  }

  lemma ZerosFrame(w: World, w': World, dim: nat)
    requires ZerosCarried(w, dim) && w'.disk == w.disk
    requires w.mem.Some? ==> w'.mem.Some? && Carries(w.mem.value, w'.mem.value, dim)
    requires w.mem == None ==> w'.mem == None
    requires forall id :: id in w'.ops && w'.ops[id].stage.Saved? ==> id in w.ops && w.ops[id] == w'.ops[id]
    ensures ZerosCarried(w', dim)
  {
    forall id | id in w'.ops && w'.ops[id].stage.Saved?
      ensures w'.mem.Some? && Carries(w'.ops[id].stage.snapshot, w'.mem.value, dim)
              && (w'.disk.Some? ==> Carries(w'.disk.value, w'.ops[id].stage.snapshot, dim))
    {
      assert w.ops[id].stage.Saved?;
    }
  }

  lemma BootFrame(w: World, w': World)
    requires BootInv(w) && w'.log == w.log && w'.todo == w.todo && w'.booting == w.booting && w'.up == w.up
    requires (w.disk.Some? ==> w'.disk.Some?) && (w.mem.Some? ==> w'.mem.Some?)
    requires w.booting ==> forall tx :: InHand(w, tx) ==> InHand(w', tx)
    requires w.booting ==> forall id :: id in w'.ops ==> w'.ops[id].retires.Some?
    ensures BootInv(w')
  {
  }

  /** A change of stage leaves the same transactions in hand. */
  lemma SameHands(w: World, w': World, id: nat)
    requires w'.ops.Keys == w.ops.Keys
    requires forall x :: x in w.ops ==> w'.ops[x].tx == w.ops[x].tx && w'.ops[x].retires == w.ops[x].retires
    ensures forall tx :: InHand(w, tx) ==> InHand(w', tx)
  {
    forall tx | InHand(w, tx) ensures InHand(w', tx) {
      var x :| x in w.ops && (w.ops[x].tx == tx || w.ops[x].retires == Some(tx));
      assert x in w'.ops;
    }
  }

  /** A change of stage is none to the recovery. */
  lemma StageBoot(w: World, id: nat, stage: Stage, w': World)
    requires BootInv(w) && id in w.ops && w'.ops == Advanced(w, id, stage).ops
    requires w'.log == w.log && w'.todo == w.todo && w'.booting == w.booting && w'.up == w.up
    requires (w.disk.Some? ==> w'.disk.Some?) && (w.mem.Some? ==> w'.mem.Some?)
    ensures BootInv(w')
  {
    SameHands(w, w', id);
    BootFrame(w, w');
  }

  lemma ReplayKeeps(w: World, id: nat, ts: nat, w': World, dim: nat, metric: Metric)
    requires Inv(w, dim) && Step(w, Replay(id, ts), w', dim, metric)
    ensures Inv(w', dim)
  {
    var orphan := w.todo[0];
    var r := Begin(ts, w.counter + 1, orphan.targetNodeId, orphan.maxM);
    assert orphan in w.todo;
    ReplayLog(w, r, w', dim);
    ReplayOps(w, id, orphan, r, w', dim);
    ReplayBoot(w, id, orphan, r, w');
  }

  /** A BEGIN with a fresh id may be appended. */
  lemma ReplayLog(w: World, r: Record, w': World, dim: nat)
    requires LogInv(w) && CommittedZero(w, dim) && w.up && r.Begin? && r.transactionId == w.counter + 1
    requires w'.log == w.log + [r] && w'.counter == w.counter + 1 && w'.disk == w.disk
    ensures LogInv(w') && CommittedZero(w', dim)
  {
    NewIdUncommitted(w, w.counter + 1);
    assert TxIncreasing(w'.log) && (forall x :: x in w'.log ==> x.transactionId <= w'.counter) by {
      Appended(w.log, r);
    }
    CommitsBegun(w, r, w'.log);
    assert CommittedZero(w', dim) by {
      Appended(w.log, r);
    }
  }

  lemma CommitsBegun(w: World, r: Record, log: seq<Record>)
    requires LogInv(w) && r.Begin? && log == w.log + [r]
    ensures forall tx :: tx in CommittedIds(log) ==> exists node :: HasBegin(log, tx, node)
  {
    Appended(w.log, r);
    forall tx | tx in CommittedIds(log) ensures exists node :: HasBegin(log, tx, node) {
      var node :| HasBegin(w.log, tx, node);
      assert HasBegin(log, tx, node);
    }
  }

  /** No id above the counter has been committed. */
  lemma NewIdUncommitted(w: World, tx: nat)
    requires LogInv(w) && w.up && tx > w.counter
    ensures tx !in CommittedIds(w.log)
  {
  }

  lemma ReplayOps(w: World, id: nat, orphan: Record, r: Record, w': World, dim: nat)
    requires w.up && w.mem.Some? && orphan in w.log && orphan.Begin? && r.Begin?
    requires r.targetNodeId == orphan.targetNodeId && w'.log == w.log + [r]
    requires w'.up && w'.mem == w.mem && w'.disk == w.disk
    requires w'.ops == map[id := Op(r.targetNodeId, r.maxM, r.transactionId, Begun, Some(orphan.transactionId))]
    requires ZerosCarried(w, dim)
    ensures OpsInv(w', dim) && ZerosCarried(w', dim)
  {
    Appended(w.log, r);
    assert HasBegin(w.log, orphan.transactionId, orphan.targetNodeId);
    assert HasBegin(w'.log, r.transactionId, r.targetNodeId);
  }

  /** Appending a BEGIN opens no other transaction. */
  lemma OpenBefore(log: seq<Record>, r: Record, b: Record)
    requires r.Begin? && b != r && b in Uncommitted(log + [r], CommittedIds(log + [r]))
    ensures b in Uncommitted(log, CommittedIds(log))
  {
    Appended(log, r);
  }

  lemma ReplayBoot(w: World, id: nat, orphan: Record, r: Record, w': World)
    requires BootInv(w) && w.booting && w.ops == map[] && w.todo != [] && w.todo[0] == orphan
    requires orphan.Begin? && r.Begin? && w'.log == w.log + [r] && w'.todo == w.todo[1..]
    requires w'.up && w'.disk == w.disk && w'.mem == w.mem
    requires w'.ops == map[id := Op(r.targetNodeId, r.maxM, r.transactionId, Begun, Some(orphan.transactionId))]
    ensures BootInv(w')
  {
    assert id in w'.ops;
    assert w.todo == [orphan] + w'.todo;
    assert forall b :: b in w.todo <==> b == orphan || b in w'.todo;
    forall b | b in Uncommitted(w'.log, CommittedIds(w'.log))
      ensures b in w'.todo || InHand(w', b.transactionId)
    {
      if b != r && b != orphan {
        OpenBefore(w.log, r, b);
        assert b in w.todo || InHand(w, b.transactionId);
      }
    }
  }

  lemma EraseKeeps(w: World, id: nat, after: State, w': World, dim: nat)
    requires Inv(w, dim) && id in w.ops && w.mem.Some? && w.ops[id].stage.Begun?
    requires Carries(w.mem.value, after, dim) && ZeroRow(after, w.ops[id].node, dim)
    requires w' == Advanced(w, id, Erased).(mem := Some(after))
    ensures Inv(w', dim)
  {
    EraseOps(w, id, after, w', dim);
    LogFrame(w, w');
    CommittedFrame(w, w', dim);
    ZerosFrame(w, w', dim);
    StageBoot(w, id, Erased, w');
  }

  /** An erasure zeroes its row and keeps every zero row. */
  lemma ErasesZeros(s: State, s': State, q: int, m: int, dim: nat, metric: Metric, t: HealingMetrics)
    requires HnswIndex.Erases(s, s', q, m, dim, metric, t)
    ensures Carries(s, s', dim) && ZeroRow(s', q, dim)
  {
  }

  lemma EraseOps(w: World, id: nat, after: State, w': World, dim: nat)
    requires OpsInv(w, dim) && id in w.ops && w.mem.Some? && w' == Advanced(w, id, Erased).(mem := Some(after))
    requires Carries(w.mem.value, after, dim) && ZeroRow(after, w.ops[id].node, dim)
    ensures OpsInv(w', dim)
  {
    var mid := w.(mem := Some(after));
    OpsKept(w, mid, dim);
    assert OpInv(mid, mid.ops[id], dim);
    StageKeeps(mid, id, Erased, w', dim);
  }

  /** Moving one delete to a stage whose condition holds. */
  lemma StageKeeps(w: World, id: nat, stage: Stage, w': World, dim: nat)
    requires OpsInv(w, dim) && id in w.ops && w' == Advanced(w, id, stage)
    requires OpInv(w, w.ops[id].(stage := stage), dim) && (stage.Saved? ==> NobodySaving(w))
    ensures OpsInv(w', dim)
  {
    forall x | x in w'.ops ensures OpInv(w', w'.ops[x], dim) {
      assert x != id ==> OpInv(w, w.ops[x], dim);
      assert w'.log == w.log && w'.mem == w.mem && w'.disk == w.disk;
    }
  }

  lemma WipeKeeps(w: World, id: nat, w': World, dim: nat, metric: Metric)
    requires Inv(w, dim) && Step(w, Wipe(id), w', dim, metric)
    ensures Inv(w', dim)
  {
    assert Carries(w.mem.value, w'.mem.value, dim);
    OpsKept(w, w', dim);
    LogFrame(w, w');
    CommittedFrame(w, w', dim);
    ZerosFrame(w, w', dim);
    BootFrame(w, w');
  }

  lemma EraseFailsKeeps(w: World, id: nat, w': World, dim: nat, metric: Metric)
    requires Inv(w, dim) && Step(w, EraseFails(id), w', dim, metric)
    ensures Inv(w', dim)
  {
    FinishKeeps(w, id, w', dim);
    LogFrame(w, w');
    CommittedFrame(w, w', dim);
    ZerosFrame(w, w', dim);
  }

  lemma FinishKeeps(w: World, id: nat, w': World, dim: nat)
    requires OpsInv(w, dim) && id in w.ops && w' == w.(ops := WithoutKey(w.ops, id))
    ensures OpsInv(w', dim)
  {
    forall x | x in w'.ops ensures OpInv(w', w'.ops[x], dim) {
      assert OpInv(w, w.ops[x], dim);
    }
  }

  lemma SaveKeeps(w: World, id: nat, w': World, dim: nat)
    requires Inv(w, dim) && id in w.ops && w.ops[id].stage.Erased? && w.mem.Some? && NobodySaving(w)
    requires w' == Advanced(w, id, Saved(w.mem.value))
    ensures Inv(w', dim)
  {
    assert OpInv(w, w.ops[id], dim);
    StageKeeps(w, id, Saved(w.mem.value), w', dim);
    SaveZeros(w, id, w', dim);
    LogFrame(w, w');
    CommittedFrame(w, w', dim);
    StageBoot(w, id, Saved(w.mem.value), w');
  }

  lemma SaveZeros(w: World, id: nat, w': World, dim: nat)
    requires ZerosCarried(w, dim) && id in w.ops && w.mem.Some? && w' == Advanced(w, id, Saved(w.mem.value))
    ensures ZerosCarried(w', dim)
  {
    forall x | x in w'.ops && w'.ops[x].stage.Saved?
      ensures Carries(w'.ops[x].stage.snapshot, w'.mem.value, dim)
              && (w'.disk.Some? ==> Carries(w'.disk.value, w'.ops[x].stage.snapshot, dim))
    {
      assert x != id ==> w.ops[x].stage.Saved?;
    }
  }

  lemma AbandonKeeps(w: World, id: nat, w': World, dim: nat, metric: Metric)
    requires Inv(w, dim) && Step(w, Abandon(id), w', dim, metric)
    ensures Inv(w', dim)
  {
    FinishKeeps(w, id, w', dim);
  }

  lemma PublishKeeps(w: World, id: nat, w': World, dim: nat)
    requires Inv(w, dim) && id in w.ops && w.ops[id].stage.Saved?
    requires w' == Advanced(w, id, Published).(disk := Some(w.ops[id].stage.snapshot))
    ensures Inv(w', dim)
  {
    PublishOps(w, id, w', dim);
    LogFrame(w, w');
    CommittedFrame(w, w', dim);
    StageBoot(w, id, Published, w');
  }

  lemma PublishOps(w: World, id: nat, w': World, dim: nat)
    requires OpsInv(w, dim) && ZerosCarried(w, dim) && id in w.ops && w.ops[id].stage.Saved?
    requires w' == Advanced(w, id, Published).(disk := Some(w.ops[id].stage.snapshot))
    ensures OpsInv(w', dim) && ZerosCarried(w', dim)
    ensures w.disk.Some? ==> Carries(w.disk.value, w'.disk.value, dim)
  {
    var s := w.ops[id].stage.snapshot;
    assert OpInv(w, w.ops[id], dim);
    var mid := w.(disk := Some(s));
    OpsKept(w, mid, dim);
    StageKeeps(mid, id, Published, w', dim);
    assert NobodySaving(w');
  }

  lemma CommitNewKeeps(w: World, id: nat, ts: nat, w': World, dim: nat)
    requires Inv(w, dim) && id in w.ops && w.ops[id].stage.Published?
    requires w' == (if w.ops[id].retires.Some? then Advanced(w, id, Retiring) else w.(ops := WithoutKey(w.ops, id)))
                     .(log := w.log + [Commit(ts, w.ops[id].tx)])
    ensures Inv(w', dim)
  {
    CommitNewLog(w, id, ts, w', dim);
    CommitNewOps(w, id, ts, w', dim);
    if w.booting {
      CommitNewBoot(w, id, ts, w');
    }
  }

  lemma CommitNewBoot(w: World, id: nat, ts: nat, w': World)
    requires BootInv(w) && w.booting && id in w.ops
    requires w.ops[id].retires.Some? ==> w' == Advanced(w, id, Retiring).(log := w.log + [Commit(ts, w.ops[id].tx)])
    ensures BootInv(w')
  {
    SameHands(w, w', id);
    CommitBoot(w, w.ops[id].tx, ts, w');
  }

  lemma CommitNewLog(w: World, id: nat, ts: nat, w': World, dim: nat)
    requires LogInv(w) && CommittedZero(w, dim) && OpsInv(w, dim) && id in w.ops && w.ops[id].stage.Published?
    requires w'.log == w.log + [Commit(ts, w.ops[id].tx)] && w'.disk == w.disk && w'.up == w.up && w'.counter == w.counter
    ensures LogInv(w') && CommittedZero(w', dim)
  {
    var op := w.ops[id];
    assert OpInv(w, op, dim);
    CommitLogs(w, op.tx, op.node, ts, dim);
  }

  lemma CommitNewOps(w: World, id: nat, ts: nat, w': World, dim: nat)
    requires OpsInv(w, dim) && ZerosCarried(w, dim) && id in w.ops && w.ops[id].stage.Published?
    requires w' == (if w.ops[id].retires.Some? then Advanced(w, id, Retiring) else w.(ops := WithoutKey(w.ops, id)))
                     .(log := w.log + [Commit(ts, w.ops[id].tx)])
    ensures OpsInv(w', dim) && ZerosCarried(w', dim)
  {
    var op := w.ops[id];
    assert OpInv(w, op, dim);
    var mid := w.(log := w.log + [Commit(ts, op.tx)]);
    LogGrows(w, mid, Commit(ts, op.tx), dim);
    assert op.tx in CommittedIds(mid.log) by {
      Appended(w.log, Commit(ts, op.tx));
    }
    if op.retires.Some? {
      StageKeeps(mid, id, Retiring, w', dim);
    } else {
      FinishKeeps(mid, id, w', dim);
    }
  }

  /** A COMMIT during recovery: the transactions still open are those open before, less one. */
  lemma CommitBoot(w: World, tx: nat, ts: nat, w': World)
    requires BootInv(w) && w.booting && w'.log == w.log + [Commit(ts, tx)] && w'.todo == w.todo
    requires w'.up == w.up && w'.disk == w.disk && w'.mem == w.mem
    requires forall x :: x != tx && InHand(w, x) ==> InHand(w', x)
    requires forall id :: id in w'.ops ==> w'.ops[id].retires.Some?
    ensures BootInv(w')
  {
    Appended(w.log, Commit(ts, tx));
    forall b | b in Uncommitted(w'.log, CommittedIds(w'.log))
      ensures b in w'.todo || InHand(w', b.transactionId)
    {
      assert b in Uncommitted(w.log, CommittedIds(w.log));
    }
  }

  lemma CommitOldKeeps(w: World, id: nat, ts: nat, w': World, dim: nat, metric: Metric)
    requires Inv(w, dim) && Step(w, CommitOld(id, ts), w', dim, metric)
    ensures Inv(w', dim)
  {
    var op := w.ops[id];
    assert OpInv(w, op, dim);
    CommitLogs(w, op.retires.value, op.node, ts, dim);
    var c := Commit(ts, op.retires.value);
    var mid := w.(log := w.log + [c]);
    LogGrows(w, mid, c, dim);
    FinishKeeps(mid, id, w', dim);
    if w.booting {
      CommitOldBoot(w, id, ts, w', dim);
    }
  }

  lemma CommitOldBoot(w: World, id: nat, ts: nat, w': World, dim: nat)
    requires BootInv(w) && w.booting && id in w.ops && w.ops[id].retires.Some?
    requires w.ops[id].tx in CommittedIds(w.log)
    requires w' == w.(ops := WithoutKey(w.ops, id), log := w.log + [Commit(ts, w.ops[id].retires.value)])
    ensures BootInv(w')
  {
    var op := w.ops[id];
    Appended(w.log, Commit(ts, op.retires.value));
    forall b | b in Uncommitted(w'.log, CommittedIds(w'.log))
      ensures b in w'.todo || InHand(w', b.transactionId)
    {
      assert b in Uncommitted(w.log, CommittedIds(w.log));
      if b !in w.todo {
        var x :| x in w.ops && (w.ops[x].tx == b.transactionId || w.ops[x].retires == Some(b.transactionId));
        assert x != id;
        assert x in w'.ops;
      }
    }
  }

  /** A COMMIT may be written for a delete whose target is zero on disk. */
  lemma CommitLogs(w: World, tx: nat, node: nat, ts: nat, dim: nat)
    requires LogInv(w) && CommittedZero(w, dim) && HasBegin(w.log, tx, node) && (w.up ==> tx <= w.counter)
    requires w.disk.Some? && ZeroRow(w.disk.value, node, dim)
    ensures LogInv(w.(log := w.log + [Commit(ts, tx)]))
    ensures CommittedZero(w.(log := w.log + [Commit(ts, tx)]), dim)
  {
    CommitHasBegin(w, tx, node, ts);
    CommitZeroes(w, tx, node, ts, dim);
  }

  lemma CommitHasBegin(w: World, tx: nat, node: nat, ts: nat)
    requires LogInv(w) && HasBegin(w.log, tx, node) && (w.up ==> tx <= w.counter)
    ensures LogInv(w.(log := w.log + [Commit(ts, tx)]))
  {
    var c := Commit(ts, tx);
    var log := w.log + [c];
    assert TxIncreasing(log) && (w.up ==> forall r :: r in log ==> r.transactionId <= w.counter) by {
      Appended(w.log, c);
    }
    forall x | x in CommittedIds(log) ensures exists n :: HasBegin(log, x, n) {
      StillBegun(w.log, c, x, node);
    }
  }

  lemma StillBegun(log: seq<Record>, c: Record, x: nat, node: nat)
    requires c.Commit? && HasBegin(log, c.transactionId, node) && x in CommittedIds(log + [c])
    requires x in CommittedIds(log) ==> exists n :: HasBegin(log, x, n)
    ensures exists n :: HasBegin(log + [c], x, n)
  {
    Appended(log, c);
    var n :| HasBegin(log, x, n);
    assert HasBegin(log + [c], x, n);
  }

  lemma CommitZeroes(w: World, tx: nat, node: nat, ts: nat, dim: nat)
    requires TxIncreasing(w.log) && CommittedZero(w, dim) && HasBegin(w.log, tx, node)
    requires w.disk.Some? && ZeroRow(w.disk.value, node, dim)
    ensures CommittedZero(w.(log := w.log + [Commit(ts, tx)]), dim)
  {
    var log := w.log + [Commit(ts, tx)];
    Appended(w.log, Commit(ts, tx));
    var own :| own in w.log && own.Begin? && own.transactionId == tx && own.targetNodeId == node;
    forall b | b in log && b.Begin? && b.transactionId in CommittedIds(log)
      ensures ZeroRow(w.disk.value, b.targetNodeId, dim)
    {
      if b.transactionId == tx {
        UniqueBegin(w.log, b, own);
      }
    }
  }

  lemma LogGrows(w: World, w': World, r: Record, dim: nat)
    requires OpsInv(w, dim) && w' == w.(log := w.log + [r])
    ensures OpsInv(w', dim)
  {
    Appended(w.log, r);
    forall id | id in w'.ops ensures OpInv(w', w'.ops[id], dim) {
      assert OpInv(w, w.ops[id], dim);
    }
  }

  lemma StepKeeps(w: World, e: Event, w': World, dim: nat, metric: Metric)
    requires Inv(w, dim) && Step(w, e, w', dim, metric)
    ensures Inv(w', dim)
  {
    match e
    case Boot => BootKeeps(w, w', dim, metric);
    case Load(index) => LoadKeeps(w, index, w', dim, metric);
    case Checkpoint => CheckpointKeeps(w, w', dim, metric);
    case BeginDelete(id, node, maxM, ts) => BeginKeeps(w, id, node, maxM, ts, w', dim, metric);
    case Replay(id, ts) => ReplayKeeps(w, id, ts, w', dim, metric);
    case Erase(id, after, t) =>
      ErasesZeros(w.mem.value, after, w.ops[id].node, w.ops[id].maxM, dim, metric, t);
      EraseKeeps(w, id, after, w', dim);
    case Wipe(id) => WipeKeeps(w, id, w', dim, metric);
    case EraseFails(id) => EraseFailsKeeps(w, id, w', dim, metric);
    case Save(id) => SaveKeeps(w, id, w', dim);
    case Abandon(id) => AbandonKeeps(w, id, w', dim, metric);
    case Publish(id) => PublishKeeps(w, id, w', dim);
    case CommitNew(id, ts) => CommitNewKeeps(w, id, ts, w', dim);
    case CommitOld(id, ts) => CommitOldKeeps(w, id, ts, w', dim, metric);
    case BootDone =>
    case Crash =>
  }

  lemma {:induction false} RunInv(ws: seq<World>, es: seq<Event>, dim: nat, metric: Metric)
    requires IsRun(ws, es, dim, metric)
    ensures Inv(ws[|es|], dim)
  {
    if es == [] {
      InitInv(ws[0], dim);
    } else {
      var k := |es| - 1;
      assert IsRun(ws[..k + 1], es[..k], dim, metric);
      RunInv(ws[..k + 1], es[..k], dim, metric);
      StepKeeps(ws[k], es[k], ws[k + 1], dim, metric);
    }
  }

  // ----- the two promises -----------------------------------------------------------

  /** In every reachable state a COMMIT in the log implies that its target is zero in index.bin. */
  lemma NoResurrection(ws: seq<World>, es: seq<Event>, dim: nat, metric: Metric)
    requires IsRun(ws, es, dim, metric)
    ensures var w := ws[|es|];
            forall c :: c in w.log && c.Commit? ==>
              exists b :: b in w.log && b.Begin? && b.transactionId == c.transactionId
                          && w.disk.Some? && ZeroRow(w.disk.value, b.targetNodeId, dim)
  {
    RunInv(ws, es, dim, metric);
    var w := ws[|es|];
    forall c | c in w.log && c.Commit?
      ensures exists b :: b in w.log && b.Begin? && b.transactionId == c.transactionId
                          && w.disk.Some? && ZeroRow(w.disk.value, b.targetNodeId, dim)
    {
      assert c.transactionId in CommittedIds(w.log);
      var node :| HasBegin(w.log, c.transactionId, node);
      var b :| b in w.log && b.Begin? && b.transactionId == c.transactionId && b.targetNodeId == node;
    }
  }

  /**
   * A recovery that completes leaves no BEGIN uncommitted, and every node ever named by a BEGIN is zero in
   * memory and on disk.
   */
  lemma RecoveryComplete(ws: seq<World>, es: seq<Event>, dim: nat, metric: Metric)
    requires IsRun(ws, es, dim, metric) && es != [] && es[|es| - 1] == BootDone
    ensures var w := ws[|es|];
            && Uncommitted(w.log, CommittedIds(w.log)) == []
            && w.disk.Some? && w.mem.Some?
            && forall b :: b in w.log && b.Begin? ==>
                 ZeroRow(w.disk.value, b.targetNodeId, dim) && ZeroRow(w.mem.value, b.targetNodeId, dim)
  {
    var k := |es| - 1;
    assert IsRun(ws[..k + 1], es[..k], dim, metric);
    RunInv(ws[..k + 1], es[..k], dim, metric);
    assert Step(ws[k], es[k], ws[|es|], dim, metric);
    RecoveredState(ws[k], dim);
  }

  /** A recovery with nothing left to do has zeroed every node ever named by a BEGIN. */
  lemma RecoveredState(v: World, dim: nat)
    requires Inv(v, dim) && v.booting && v.todo == [] && v.ops == map[]
    ensures Uncommitted(v.log, CommittedIds(v.log)) == [] && v.disk.Some? && v.mem.Some?
    ensures forall b :: b in v.log && b.Begin? ==>
              ZeroRow(v.disk.value, b.targetNodeId, dim) && ZeroRow(v.mem.value, b.targetNodeId, dim)
  {
    var open := Uncommitted(v.log, CommittedIds(v.log));
    assert forall tx :: !InHand(v, tx);
    assert forall b :: b !in open;
    SomeElement(open);
    forall b | b in v.log && b.Begin?
      ensures ZeroRow(v.disk.value, b.targetNodeId, dim) && ZeroRow(v.mem.value, b.targetNodeId, dim)
    {
      assert b !in open;
      assert b.transactionId in CommittedIds(v.log);
    }
  }

  // ----- a BEGIN nobody can replay --------------------------------------------------

  /** Memory, index.bin and index.bin.tmp hold the same number of rows. */
  ghost predicate SameRows(w: World) {
    && (w.disk.Some? && w.mem.Some? ==> |w.mem.value.data| == |w.disk.value.data|)
    && (forall id :: id in w.ops && w.ops[id].stage.Saved? ==>
          w.mem.Some? && |w.ops[id].stage.snapshot.data| == |w.mem.value.data|)
    && (w.ops != map[] || w.booting ==> w.up)
  }

  /** The log only grows, and an index.bin once written keeps its number of rows. */
  ghost predicate Later(w: World, v: World) {
    && (forall b :: b in w.log ==> b in v.log)
    && (w.disk.Some? ==> v.disk.Some? && |v.disk.value.data| == |w.disk.value.data|)
  }

  lemma StepKeepsRows(w: World, e: Event, w': World, dim: nat, metric: Metric)
    requires Step(w, e, w', dim, metric) && SameRows(w)
    ensures SameRows(w') && Later(w, w')
  {
    StepKeepsSize(w, e, w', dim, metric);
    StepKeepsSnapshots(w, e, w', dim, metric);
  }

  lemma StepKeepsSnapshots(w: World, e: Event, w': World, dim: nat, metric: Metric)
    requires Step(w, e, w', dim, metric) && SameRows(w)
    ensures forall id :: id in w'.ops && w'.ops[id].stage.Saved? ==>
              w'.mem.Some? && |w'.ops[id].stage.snapshot.data| == |w'.mem.value.data|
  {
    match e
    case Erase(id, after, t) => assert |after.data| == |w.mem.value.data|;
    case Wipe(id) => assert |w'.mem.value.data| == |w.mem.value.data|;
    case _ =>
  }

  lemma StepKeepsSize(w: World, e: Event, w': World, dim: nat, metric: Metric)
    requires Step(w, e, w', dim, metric) && SameRows(w)
    ensures Later(w, w') && (w'.ops != map[] || w'.booting ==> w'.up)
    ensures w'.disk.Some? && w'.mem.Some? ==> |w'.mem.value.data| == |w'.disk.value.data|
  {
  }

  lemma {:induction false} RunKeepsRows(ws: seq<World>, es: seq<Event>, i: nat, j: nat, dim: nat, metric: Metric)
    requires IsRun(ws, es, dim, metric) && i <= j <= |es|
    ensures SameRows(ws[j]) && Later(ws[i], ws[j])
  {
    if j == 0 {
    } else if i == j {
      RunKeepsRows(ws, es, j - 1, j - 1, dim, metric);
      StepKeepsRows(ws[j - 1], es[j - 1], ws[j], dim, metric);
    } else {
      RunKeepsRows(ws, es, i, j - 1, dim, metric);
      StepKeepsRows(ws[j - 1], es[j - 1], ws[j], dim, metric);
    }
  }

  /**
   * A BEGIN that names a row index.bin does not have can never be retired: from then on no recovery
   * completes, however many deletes, crashes and restarts follow.
   */
  lemma OutOfRangeBlocksRecovery(ws: seq<World>, es: seq<Event>, i: nat, b: Record, dim: nat, metric: Metric)
    requires IsRun(ws, es, dim, metric) && i <= |es| && ws[i].disk.Some?
    requires b in ws[i].log && b.Begin? && b.targetNodeId >= |ws[i].disk.value.data|
    ensures forall j :: i <= j < |es| ==> es[j] != BootDone
  {
    forall j | i <= j < |es| ensures es[j] != BootDone {
      if es[j] == BootDone {
        CompletedInRange(ws, es, i, j, b, dim, metric);
      }
    }
  }

  /** A recovery that completes has found a row for every BEGIN. */
  lemma CompletedInRange(ws: seq<World>, es: seq<Event>, i: nat, j: nat, b: Record, dim: nat, metric: Metric)
    requires IsRun(ws, es, dim, metric) && i <= j < |es| && ws[i].disk.Some? && es[j] == BootDone
    requires b in ws[i].log && b.Begin?
    ensures b.targetNodeId < |ws[i].disk.value.data|
  {
    RunKeepsRows(ws, es, i, j + 1, dim, metric);
    var past, steps := ws[..j + 2], es[..j + 1];
    assert IsRun(past, steps, dim, metric);
    RecoveryComplete(past, steps, dim, metric);
    assert past[|steps|] == ws[j + 1];
    assert b in ws[j + 1].log;
    assert ZeroRow(ws[j + 1].disk.value, b.targetNodeId, dim);
  }
}
