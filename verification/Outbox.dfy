/** The filesystem outbox: envelopes move from pending to done or failed as they are dispatched. */
module Outbox {
  import opened Seqs

  type Id = string

  datatype Envelope = Envelope(attempts: nat, lastError: string)

  type Folder = map<Id, Envelope>

  /** The outcome of one dispatch; an exception counts as a failure with its text. */
  datatype Reply = Delivered | Rejected(message: string)

  datatype Dispatch = Dispatch(id: Id, ok: bool)

  /** The three folders, and every dispatch made so far. */
  datatype Box = Box(pending: Folder, done: Folder, failed: Folder, log: seq<Dispatch>)

  const EMPTY: Box := Box(map[], map[], map[], [])

  // ----- the operations -------------------------------------------------------------

  function Enqueued(b: Box, id: Id): (r: Box) {
    b.(pending := b.pending[id := Envelope(0, "")])
  }

  function Requeued(b: Box, id: Id): (r: Box) {
    if id in b.failed then b.(pending := b.pending[id := b.failed[id]], failed := b.failed - {id}) else b
  }

  /** One turn of the dispatch loop. */
  function Dispatched(b: Box, id: Id, reply: Reply, max: int): (r: Box)
    requires id in b.pending
  {
    var e := b.pending[id];
    match reply
    case Delivered =>
      b.(pending := b.pending - {id}, done := b.done[id := e], log := b.log + [Dispatch(id, true)])
    case Rejected(message) =>
      var e' := Envelope(e.attempts + 1, message);
      if e.attempts + 1 >= max then
        b.(pending := b.pending - {id}, failed := b.failed[id := e'], log := b.log + [Dispatch(id, false)])
      else
        b.(pending := b.pending[id := e'], log := b.log + [Dispatch(id, false)])
  }

  /** The listing a round works through: distinct pending ids. */
  ghost predicate IsListing(b: Box, ids: seq<Id>) {
    NoDup(ids) && forall i :: 0 <= i < |ids| ==> ids[i] in b.pending
  }

  /** The first k ids of a listing, each dispatched once. */
  function Round(b: Box, ids: seq<Id>, replies: Id -> Reply, max: int, k: nat): (r: Box)
    requires IsListing(b, ids) && k <= |ids|
    ensures forall i :: k <= i < |ids| ==> ids[i] in r.pending && r.pending[ids[i]] == b.pending[ids[i]]
    ensures r.pending.Keys <= b.pending.Keys
  {
    if k == 0 then b
    else
      var s := Round(b, ids, replies, max, k - 1);
      Dispatched(s, ids[k - 1], replies(ids[k - 1]), max)
  }

  /** Where one dispatch sends an envelope, and the error it adds if it stays. */
  datatype Fate = Goes | Fails | Waits(message: string)

  /** What `dispatch_pending` reports: how many were delivered, how many failed for good, the errors of the rest. */
  datatype Totals = Totals(done: nat, failed: nat, errors: seq<string>)

  /** An envelope is read from the listing, so its attempts are those it had when the round began. */
  function FateOf(b: Box, id: Id, reply: Reply, max: int): (o: Fate)
    requires id in b.pending
  {
    match reply
    case Delivered => Goes
    case Rejected(message) => if b.pending[id].attempts + 1 >= max then Fails else Waits(message)
  }

  function Tallied(t: Totals, o: Fate): (r: Totals) {
    match o
    case Goes => t.(done := t.done + 1)
    case Fails => t.(failed := t.failed + 1)
    case Waits(message) => t.(errors := t.errors + [message])
  }

  function TotalsOf(b: Box, ids: seq<Id>, replies: Id -> Reply, max: int, k: nat): (t: Totals)
    requires IsListing(b, ids) && k <= |ids|
    ensures t.done + t.failed + |t.errors| == k
  {
    if k == 0 then Totals(0, 0, [])
    else Tallied(TotalsOf(b, ids, replies, max, k - 1), FateOf(b, ids[k - 1], replies(ids[k - 1]), max))
  }

  // ----- conservation ---------------------------------------------------------------

  /** Every envelope ever enqueued is in exactly one of the three folders, and nothing else is. */
  ghost predicate Conserved(b: Box, ever: set<Id>) {
    && b.pending.Keys !! b.done.Keys && b.pending.Keys !! b.failed.Keys && b.done.Keys !! b.failed.Keys
    && b.pending.Keys + b.done.Keys + b.failed.Keys == ever
  }

  function Failures(log: seq<Dispatch>, id: Id): (n: nat) {
    if log == [] then 0
    else Failures(log[..|log| - 1], id) + if log[|log| - 1] == Dispatch(id, false) then 1 else 0
  }

  ghost predicate DoneDelivered(b: Box) {
    forall id :: id in b.done ==> Dispatch(id, true) in b.log
  }

  /**
   * Without a requeue the counter of an envelope is the number of its failed dispatches: below the limit unless
   * the envelope has failed, and then exactly the limit.
   */
  ghost predicate CountOk(b: Box, id: Id, max: int) {
    var n := Failures(b.log, id);
    && (id in b.pending ==> b.pending[id].attempts == n < max)
    && (id in b.failed ==> b.failed[id].attempts == n == max)
    && (id in b.done ==> n < max)
    && (id !in b.pending && id !in b.done && id !in b.failed ==> n == 0)
  }

  ghost predicate Counted(b: Box, max: int) {
    forall id :: CountOk(b, id, max)
  }

  lemma FailuresAfter(log: seq<Dispatch>, d: Dispatch, id: Id)
    ensures Failures(log + [d], id) == Failures(log, id) + if d == Dispatch(id, false) then 1 else 0
  {
    assert (log + [d])[..|log|] == log;
  }

  lemma DispatchConserves(b: Box, id: Id, reply: Reply, max: int, ever: set<Id>)
    requires Conserved(b, ever) && id in b.pending
    ensures Conserved(Dispatched(b, id, reply, max), ever)
  {
    var r := Dispatched(b, id, reply, max);
    assert r.pending.Keys + r.done.Keys + r.failed.Keys == b.pending.Keys + b.done.Keys + b.failed.Keys;
  }

  lemma DispatchDelivers(b: Box, id: Id, reply: Reply, max: int)
    requires DoneDelivered(b) && id in b.pending
    ensures DoneDelivered(Dispatched(b, id, reply, max))
  {
    var r := Dispatched(b, id, reply, max);
    assert forall d :: d in b.log ==> d in r.log;
    assert r.log[|b.log|] in r.log;
  }

  lemma DispatchCounts(b: Box, id: Id, reply: Reply, max: int, ever: set<Id>, x: Id)
    requires CountOk(b, x, max) && Conserved(b, ever) && id in b.pending && max >= 1
    ensures CountOk(Dispatched(b, id, reply, max), x, max)
  {
    var d := Dispatch(id, reply.Delivered?);
    FailuresAfter(b.log, d, x);
    assert Dispatched(b, id, reply, max).log == b.log + [d];
    assert id !in b.done && id !in b.failed;
  }

  // ----- runs -----------------------------------------------------------------------

  datatype Event =
    | Enqueue(id: Id)
    | DispatchRound(ids: seq<Id>, replies: Id -> Reply)
    | Requeue(id: Id)

  ghost predicate Step(b: Box, e: Event, b': Box, max: int, ever: set<Id>) {
    match e
    case Enqueue(id) => id !in ever && b' == Enqueued(b, id)
    case DispatchRound(ids, replies) => IsListing(b, ids) && b' == Round(b, ids, replies, max, |ids|)
    case Requeue(id) => b' == Requeued(b, id)
  }

  /** The ids enqueued by the first k events. */
  function Ever(es: seq<Event>, k: nat): (s: set<Id>)
    requires k <= |es|
  {
    if k == 0 then {} else Ever(es, k - 1) + if es[k - 1].Enqueue? then {es[k - 1].id} else {}
  }

  ghost predicate IsRun(bs: seq<Box>, es: seq<Event>, max: int) {
    && |bs| == |es| + 1 && bs[0] == EMPTY
    && forall i :: 0 <= i < |es| ==> Step(bs[i], es[i], bs[i + 1], max, Ever(es, i))
  }

  lemma {:induction false} RoundConserves(b: Box, ids: seq<Id>, replies: Id -> Reply, max: int, k: nat, ever: set<Id>)
    requires IsListing(b, ids) && k <= |ids| && Conserved(b, ever) && DoneDelivered(b)
    ensures Conserved(Round(b, ids, replies, max, k), ever) && DoneDelivered(Round(b, ids, replies, max, k))
  {
    if k > 0 {
      RoundConserves(b, ids, replies, max, k - 1, ever);
      var s := Round(b, ids, replies, max, k - 1);
      DispatchConserves(s, ids[k - 1], replies(ids[k - 1]), max, ever);
      DispatchDelivers(s, ids[k - 1], replies(ids[k - 1]), max);
    }
  }

  lemma {:induction false} RoundCounts(b: Box, ids: seq<Id>, replies: Id -> Reply, max: int, k: nat, ever: set<Id>,
                                       x: Id)
    requires IsListing(b, ids) && k <= |ids| && CountOk(b, x, max) && max >= 1 && Conserved(b, ever) && DoneDelivered(b)
    ensures CountOk(Round(b, ids, replies, max, k), x, max)
  {
    if k > 0 {
      RoundCounts(b, ids, replies, max, k - 1, ever, x);
      RoundConserves(b, ids, replies, max, k - 1, ever);
      DispatchCounts(Round(b, ids, replies, max, k - 1), ids[k - 1], replies(ids[k - 1]), max, ever, x);
    }
  }

  lemma {:induction false} EverPrefix(es: seq<Event>, n: nat, k: nat)
    requires k <= n <= |es|
    ensures Ever(es[..n], k) == Ever(es, k)
  {
    if k > 0 {
      EverPrefix(es, n, k - 1);
    }
  }

  lemma RunPrefix(bs: seq<Box>, es: seq<Event>, max: int, k: nat)
    requires IsRun(bs, es, max) && k <= |es|
    ensures IsRun(bs[..k + 1], es[..k], max)
  {
    forall i | 0 <= i < k ensures Step(bs[i], es[i], bs[i + 1], max, Ever(es[..k], i)) {
      EverPrefix(es, k, i);
    }
  }

  /** In every run, requeues included, each envelope is in exactly one folder, and one that is done was delivered. */
  lemma {:induction false} RunConserves(bs: seq<Box>, es: seq<Event>, max: int)
    requires IsRun(bs, es, max)
    ensures Conserved(bs[|es|], Ever(es, |es|)) && DoneDelivered(bs[|es|])
  {
    if es != [] {
      var k := |es| - 1;
      RunPrefix(bs, es, max, k);
      RunConserves(bs[..k + 1], es[..k], max);
      EverPrefix(es, k, k);
      var b, ever := bs[k], Ever(es, k);
      match es[k]
      case Enqueue(id) =>
        assert bs[k + 1].pending.Keys == b.pending.Keys + {id};
      case DispatchRound(ids, replies) => RoundConserves(b, ids, replies, max, |ids|, ever);
      case Requeue(id) => RequeueConserves(b, id, ever);
    }
  }

  lemma RequeueConserves(b: Box, id: Id, ever: set<Id>)
    requires Conserved(b, ever)
    ensures Conserved(Requeued(b, id), ever)
  {
    var r := Requeued(b, id);
    if id in b.failed {
      assert r.pending.Keys == b.pending.Keys + {id} && r.failed.Keys == b.failed.Keys - {id};
    }
  }

  /** Without requeues an envelope has failed exactly when its dispatches failed `max` times and none was delivered. */
  lemma {:induction false} RunCounts(bs: seq<Box>, es: seq<Event>, max: int)
    requires IsRun(bs, es, max) && max >= 1 && forall i :: 0 <= i < |es| ==> !es[i].Requeue?
    ensures Counted(bs[|es|], max)
  {
    if es != [] {
      var k := |es| - 1;
      RunPrefix(bs, es, max, k);
      RunCounts(bs[..k + 1], es[..k], max);
      RunConserves(bs[..k + 1], es[..k], max);
      EverPrefix(es, k, k);
      var b' := bs[k + 1];
      forall x ensures CountOk(b', x, max) {
        StepCounts(bs[k], es[k], b', max, Ever(es, k), x);
      }
    }
  }

  lemma StepCounts(b: Box, e: Event, b': Box, max: int, ever: set<Id>, x: Id)
    requires Step(b, e, b', max, ever) && !e.Requeue? && max >= 1
    requires CountOk(b, x, max) && Conserved(b, ever) && DoneDelivered(b)
    ensures CountOk(b', x, max)
  {
    match e
    case Enqueue(id) =>
    case DispatchRound(ids, replies) => RoundCounts(b, ids, replies, max, |ids|, ever, x);
  }

  // ----- pending empties ------------------------------------------------------------

  /** What is still pending after a round has had one more failed attempt if it was listed. */
  lemma {:induction false} RoundRaises(b: Box, ids: seq<Id>, replies: Id -> Reply, max: int, k: nat, id: Id)
    requires IsListing(b, ids) && k <= |ids| && id in Round(b, ids, replies, max, k).pending
    ensures id in b.pending
    ensures Round(b, ids, replies, max, k).pending[id].attempts
         == b.pending[id].attempts + if id in ids[..k] then 1 else 0
    ensures id in ids[..k] ==> Round(b, ids, replies, max, k).pending[id].attempts < max
  {
    if k > 0 {
      assert ids[..k] == ids[..k - 1] + [ids[k - 1]];
      var s := Round(b, ids, replies, max, k - 1);
      if id == ids[k - 1] {
        assert id !in ids[..k - 1];
      }
      RoundRaises(b, ids, replies, max, k - 1, id);
    }
  }

  /** Rounds that list everything pending, with nothing new in between. */
  ghost predicate FullRounds(bs: seq<Box>, listings: seq<seq<Id>>, replies: seq<Id -> Reply>, max: int) {
    && |bs| == |listings| + 1 == |replies| + 1
    && forall i :: 0 <= i < |listings| ==>
         && IsListing(bs[i], listings[i]) && (forall id :: id in bs[i].pending ==> id in listings[i])
         && bs[i + 1] == Round(bs[i], listings[i], replies[i], max, |listings[i]|)
  }

  lemma {:induction false} AttemptsRise(bs: seq<Box>, listings: seq<seq<Id>>, replies: seq<Id -> Reply>, max: int, n: nat)
    requires FullRounds(bs, listings, replies, max) && 1 <= n <= |listings|
    ensures forall id :: id in bs[n].pending ==> n <= bs[n].pending[id].attempts < max
  {
    if n > 1 {
      AttemptsRise(bs, listings, replies, max, n - 1);
    }
    var b, ids := bs[n - 1], listings[n - 1];
    forall id | id in bs[n].pending ensures n <= bs[n].pending[id].attempts < max {
      RoundRaises(b, ids, replies[n - 1], max, |ids|, id);
      assert ids[..|ids|] == ids;
    }
  }

  /** Whatever the dispatch function answers, after max_attempts full rounds nothing is pending. */
  lemma PendingEmpties(bs: seq<Box>, listings: seq<seq<Id>>, replies: seq<Id -> Reply>, max: int, n: nat)
    requires FullRounds(bs, listings, replies, max) && 1 <= n <= |listings| && n >= max
    ensures bs[n].pending == map[]
  {
    AttemptsRise(bs, listings, replies, max, n);
    assert forall id :: id !in bs[n].pending;
  }

  /** A requeue moves one failed envelope back, with its attempts and its error, over any pending one of that id. */
  lemma RequeueExactly(b: Box, id: Id, x: Id)
    ensures var r := Requeued(b, id);
            && (x in r.failed <==> x in b.failed && x != id) && (x in r.failed ==> r.failed[x] == b.failed[x])
            && (x in r.pending <==> x in b.pending || (x == id && id in b.failed))
            && (x in r.pending ==> r.pending[x] == if x == id && id in b.failed then b.failed[id] else b.pending[x])
            && r.done == b.done && r.log == b.log
  {
  }

  // ----- one round, envelope by envelope --------------------------------------------

  /** Entry i of a listing is delivered, fails for good, or stays pending for another attempt. */
  ghost predicate Delivers(ids: seq<Id>, replies: Id -> Reply, i: int) {
    0 <= i < |ids| && replies(ids[i]).Delivered?
  }

  ghost predicate FailsFor(b: Box, ids: seq<Id>, replies: Id -> Reply, max: int, i: int) {
    && 0 <= i < |ids| && ids[i] in b.pending && replies(ids[i]).Rejected? && b.pending[ids[i]].attempts + 1 >= max
  }

  ghost predicate Stays(b: Box, ids: seq<Id>, replies: Id -> Reply, max: int, i: int) {
    && 0 <= i < |ids| && ids[i] in b.pending && replies(ids[i]).Rejected? && b.pending[ids[i]].attempts + 1 < max
  }

  ghost function Delivering(ids: seq<Id>, replies: Id -> Reply, k: nat): (s: set<int>) {
    set i | 0 <= i < k && Delivers(ids, replies, i)
  }

  ghost function Failing(b: Box, ids: seq<Id>, replies: Id -> Reply, max: int, k: nat): (s: set<int>) {
    set i | 0 <= i < k && FailsFor(b, ids, replies, max, i)
  }

  ghost function Staying(b: Box, ids: seq<Id>, replies: Id -> Reply, max: int, k: nat): (s: set<int>) {
    set i | 0 <= i < k && Stays(b, ids, replies, max, i)
  }

  /** Where one envelope is after k dispatches of a round: moved by its own reply, or where it was. */
  ghost predicate MovedAsReplied(b: Box, r: Box, id: Id, listed: bool, reply: Reply, max: int) {
    if !listed then
      && (id in r.pending <==> id in b.pending) && (id in b.pending ==> r.pending[id] == b.pending[id])
      && (id in r.done <==> id in b.done) && (id in b.done ==> r.done[id] == b.done[id])
      && (id in r.failed <==> id in b.failed) && (id in b.failed ==> r.failed[id] == b.failed[id])
    else
      id in b.pending && var e := b.pending[id];
      match reply
      case Delivered => id !in r.pending && id in r.done && r.done[id] == e
      case Rejected(message) =>
        var e' := Envelope(e.attempts + 1, message);
        if e.attempts + 1 >= max then id !in r.pending && id in r.failed && r.failed[id] == e'
        else id in r.pending && r.pending[id] == e'
  }

  lemma {:induction false} RoundExactly(b: Box, ids: seq<Id>, replies: Id -> Reply, max: int, k: nat, id: Id)
    requires IsListing(b, ids) && k <= |ids|
    ensures MovedAsReplied(b, Round(b, ids, replies, max, k), id, id in ids[..k], replies(id), max)
  {
    if k > 0 {
      RoundExactly(b, ids, replies, max, k - 1, id);
      assert ids[..k] == ids[..k - 1] + [ids[k - 1]];
      assert ids[k - 1] !in ids[..k - 1];
    }
  }

  /** Each entry of the listing is dispatched once, in order. */
  lemma {:induction false} RoundLog(b: Box, ids: seq<Id>, replies: Id -> Reply, max: int, k: nat)
    requires IsListing(b, ids) && k <= |ids|
    ensures var log := Round(b, ids, replies, max, k).log;
            && |log| == |b.log| + k && log[..|b.log|] == b.log
            && forall i :: 0 <= i < k ==> log[|b.log| + i] == Dispatch(ids[i], replies(ids[i]).Delivered?)
  {
    if k > 0 {
      RoundLog(b, ids, replies, max, k - 1);
    }
  }

  /** The numbers reported are those of the replies. */
  lemma {:induction false} TotalsExactly(b: Box, ids: seq<Id>, replies: Id -> Reply, max: int, k: nat)
    requires IsListing(b, ids) && k <= |ids|
    ensures var t := TotalsOf(b, ids, replies, max, k);
            && t.done == |Delivering(ids, replies, k)|
            && t.failed == |Failing(b, ids, replies, max, k)|
            && |t.errors| == |Staying(b, ids, replies, max, k)|
  {
    if k > 0 {
      TotalsExactly(b, ids, replies, max, k - 1);
      OneMoreDelivered(ids, replies, k - 1);
      OneMoreFailed(b, ids, replies, max, k - 1);
      OneMoreStays(b, ids, replies, max, k - 1);
      FateExactly(b, ids, replies, max, k - 1);
    }
  }

  lemma FateExactly(b: Box, ids: seq<Id>, replies: Id -> Reply, max: int, i: nat)
    requires IsListing(b, ids) && i < |ids|
    ensures var o := FateOf(b, ids[i], replies(ids[i]), max);
            && (o.Goes? <==> Delivers(ids, replies, i)) && (o.Fails? <==> FailsFor(b, ids, replies, max, i))
            && (o.Waits? <==> Stays(b, ids, replies, max, i)) && (o.Waits? ==> o.message == replies(ids[i]).message)
  {
  }

  lemma OneMoreDelivered(ids: seq<Id>, replies: Id -> Reply, k: nat)
    ensures |Delivering(ids, replies, k + 1)| == |Delivering(ids, replies, k)| + if Delivers(ids, replies, k) then 1 else 0
  {
    assert Delivering(ids, replies, k + 1) == Delivering(ids, replies, k) + if Delivers(ids, replies, k) then {k} else {};
  }

  lemma OneMoreFailed(b: Box, ids: seq<Id>, replies: Id -> Reply, max: int, k: nat)
    ensures |Failing(b, ids, replies, max, k + 1)|
         == |Failing(b, ids, replies, max, k)| + if FailsFor(b, ids, replies, max, k) then 1 else 0
  {
    assert Failing(b, ids, replies, max, k + 1)
        == Failing(b, ids, replies, max, k) + if FailsFor(b, ids, replies, max, k) then {k} else {};
  }

  lemma OneMoreStays(b: Box, ids: seq<Id>, replies: Id -> Reply, max: int, k: nat)
    ensures |Staying(b, ids, replies, max, k + 1)|
         == |Staying(b, ids, replies, max, k)| + if Stays(b, ids, replies, max, k) then 1 else 0
  {
    assert Staying(b, ids, replies, max, k + 1)
        == Staying(b, ids, replies, max, k) + if Stays(b, ids, replies, max, k) then {k} else {};
  }

  /** The errors reported are those of the envelopes that stay, in the order of the listing. */
  lemma {:induction false} ErrorsExactly(b: Box, ids: seq<Id>, replies: Id -> Reply, max: int, k: nat, i: nat)
    requires IsListing(b, ids) && i < k <= |ids| && Stays(b, ids, replies, max, i)
    ensures var errors, place := TotalsOf(b, ids, replies, max, k).errors, |Staying(b, ids, replies, max, i)|;
            place < |errors| && errors[place] == replies(ids[i]).message
  {
    if i < k - 1 {
      ErrorsExactly(b, ids, replies, max, k - 1, i);
    } else {
      TotalsExactly(b, ids, replies, max, i);
    }
  }

  // ----- the outbox and its dispatcher ----------------------------------------------

  class FileOutbox {
    const maxAttempts: int
    var pending: Folder
    var done: Folder
    var failed: Folder
    ghost var log: seq<Dispatch>

    constructor (maxAttempts: int)
      ensures View() == EMPTY && this.maxAttempts == maxAttempts
    {
      this.maxAttempts := maxAttempts;
      pending, done, failed, log := map[], map[], map[], [];
    }

    ghost function View(): (b: Box)
      reads this
    {
      Box(pending, done, failed, log)
    }

    /** `enqueue`, under a fresh id. */
    method NewEnvelope(id: Id)
      modifies this`pending
      ensures View() == Enqueued(old(View()), id)
    {
      pending := pending[id := Envelope(0, "")];
    }

    method RequeueFailed(id: Id)
      modifies this`pending, this`failed
      ensures View() == Requeued(old(View()), id)
      ensures id in old(failed) ==> pending == old(pending)[id := old(failed)[id]] && failed == old(failed) - {id}
      ensures id !in old(failed) ==> pending == old(pending) && failed == old(failed)
    {
      if id in failed {
        pending := pending[id := failed[id]];
        failed := failed - {id};
      }
    }

    /** `list_pending`: every pending id once. The order, that of the file names, plays no part. */
    method ListPending() returns (ids: seq<Id>)
      ensures IsListing(View(), ids) && |ids| == |pending|
      ensures forall id :: id in pending ==> id in ids
    {
      ids := [];
      var todo := pending.Keys;
      while todo != {}
        invariant todo <= pending.Keys && |ids| + |todo| == |pending.Keys|
        invariant NoDup(ids) && forall i :: 0 <= i < |ids| ==> ids[i] in pending && ids[i] !in todo
        invariant forall id :: id in pending && id !in todo ==> id in ids
        decreases |todo|
      {
        var id :| id in todo;
        ids, todo := ids + [id], todo - {id};
      }
    }

    method DispatchOne(id: Id, reply: Reply) returns (o: Fate)
      requires id in pending
      modifies this
      ensures View() == Dispatched(old(View()), id, reply, maxAttempts)
      ensures o == FateOf(old(View()), id, reply, maxAttempts)
      ensures |pending| + (if o.Waits? then 0 else 1) == |old(pending)|
    {
      var e := pending[id];
      log := log + [Dispatch(id, reply.Delivered?)];
      if reply.Delivered? {
        pending, done := pending - {id}, done[id := e];
        o := Goes;
      } else {
        var e' := Envelope(e.attempts + 1, reply.message);
        if e.attempts + 1 >= maxAttempts {
          pending, failed := pending - {id}, failed[id := e'];
          o := Fails;
        } else {
          pending := pending[id := e'];
          o := Waits(reply.message);
        }
      }
      assert pending.Keys == if o.Waits? then old(pending).Keys else old(pending).Keys - {id};
    }

    /** `dispatch_pending`. */
    method DispatchPending(limit: nat, replies: Id -> Reply) returns (ids: seq<Id>, t: Totals, left: nat)
      modifies this
      ensures IsListing(old(View()), ids) && |ids| == if limit < |old(pending)| then limit else |old(pending)|
      ensures limit >= |old(pending)| ==> forall id :: id in old(pending) ==> id in ids
      ensures View() == Round(old(View()), ids, replies, maxAttempts, |ids|)
      ensures t == TotalsOf(old(View()), ids, replies, maxAttempts, |ids|)
      ensures left == |pending| && t.done + t.failed + left == |old(pending)|
      ensures forall id :: MovedAsReplied(old(View()), View(), id, id in ids, replies(id), maxAttempts)
      ensures && t.done == |Delivering(ids, replies, |ids|)|
              && t.failed == |Failing(old(View()), ids, replies, maxAttempts, |ids|)|
              && |t.errors| == |Staying(old(View()), ids, replies, maxAttempts, |ids|)|
    {
      ghost var b := View();
      var all := ListPending();
      ids := if limit < |all| then all[..limit] else all;
      t := DispatchListed(ids, replies);
      left := |pending|;
      TotalsExactly(b, ids, replies, maxAttempts, |ids|);
      assert ids[..|ids|] == ids;
      forall id ensures MovedAsReplied(b, View(), id, id in ids, replies(id), maxAttempts) {
        RoundExactly(b, ids, replies, maxAttempts, |ids|, id);
      }
    }

    method DispatchListed(ids: seq<Id>, replies: Id -> Reply) returns (t: Totals)
      requires IsListing(View(), ids)
      modifies this
      ensures View() == Round(old(View()), ids, replies, maxAttempts, |ids|)
      ensures t == TotalsOf(old(View()), ids, replies, maxAttempts, |ids|)
      ensures t.done + t.failed + |pending| == |old(pending)|
    {
      ghost var b := View();
      t := Totals(0, 0, []);
      var i := 0;
      while i < |ids|
        invariant 0 <= i <= |ids| && View() == Round(b, ids, replies, maxAttempts, i)
        invariant t == TotalsOf(b, ids, replies, maxAttempts, i)
        invariant t.done + t.failed + |pending| == |b.pending|
      {
        var o := DispatchOne(ids[i], replies(ids[i]));
        t := Tallied(t, o);
        i := i + 1;
      }
    }
  }
}
