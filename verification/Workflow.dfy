/** The erasure workflow: one ticket advanced over the live delete, the residual proof and the optional hooks. */
module Workflow {
  import opened Options
  import opened IdRegistry
  import opened ErasureService
  import opened Seqs

  datatype StepName = LiveDelete | ResidualProof | ReplicaFanout | CryptoShred | DocumentStore | BackupPolicy
  datatype StepStatus = Pending | Running | Done | StepFailed | Skipped
  datatype TicketStatus = Open | InProgress | Blocked | Closed

  type Steps = map<StepName, StepStatus>

  /** What the workflow keeps of a receipt. */
  datatype Kept = Kept(success: bool, mode: ProofMode, passed: Option<bool>)

  datatype Ticket = Ticket(status: TicketStatus, steps: Steps, receipt: Option<Kept>, required: set<StepName>)

  /** How the live delete ends: with a receipt, or an exception. */
  datatype Live = Returns(receipt: Kept) | Throws

  /** How a hook ends, if one is configured. */
  datatype Hook = NoHook | Succeeds | Fails

  datatype Env = Env(live: Live, hooks: StepName -> Hook, skipOptional: bool)

  const OPTIONAL: seq<StepName> := [ReplicaFanout, CryptoShred, DocumentStore, BackupPolicy]

  predicate IsOptional(n: StepName) {
    n != LiveDelete && n != ResidualProof
  }

  predicate AllSteps(s: Steps) {
    forall n: StepName :: n in s
  }

  // ----- one advance ----------------------------------------------------------------

  function AfterLive(t: Ticket, live: Live): (r: Ticket)
    requires AllSteps(t.steps)
    ensures AllSteps(r.steps)
  {
    if t.steps[LiveDelete] == Done then t
    else
      match live
      case Returns(k) =>
        t.(receipt := Some(k), steps := t.steps[LiveDelete := if k.success then Done else StepFailed])
      case Throws => t.(steps := t.steps[LiveDelete := StepFailed])
  }

  function ResidualStatus(receipt: Option<Kept>): (s: StepStatus) {
    if receipt.None? || receipt.value.mode == Off then Skipped
    else
      match receipt.value.passed
      case Some(true) => Done
      case Some(false) => StepFailed
      case None => Skipped
  }

  function AfterResidual(t: Ticket): (r: Ticket)
    requires AllSteps(t.steps)
    ensures AllSteps(r.steps)
  {
    if t.steps[ResidualProof] == Done then t else t.(steps := t.steps[ResidualProof := ResidualStatus(t.receipt)])
  }

  function OptionalStatus(required: bool, hook: Hook, skipOptional: bool): (s: StepStatus) {
    if !required then Skipped
    else
      match hook
      case NoHook => if skipOptional then Pending else StepFailed
      case Succeeds => Done
      case Fails => StepFailed
  }

  function AfterOptional(t: Ticket, n: StepName, env: Env): (r: Ticket)
    requires AllSteps(t.steps)
    ensures AllSteps(r.steps)
  {
    if t.steps[n] == Done then t
    else t.(steps := t.steps[n := OptionalStatus(n in t.required, env.hooks(n), env.skipOptional)])
  }

  function AfterHooks(t: Ticket, env: Env, k: nat): (r: Ticket)
    requires AllSteps(t.steps) && k <= |OPTIONAL|
    ensures AllSteps(r.steps)
  {
    if k == 0 then t else AfterOptional(AfterHooks(t, env, k - 1), OPTIONAL[k - 1], env)
  }

  /** What one optional step says about the ticket, if it keeps it from closing. */
  function Obstacle(t: Ticket, n: StepName): (s: Option<TicketStatus>)
    requires AllSteps(t.steps)
  {
    if n in t.required && t.steps[n] != Done && t.steps[n] != Skipped
    then Some(if t.steps[n] == StepFailed then Blocked else InProgress) else None
  }

  function FirstObstacle(t: Ticket, k: nat): (s: Option<TicketStatus>)
    requires AllSteps(t.steps) && k <= |OPTIONAL|
    decreases |OPTIONAL| - k
  {
    if k == |OPTIONAL| then None
    else if Obstacle(t, OPTIONAL[k]).Some? then Obstacle(t, OPTIONAL[k])
    else FirstObstacle(t, k + 1)
  }

  /** `_compute_status`. */
  function ComputeStatus(t: Ticket): (s: TicketStatus)
    requires AllSteps(t.steps)
  {
    if t.steps[LiveDelete] != Done then (if t.steps[LiveDelete] == StepFailed then Blocked else InProgress)
    else if t.steps[ResidualProof] == StepFailed then Blocked
    else
      match FirstObstacle(t, 0)
      case Some(s) => s
      case None => Closed
  }

  /** `advance`. */
  function Advanced(t: Ticket, env: Env): (r: Ticket)
    requires AllSteps(t.steps)
    ensures AllSteps(r.steps)
  {
    if t.status == Closed then t
    else
      var u := AfterHooks(AfterResidual(AfterLive(t.(status := InProgress), env.live)), env, |OPTIONAL|);
      u.(status := ComputeStatus(u))
  }

  /** The delete or hook of step n is called in this advance. */
  predicate Calls(t: Ticket, env: Env, n: StepName)
    requires AllSteps(t.steps)
  {
    && t.status != Closed && t.steps[n] != Done
    && (n == LiveDelete || (IsOptional(n) && n in t.required && env.hooks(n) != NoHook))
  }

  /** The hooks called among the first k optional steps, in order. */
  function HookCalls(t: Ticket, env: Env, k: nat): (ns: seq<StepName>)
    requires AllSteps(t.steps) && k <= |OPTIONAL|
  {
    if k == 0 then []
    else
      var n := OPTIONAL[k - 1];
      HookCalls(t, env, k - 1) + if t.steps[n] != Done && n in t.required && env.hooks(n) != NoHook then [n] else []
  }

  /** All calls of one advance, in order. */
  function CallsMade(t: Ticket, env: Env): (ns: seq<StepName>)
    requires AllSteps(t.steps)
  {
    if t.status == Closed then []
    else (if t.steps[LiveDelete] == Done then [] else [LiveDelete]) + HookCalls(t, env, |OPTIONAL|)
  }

  /** The steps before the optional ones have no say in which hooks are called. */
  lemma {:induction false} SameHookCalls(t: Ticket, u: Ticket, env: Env, k: nat)
    requires AllSteps(t.steps) && AllSteps(u.steps) && k <= |OPTIONAL| && u.required == t.required
    requires forall n :: IsOptional(n) ==> u.steps[n] == t.steps[n]
    ensures HookCalls(u, env, k) == HookCalls(t, env, k)
  {
    if k > 0 {
      SameHookCalls(t, u, env, k - 1);
      OptionalAll(OPTIONAL[k - 1]);
      assert OPTIONAL[k - 1] in OPTIONAL[..|OPTIONAL|];
    }
  }

  lemma {:induction false} HookCallsExactly(t: Ticket, env: Env, k: nat)
    requires AllSteps(t.steps) && k <= |OPTIONAL|
    ensures forall n :: n in HookCalls(t, env, k) <==>
              n in OPTIONAL[..k] && t.steps[n] != Done && n in t.required && env.hooks(n) != NoHook
    ensures NoDup(HookCalls(t, env, k))
  {
    if k > 0 {
      HookCallsExactly(t, env, k - 1);
      assert OPTIONAL[..k] == OPTIONAL[..k - 1] + [OPTIONAL[k - 1]];
      assert OPTIONAL[k - 1] !in OPTIONAL[..k - 1];
    }
  }

  /** One advance calls exactly the steps that `Calls` says, each once. */
  lemma CallsExactly(t: Ticket, env: Env)
    requires AllSteps(t.steps)
    ensures forall n :: n in CallsMade(t, env) <==> Calls(t, env, n)
    ensures NoDup(CallsMade(t, env))
  {
    HookCallsExactly(t, env, |OPTIONAL|);
    forall n: StepName ensures n in OPTIONAL[..|OPTIONAL|] <==> IsOptional(n) {
      OptionalAll(n);
    }
  }

  /** The place of a step in the order in which an advance comes to it. */
  function Place(n: StepName): nat {
    match n
    case LiveDelete => 0
    case ResidualProof => 1
    case ReplicaFanout => 2
    case CryptoShred => 3
    case DocumentStore => 4
    case BackupPolicy => 5
  }

  /** The steps come in order, from place `low` on and before place `high`. */
  ghost predicate InOrder(ns: seq<StepName>, low: nat, high: nat) {
    && (forall i :: 0 <= i < |ns| ==> low <= Place(ns[i]) < high)
    && (forall i, j :: 0 <= i < j < |ns| ==> Place(ns[i]) < Place(ns[j]))
  }

  lemma JoinInOrder(a: seq<StepName>, b: seq<StepName>, low: nat, mid: nat, high: nat)
    requires low <= mid <= high && InOrder(a, low, mid) && InOrder(b, mid, high)
    ensures InOrder(a + b, low, high)
  {
  }

  lemma {:induction false} HookCallsInOrder(t: Ticket, env: Env, k: nat)
    requires AllSteps(t.steps) && k <= |OPTIONAL|
    ensures InOrder(HookCalls(t, env, k), 2, k + 2)
  {
    if k > 0 {
      var n := OPTIONAL[k - 1];
      var last := if t.steps[n] != Done && n in t.required && env.hooks(n) != NoHook then [n] else [];
      HookCallsInOrder(t, env, k - 1);
      PlaceOf(k - 1);
      assert InOrder(last, k + 1, k + 2);
      JoinInOrder(HookCalls(t, env, k - 1), last, 2, k + 1, k + 2);
    }
  }

  lemma PlaceOf(k: nat)
    requires k < |OPTIONAL|
    ensures Place(OPTIONAL[k]) == k + 2
  {
    assert OPTIONAL[0] == ReplicaFanout && OPTIONAL[1] == CryptoShred;
    assert OPTIONAL[2] == DocumentStore && OPTIONAL[3] == BackupPolicy;
  }

  /** The calls of an advance come in the order of the steps: the delete, then the hooks. */
  lemma CallsInOrder(t: Ticket, env: Env)
    requires AllSteps(t.steps)
    ensures InOrder(CallsMade(t, env), 0, 6)
  {
    if t.status != Closed {
      HookCallsInOrder(t, env, |OPTIONAL|);
      JoinInOrder(if t.steps[LiveDelete] == Done then [] else [LiveDelete], HookCalls(t, env, |OPTIONAL|), 0, 2, 6);
    }
  }

  // ----- what an advance does to each step ------------------------------------------

  lemma {:induction false} HooksDo(t: Ticket, env: Env, k: nat, n: StepName)
    requires AllSteps(t.steps) && k <= |OPTIONAL|
    ensures var r := AfterHooks(t, env, k);
            && r.receipt == t.receipt && r.required == t.required
            && (n !in OPTIONAL[..k] ==> r.steps[n] == t.steps[n])
            && (n in OPTIONAL[..k] ==>
                  r.steps[n] == if t.steps[n] == Done then Done
                                else OptionalStatus(n in t.required, env.hooks(n), env.skipOptional))
  {
    if k > 0 {
      HooksDo(t, env, k - 1, n);
      assert OPTIONAL[..k] == OPTIONAL[..k - 1] + [OPTIONAL[k - 1]];
      if n == OPTIONAL[k - 1] {
        assert n !in OPTIONAL[..k - 1];
      }
    }
  }

  lemma OptionalAll(n: StepName)
    ensures n in OPTIONAL[..|OPTIONAL|] <==> IsOptional(n)
  {
    assert OPTIONAL[..|OPTIONAL|] == OPTIONAL;
    assert OPTIONAL[0] == ReplicaFanout && OPTIONAL[1] == CryptoShred;
    assert OPTIONAL[2] == DocumentStore && OPTIONAL[3] == BackupPolicy;
  }

  /** Every step on its own. */
  lemma StepAfter(t: Ticket, env: Env, n: StepName)
    requires AllSteps(t.steps) && t.status != Closed
    ensures var r, live := Advanced(t, env), AfterLive(t, env.live);
            && r.required == t.required && r.receipt == live.receipt
            && r.steps[LiveDelete] == live.steps[LiveDelete]
            && r.steps[ResidualProof] == AfterResidual(live).steps[ResidualProof]
            && (IsOptional(n) ==>
                  r.steps[n] == if t.steps[n] == Done then Done
                                else OptionalStatus(n in t.required, env.hooks(n), env.skipOptional))
  {
    FirstStepsAfter(t, env);
    var u := AfterResidual(AfterLive(t.(status := InProgress), env.live));
    HooksDo(u, env, |OPTIONAL|, n);
    OptionalAll(n);
  }

  lemma FirstStepsAfter(t: Ticket, env: Env)
    requires AllSteps(t.steps) && t.status != Closed
    ensures var r, live := Advanced(t, env), AfterLive(t, env.live);
            && r.required == t.required && r.receipt == live.receipt
            && r.steps[LiveDelete] == live.steps[LiveDelete]
            && r.steps[ResidualProof] == AfterResidual(live).steps[ResidualProof]
  {
    var u := AfterResidual(AfterLive(t.(status := InProgress), env.live));
    HooksDo(u, env, |OPTIONAL|, LiveDelete);
    HooksDo(u, env, |OPTIONAL|, ResidualProof);
    OptionalAll(LiveDelete);
    OptionalAll(ResidualProof);
  }

  lemma {:induction false} NoObstacle(t: Ticket, k: nat, n: StepName)
    requires AllSteps(t.steps) && k <= |OPTIONAL| && FirstObstacle(t, k) == None
    ensures n in OPTIONAL[k..] ==> Obstacle(t, n) == None
    decreases |OPTIONAL| - k
  {
    if k < |OPTIONAL| {
      NoObstacle(t, k + 1, n);
      assert OPTIONAL[k..] == [OPTIONAL[k]] + OPTIONAL[k + 1..];
    }
  }

  // ----- when a ticket closes, and when it is blocked -------------------------------

  /** The k-th optional step keeps the ticket from closing. */
  ghost predicate Unfinished(t: Ticket, k: int)
    requires AllSteps(t.steps)
  {
    && 0 <= k < |OPTIONAL| && OPTIONAL[k] in t.required
    && t.steps[OPTIONAL[k]] != Done && t.steps[OPTIONAL[k]] != Skipped
  }

  /** The first optional step that keeps the ticket from closing has failed. */
  ghost predicate FirstUnfinishedFailed(t: Ticket)
    requires AllSteps(t.steps)
  {
    exists k :: Unfinished(t, k) && t.steps[OPTIONAL[k]] == StepFailed && forall j :: 0 <= j < k ==> !Unfinished(t, j)
  }

  /** The status that goes with the steps of a ticket. */
  ghost predicate StatusFits(t: Ticket)
    requires AllSteps(t.steps)
  {
    && (t.status == Closed <==>
          && t.steps[LiveDelete] == Done && t.steps[ResidualProof] != StepFailed
          && forall k :: !Unfinished(t, k))
    && (t.status == Blocked <==>
          || t.steps[LiveDelete] == StepFailed
          || (t.steps[LiveDelete] == Done && (t.steps[ResidualProof] == StepFailed || FirstUnfinishedFailed(t))))
    && t.status != Open
  }

  lemma {:induction false} FirstObstacleExactly(t: Ticket, k: nat)
    requires AllSteps(t.steps) && k <= |OPTIONAL|
    ensures match FirstObstacle(t, k)
            case None => forall j :: k <= j ==> !Unfinished(t, j)
            case Some(s) =>
              exists i :: && k <= i && Unfinished(t, i) && (forall j :: k <= j < i ==> !Unfinished(t, j))
                          && s == if t.steps[OPTIONAL[i]] == StepFailed then Blocked else InProgress
    decreases |OPTIONAL| - k
  {
    if k < |OPTIONAL| {
      assert Obstacle(t, OPTIONAL[k]).Some? <==> Unfinished(t, k);
      if !Unfinished(t, k) {
        FirstObstacleExactly(t, k + 1);
      }
    }
  }

  /** The status of a ticket that has been advanced is the one its steps call for. */
  lemma StatusExactly(t: Ticket, env: Env)
    requires AllSteps(t.steps) && t.status != Closed
    ensures StatusFits(Advanced(t, env))
  {
    var u := AfterHooks(AfterResidual(AfterLive(t.(status := InProgress), env.live)), env, |OPTIONAL|);
    var r := Advanced(t, env);
    FirstObstacleExactly(u, 0);
    assert r == u.(status := ComputeStatus(u));
    forall k ensures Unfinished(r, k) <==> Unfinished(u, k) {
    }
    if FirstObstacle(u, 0).Some? {
      var i :| 0 <= i && Unfinished(u, i) && (forall j :: 0 <= j < i ==> !Unfinished(u, j))
               && FirstObstacle(u, 0).value == if u.steps[OPTIONAL[i]] == StepFailed then Blocked else InProgress;
      assert Unfinished(r, i);
      OneFirst(r, i);
    }
  }

  lemma OneFirst(t: Ticket, i: int)
    requires AllSteps(t.steps) && Unfinished(t, i) && forall j :: 0 <= j < i ==> !Unfinished(t, j)
    ensures FirstUnfinishedFailed(t) <==> t.steps[OPTIONAL[i]] == StepFailed
  {
    forall k | Unfinished(t, k) && forall j :: 0 <= j < k ==> !Unfinished(t, j) ensures k == i {
    }
  }

  /** One advance, step by step. */
  lemma StepsExactly(t: Ticket, env: Env, n: StepName)
    requires AllSteps(t.steps) && t.status != Closed
    ensures var r := Advanced(t, env);
            && r.required == t.required
            && r.receipt == (if t.steps[LiveDelete] != Done && env.live.Returns? then Some(env.live.receipt) else t.receipt)
            && (t.steps[n] == Done ==> r.steps[n] == Done)
            && (t.steps[n] != Done ==>
                  match n
                  case LiveDelete =>
                    r.steps[n] == if env.live.Returns? && env.live.receipt.success then Done else StepFailed
                  case ResidualProof =>
                    if r.receipt == None || r.receipt.value.mode == Off || r.receipt.value.passed == None
                    then r.steps[n] == Skipped
                    else r.steps[n] == if r.receipt.value.passed.value then Done else StepFailed
                  case _ =>
                    if n !in t.required then r.steps[n] == Skipped
                    else
                      match env.hooks(n)
                      case Succeeds => r.steps[n] == Done
                      case Fails => r.steps[n] == StepFailed
                      case NoHook => r.steps[n] == if env.skipOptional then Pending else StepFailed)
  {
    StepAfter(t, env, n);
  }

  /** What an advance needs to close the ticket, all of it known when it starts. */
  ghost predicate Closes(t: Ticket, env: Env)
    requires AllSteps(t.steps)
  {
    var kept := if t.steps[LiveDelete] != Done && env.live.Returns? then Some(env.live.receipt) else t.receipt;
    && (t.steps[LiveDelete] == Done || (env.live.Returns? && env.live.receipt.success))
    && (t.steps[ResidualProof] == Done || kept == None || kept.value.mode == Off || kept.value.passed != Some(false))
    && forall n :: n in t.required && IsOptional(n) ==> t.steps[n] == Done || env.hooks(n) == Succeeds
  }

  /**
   * An advance closes the ticket if and only if the delete is done or now succeeds, the residual proof has not
   * failed, and the hook of every required step has succeeded before or does so now.
   */
  lemma ClosesExactly(t: Ticket, env: Env)
    requires AllSteps(t.steps) && t.status != Closed
    ensures Advanced(t, env).status == Closed <==> Closes(t, env)
  {
    var r := Advanced(t, env);
    StatusExactly(t, env);
    StepsExactly(t, env, LiveDelete);
    StepsExactly(t, env, ResidualProof);
    forall n | n in t.required && IsOptional(n)
      ensures (t.steps[n] == Done || env.hooks(n) == Succeeds) <==> r.steps[n] == Done || r.steps[n] == Skipped
      ensures exists k :: 0 <= k < |OPTIONAL| && OPTIONAL[k] == n
    {
      StepsExactly(t, env, n);
      OptionalAll(n);
    }
    forall k | 0 <= k < |OPTIONAL| ensures IsOptional(OPTIONAL[k]) {
      OptionalAll(OPTIONAL[k]);
      assert OPTIONAL[k] in OPTIONAL[..|OPTIONAL|];
    }
  }

  /** In particular a created ticket closes at once when everything asked of it succeeds. */
  lemma SuccessCloses(t: Ticket, env: Env, k: Kept)
    requires Created(t) && env.live == Returns(k) && k.success && (k.mode == Off || k.passed != Some(false))
    requires forall n :: n in t.required ==> env.hooks(n) == Succeeds
    ensures Advanced(t, env).status == Closed
  {
    ClosesExactly(t, env);
  }

  // ----- runs -----------------------------------------------------------------------

  ghost predicate Created(t: Ticket) {
    && t.status == Open && t.receipt == None && AllSteps(t.steps)
    && (forall n: StepName :: t.steps[n] == Pending)
    && (forall n :: n in t.required ==> IsOptional(n))
  }

  ghost predicate IsRun(ts: seq<Ticket>, envs: seq<Env>) {
    && |ts| == |envs| + 1 && Created(ts[0])
    && forall i :: 0 <= i < |envs| ==> AllSteps(ts[i].steps) && ts[i + 1] == Advanced(ts[i], envs[i])
  }

  /** What makes a closed ticket worth something. */
  ghost predicate Justified(t: Ticket)
    requires AllSteps(t.steps)
  {
    && t.steps[LiveDelete] == Done && t.receipt.Some? && t.receipt.value.success
    && t.steps[ResidualProof] != StepFailed
    && forall n :: n in t.required ==> t.steps[n] == Done
  }

  ghost predicate TicketInv(t: Ticket) {
    && AllSteps(t.steps)
    && (t.steps[LiveDelete] == Done ==> t.receipt.Some? && t.receipt.value.success)
    && (forall n :: n in t.required ==> IsOptional(n) && t.steps[n] != Skipped)
    && (t.status == Closed ==> Justified(t))
  }

  lemma AdvanceKeeps(t: Ticket, env: Env)
    requires TicketInv(t)
    ensures TicketInv(Advanced(t, env)) && Advanced(t, env).required == t.required
  {
    if t.status != Closed {
      var r := Advanced(t, env);
      StepAfter(t, env, LiveDelete);
      forall n | n in t.required ensures r.steps[n] != Skipped {
        StepAfter(t, env, n);
      }
      if r.status == Closed {
        forall n | n in r.required ensures r.steps[n] == Done {
          ClosedMeansDone(t, env, n);
        }
        ClosedResidual(t, env);
      }
    }
  }

  lemma ClosedMeansDone(t: Ticket, env: Env, n: StepName)
    requires TicketInv(t) && t.status != Closed && Advanced(t, env).status == Closed && n in t.required
    ensures Advanced(t, env).steps[n] == Done
  {
    var u := AfterHooks(AfterResidual(AfterLive(t.(status := InProgress), env.live)), env, |OPTIONAL|);
    StepAfter(t, env, n);
    NoObstacle(u, 0, n);
    OptionalAll(n);
    assert OPTIONAL[0..] == OPTIONAL[..|OPTIONAL|];
    HooksDo(AfterResidual(AfterLive(t.(status := InProgress), env.live)), env, |OPTIONAL|, n);
  }

  lemma ClosedResidual(t: Ticket, env: Env)
    requires AllSteps(t.steps) && t.status != Closed && Advanced(t, env).status == Closed
    ensures Advanced(t, env).steps[ResidualProof] != StepFailed && Advanced(t, env).steps[LiveDelete] == Done
  {
  }

  lemma {:induction false} RunInv(ts: seq<Ticket>, envs: seq<Env>)
    requires IsRun(ts, envs)
    ensures TicketInv(ts[|envs|]) && ts[|envs|].required == ts[0].required
  {
    if envs != [] {
      var k := |envs| - 1;
      RunInv(ts[..k + 1], envs[..k]);
      AdvanceKeeps(ts[k], envs[k]);
    }
  }

  /** A closed ticket has a successful receipt, no failed residual proof, and every required step done. */
  lemma ClosedIsJustified(ts: seq<Ticket>, envs: seq<Env>)
    requires IsRun(ts, envs) && ts[|envs|].status == Closed
    ensures AllSteps(ts[|envs|].steps) && Justified(ts[|envs|])
  {
    RunInv(ts, envs);
  }

  lemma DoneStays(t: Ticket, env: Env, n: StepName)
    requires AllSteps(t.steps) && t.steps[n] == Done
    ensures Advanced(t, env).steps[n] == Done && !Calls(t, env, n)
  {
    if t.status != Closed {
      StepAfter(t, env, n);
    }
  }

  /** A done step stays done and its delete or hook is never called again. */
  lemma {:induction false} DoneForever(ts: seq<Ticket>, envs: seq<Env>, i: nat, j: nat, n: StepName)
    requires IsRun(ts, envs) && i <= j < |envs| && AllSteps(ts[i].steps) && ts[i].steps[n] == Done
    ensures AllSteps(ts[j].steps) && ts[j].steps[n] == Done && !Calls(ts[j], envs[j], n)
  {
    if i < j {
      DoneForever(ts, envs, i, j - 1, n);
      DoneStays(ts[j - 1], envs[j - 1], n);
    }
    DoneStays(ts[j], envs[j], n);
  }

  /** An optional step is done exactly when its hook has been called and has succeeded. */
  lemma {:induction false} DoneExactly(ts: seq<Ticket>, envs: seq<Env>, n: StepName)
    requires IsRun(ts, envs) && IsOptional(n)
    ensures AllSteps(ts[|envs|].steps)
    ensures ts[|envs|].steps[n] == Done <==> exists i :: Succeeded(ts, envs, i, n)
  {
    if envs != [] {
      var k := |envs| - 1;
      var before, init := ts[..k + 1], envs[..k];
      DoneExactly(before, init, n);
      forall i ensures Succeeded(ts, envs, i, n) <==> Succeeded(before, init, i, n) || (i == k && Succeeded(ts, envs, k, n)) {
      }
      assert AllSteps(ts[k].steps) && ts[k + 1] == Advanced(ts[k], envs[k]);
      if ts[k].status != Closed {
        StepsExactly(ts[k], envs[k], n);
      }
      assert ts[k + 1].steps[n] == Done <==> ts[k].steps[n] == Done || Succeeded(ts, envs, k, n);
      if i :| Succeeded(before, init, i, n) {
        assert Succeeded(ts, envs, i, n);
      }
    }
  }

  /** In advance i the hook of step n was called and succeeded. */
  ghost predicate Succeeded(ts: seq<Ticket>, envs: seq<Env>, i: int, n: StepName) {
    && 0 <= i < |envs| && i < |ts| && AllSteps(ts[i].steps)
    && Calls(ts[i], envs[i], n) && envs[i].hooks(n) == Succeeds
  }

  /** A closed ticket never changes and never calls anything. */
  lemma {:induction false} ClosedForever(ts: seq<Ticket>, envs: seq<Env>, i: nat, j: nat)
    requires IsRun(ts, envs) && i <= j <= |envs| && ts[i].status == Closed
    ensures ts[j] == ts[i]
    ensures j < |envs| ==> AllSteps(ts[j].steps) && forall n :: !Calls(ts[j], envs[j], n)
  {
    if i < j {
      ClosedForever(ts, envs, i, j - 1);
    }
  }

  // ----- retrying a partial delete --------------------------------------------------

  /** What the workflow keeps of a receipt of the service. */
  function KeptOf(exts: seq<string>, f: Forward, senv: ErasureService.Env, drop: bool): (k: Kept)
    requires |exts| <= |senv.replies|
  {
    var ts := Turns(f, exts, senv.replies, drop, |exts|);
    Kept(ReceiptOf(exts, ts, senv).Success(), senv.proof, ProofPassed(senv, LabelsOf(ts)))
  }

  /** The live deletes of a run go to a service that drops mappings, and nobody registers the ids anew. */
  ghost predicate Served(ts: seq<Ticket>, envs: seq<Env>, exts: seq<string>,
                         fs: seq<Forward>, senvs: seq<ErasureService.Env>)
  {
    && |fs| == |envs| + 1 && |senvs| == |envs| && |ts| == |envs| + 1
    && forall i :: 0 <= i < |envs| ==> ServedOnce(ts[i], envs[i], exts, fs[i], fs[i + 1], senvs[i])
  }

  ghost predicate ServedOnce(t: Ticket, env: Env, exts: seq<string>, f: Forward, f': Forward,
                             senv: ErasureService.Env)
  {
    && AllSteps(t.steps) && |exts| <= |senv.replies|
    && if Calls(t, env, LiveDelete)
       then env.live == Returns(KeptOf(exts, f, senv, true)) && f' == Left(f, exts, senv.replies, true, |exts|)
       else f' == f
  }

  /** One id has lost its mapping and the live delete is not done. */
  ghost predicate Stuck(t: Ticket, f: Forward, exts: seq<string>) {
    && AllSteps(t.steps) && t.steps[LiveDelete] != Done && t.status != Closed
    && exists x :: 0 <= x < |exts| && exts[x] !in f
  }

  lemma StuckStays(t: Ticket, env: Env, exts: seq<string>, f: Forward, f': Forward, senv: ErasureService.Env)
    requires Stuck(t, f, exts) && ServedOnce(t, env, exts, f, f', senv)
    ensures Stuck(Advanced(t, env), f', exts)
  {
    var x :| 0 <= x < |exts| && exts[x] !in f;
    ReceiptSound(f, exts, senv, true);
    LeftWithin(f, exts, senv.replies, true, |exts|, exts[x]);
    StepAfter(t, env, LiveDelete);
    assert AfterLive(t, env.live).steps[LiveDelete] == StepFailed;
    assert exts[x] !in f';
  }

  /**
   * Once a live delete has erased some of the ids and still failed, the ticket can never close: the erased ids
   * are unknown to every later attempt.
   */
  lemma {:induction false} PartialNeverCloses(ts: seq<Ticket>, envs: seq<Env>, exts: seq<string>,
                                              fs: seq<Forward>, senvs: seq<ErasureService.Env>, i: nat, j: nat)
    requires IsRun(ts, envs) && Served(ts, envs, exts, fs, senvs) && i < j <= |envs|
    requires AllSteps(ts[i].steps) && Calls(ts[i], envs[i], LiveDelete) && |exts| <= |senvs[i].replies|
    requires LabelsOf(Turns(fs[i], exts, senvs[i].replies, true, |exts|)) != []
    requires !KeptOf(exts, fs[i], senvs[i], true).success
    ensures Stuck(ts[j], fs[j], exts)
  {
    if j == i + 1 {
      var k := Turns(fs[i], exts, senvs[i].replies, true, |exts|);
      SomeGone(k);
      var x :| 0 <= x < |exts| && k[x].Gone?;
      TurnAt(fs[i], exts, senvs[i].replies, true, |exts|, x);
      GoneUnmapped(fs[i], exts, senvs[i].replies, x, |exts|);
      assert ServedOnce(ts[i], envs[i], exts, fs[i], fs[j], senvs[i]);
      StepAfter(ts[i], envs[i], LiveDelete);
    } else {
      PartialNeverCloses(ts, envs, exts, fs, senvs, i, j - 1);
      assert ServedOnce(ts[j - 1], envs[j - 1], exts, fs[j - 1], fs[j], senvs[j - 1]);
      StuckStays(ts[j - 1], envs[j - 1], exts, fs[j - 1], fs[j], senvs[j - 1]);
    }
  }

  /**
   * A ticket whose service call is bound to complete closes at once, if the hooks it requires succeed; and if it
   * closes, that call was bound to complete.
   */
  lemma ServedCloses(t: Ticket, env: Env, exts: seq<string>, f: Forward, senv: ErasureService.Env, drop: bool)
    requires Created(t) && |exts| <= |senv.replies| && env.live == Returns(KeptOf(exts, f, senv, drop))
    ensures Advanced(t, env).status == Closed <==>
              WillComplete(f, exts, senv, drop) && forall n :: n in t.required ==> env.hooks(n) == Succeeds
  {
    ClosesExactly(t, env);
    ReceiptSound(f, exts, senv, drop);
    if WillComplete(f, exts, senv, drop) {
      KeptPassed(exts, f, senv, drop);
    }
  }

  /** A complete receipt carries no failed residual proof. */
  lemma KeptPassed(exts: seq<string>, f: Forward, senv: ErasureService.Env, drop: bool)
    requires |exts| <= |senv.replies| && WillComplete(f, exts, senv, drop)
    ensures KeptOf(exts, f, senv, drop).passed != Some(false)
  {
    var ts := Turns(f, exts, senv.replies, drop, |exts|);
    if exts != [] {
      CleanExactly(f, exts, senv.replies, drop);
      ErasedAll(f, exts, senv, drop);
      VerifiesExactly(f, exts, senv, LabelsOf(ts));
    }
  }

  // ----- the runner -----------------------------------------------------------------

  class WorkflowRunner {
    var status: TicketStatus
    var steps: Steps
    var receipt: Option<Kept>
    const required: set<StepName>
    /** The delete and hook calls made so far. */
    ghost var calls: seq<StepName>

    function View(): (t: Ticket)
      reads this
    {
      Ticket(status, steps, receipt, required)
    }

    constructor (required: set<StepName>)
      requires forall n :: n in required ==> IsOptional(n)
      ensures Created(View()) && this.required == required && calls == []
    {
      status, receipt, this.required, calls := Open, None, required, [];
      steps := map[LiveDelete := Pending, ResidualProof := Pending, ReplicaFanout := Pending,
                   CryptoShred := Pending, DocumentStore := Pending, BackupPolicy := Pending];
      new;
      forall n: StepName ensures n in steps && steps[n] == Pending {
        match n
        case LiveDelete =>
        case ResidualProof =>
        case ReplicaFanout =>
        case CryptoShred =>
        case DocumentStore =>
        case BackupPolicy =>
      }
    }

    method RunLiveDelete(live: Live)
      requires AllSteps(steps)
      modifies this
      ensures View() == AfterLive(old(View()), live)
      ensures calls == old(calls) + if old(steps)[LiveDelete] == Done then [] else [LiveDelete]
    {
      if steps[LiveDelete] == Done {
        return;
      }
      calls := calls + [LiveDelete];
      match live
      case Returns(k) =>
        receipt := Some(k);
        steps := steps[LiveDelete := if k.success then Done else StepFailed];
      case Throws =>
        steps := steps[LiveDelete := StepFailed];
    }

    method MirrorResidual()
      requires AllSteps(steps)
      modifies this`steps
      ensures View() == AfterResidual(old(View()))
    {
      if steps[ResidualProof] == Done {
        return;
      }
      if receipt.None? || receipt.value.mode == Off {
        steps := steps[ResidualProof := Skipped];
      } else if receipt.value.passed == Some(true) {
        steps := steps[ResidualProof := Done];
      } else if receipt.value.passed == Some(false) {
        steps := steps[ResidualProof := StepFailed];
      } else {
        steps := steps[ResidualProof := Skipped];
      }
    }

    method RunOptional(n: StepName, env: Env)
      requires AllSteps(steps) && IsOptional(n)
      modifies this
      ensures View() == AfterOptional(old(View()), n, env)
      ensures calls == old(calls) +
                if old(steps)[n] != Done && n in required && env.hooks(n) != NoHook then [n] else []
    {
      if steps[n] == Done {
        return;
      }
      if n !in required {
        steps := steps[n := Skipped];
        return;
      }
      if env.hooks(n) == NoHook {
        steps := steps[n := if env.skipOptional then Pending else StepFailed];
        return;
      }
      calls := calls + [n];
      steps := steps[n := if env.hooks(n) == Succeeds then Done else StepFailed];
    }

    method RunOptionals(env: Env)
      requires AllSteps(steps)
      modifies this
      ensures View() == AfterHooks(old(View()), env, |OPTIONAL|)
      ensures calls == old(calls) + HookCalls(old(View()), env, |OPTIONAL|)
    {
      ghost var t := View();
      var k := 0;
      while k < |OPTIONAL|
        invariant 0 <= k <= |OPTIONAL| && View() == AfterHooks(t, env, k)
        invariant calls == old(calls) + HookCalls(t, env, k)
      {
        HooksDo(t, env, k, OPTIONAL[k]);
        assert OPTIONAL[k] !in OPTIONAL[..k];
        RunOptional(OPTIONAL[k], env);
        k := k + 1;
      }
    }

    method RunSteps(env: Env)
      requires AllSteps(steps)
      modifies this
      ensures View() == AfterHooks(AfterResidual(AfterLive(old(View()), env.live)), env, |OPTIONAL|)
      ensures calls == old(calls) + (if old(steps)[LiveDelete] == Done then [] else [LiveDelete])
                       + HookCalls(old(View()), env, |OPTIONAL|)
    {
      ghost var t := View();
      RunLiveDelete(env.live);
      MirrorResidual();
      SameHookCalls(t, View(), env, |OPTIONAL|);
      RunOptionals(env);
    }

    /** `advance`. */
    method Advance(env: Env)
      requires AllSteps(steps)
      modifies this
      ensures View() == Advanced(old(View()), env)
      ensures old(status) == Closed ==> View() == old(View())
      ensures old(status) != Closed ==> AllSteps(steps) && StatusFits(View())
      ensures old(status) != Closed ==> (status == Closed <==> Closes(old(View()), env))
      ensures calls == old(calls) + CallsMade(old(View()), env)
      ensures forall n :: n in CallsMade(old(View()), env) <==> Calls(old(View()), env, n)
      ensures NoDup(CallsMade(old(View()), env))
    {
      ghost var t := View();
      CallsExactly(t, env);
      if status == Closed {
        return;
      }
      status := InProgress;
      SameHookCalls(t, View(), env, |OPTIONAL|);
      RunSteps(env);
      status := ComputeStatus(View());
      StatusExactly(t, env);
      ClosesExactly(t, env);
    }
  }
}
