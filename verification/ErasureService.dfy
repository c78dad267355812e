/** One batch of `ErasureService.delete`, and what its receipt is worth. */
module ErasureService {
  import opened IdRegistry
  import opened Seqs
  import opened Options

  // ----- the status of a receipt ----------------------------------------------------

  datatype Status = Complete | Partial | Failed
  datatype ProofMode = Off | Sample | Full
  datatype CompactMode = Never | Always | Auto
  datatype Policy = PolicyNever | Coalesce | PolicyAlways

  predicate StartsWith(s: string, p: string) {
    |p| <= |s| && s[..|p|] == p
  }

  predicate Mentions(s: string, p: string) {
    exists i :: 0 <= i <= |s| && StartsWith(s[i..], p)
  }

  const NO_COMPACT := "compact requested but backend"

  predicate IsCompactError(e: string) {
    StartsWith(e, "compact failed") || Mentions(e, NO_COMPACT)
  }

  predicate IsEraseError(e: string) {
    && !StartsWith(e, "skip ") && !StartsWith(e, "residual_proof") && !StartsWith(e, "compact")
    && !Mentions(e, NO_COMPACT)
  }

  predicate OnlySkips(errors: seq<string>) {
    errors != [] && forall i :: 0 <= i < |errors| ==> StartsWith(errors[i], "skip ")
  }

  /** `_derive_status`. */
  function DeriveStatus(requested: nat, erased: nat, errors: seq<string>, mode: ProofMode, passed: Option<bool>,
                        deferred: bool): (s: Status)
  {
    var compactFailed := exists i :: 0 <= i < |errors| && IsCompactError(errors[i]);
    var proofFailed := mode != Off && erased > 0 && passed != Some(true);
    var eraseFailed := exists i :: 0 <= i < |errors| && IsEraseError(errors[i]);
    var allErased := erased == requested && !eraseFailed;
    if requested == 0 then Complete
    else if erased == 0 then (if OnlySkips(errors) then Partial else Failed)
    else if allErased && !compactFailed && !proofFailed && errors == [] then Complete
    else if && allErased && !compactFailed && !proofFailed && deferred && !OnlySkips(errors)
            && !(exists i :: 0 <= i < |errors| && !StartsWith(errors[i], "skip ")) then Complete
    else Partial
  }

  /**
   * A receipt is complete exactly when nothing was requested, or every id was erased without any error and the
   * residual proof is off or has passed; it is failed exactly when none was erased and not all errors are skips; all
   * others are partial. The branch for a deferred compaction never makes a difference.
   */
  lemma CompleteExactly(requested: nat, erased: nat, errors: seq<string>, mode: ProofMode, passed: Option<bool>,
                        deferred: bool)
    ensures DeriveStatus(requested, erased, errors, mode, passed, deferred) == Complete <==>
              requested == 0 || (erased == requested && errors == [] && (mode == Off || passed == Some(true)))
    ensures DeriveStatus(requested, erased, errors, mode, passed, deferred) == Failed <==>
              requested > 0 && erased == 0 && (errors == [] || exists e :: e in errors && !StartsWith(e, "skip "))
    ensures DeriveStatus(requested, erased, errors, mode, passed, deferred)
         == DeriveStatus(requested, erased, errors, mode, passed, !deferred)
  {
  }

  // ----- the batch loop -------------------------------------------------------------

  /** What the backend does with one label: it raises, reports failure, leaves the row nonzero, or wipes it. */
  datatype Reply = Raises(why: string) | Refuses(why: string) | NotZeroed | Wipes(bytes: nat)

  /** What one requested id contributes: a label, or an error. */
  datatype Turn = Gone(l: Label, bytes: nat) | Bad(error: string)

  const NOT_ZEROED := "post-condition failed: not fully zeroed"

  function SkipError(ext: string): (e: string) {
    "skip " + ext + ": unknown id"
  }

  function RaiseError(ext: string, why: string): (e: string) {
    ext + ": " + why
  }

  function RefuseError(ext: string, why: string): (e: string) {
    "erase failed for " + ext + ": " + why
  }

  function TurnOf(f: Forward, ext: string, reply: Reply): (t: Turn) {
    if ext !in f then Bad(SkipError(ext))
    else
      match reply
      case Raises(why) => Bad(RaiseError(ext, why))
      case Refuses(why) => Bad(RefuseError(ext, why))
      case NotZeroed => Bad(NOT_ZEROED)
      case Wipes(bytes) => Gone(f[ext], bytes)
  }

  function AfterTurn(f: Forward, ext: string, reply: Reply, drop: bool): (r: Forward) {
    if drop && TurnOf(f, ext, reply).Gone? then f - {ext} else f
  }

  /** The mappings left after the first k ids. */
  function Left(f: Forward, exts: seq<string>, replies: seq<Reply>, drop: bool, k: nat): (r: Forward)
    requires k <= |exts| <= |replies|
  {
    if k == 0 then f else AfterTurn(Left(f, exts, replies, drop, k - 1), exts[k - 1], replies[k - 1], drop)
  }

  function Turns(f: Forward, exts: seq<string>, replies: seq<Reply>, drop: bool, k: nat): (ts: seq<Turn>)
    requires k <= |exts| <= |replies|
    ensures |ts| == k
  {
    if k == 0 then []
    else
      Turns(f, exts, replies, drop, k - 1)
        + [TurnOf(Left(f, exts, replies, drop, k - 1), exts[k - 1], replies[k - 1])]
  }

  function LabelsOf(ts: seq<Turn>): (ls: seq<Label>) {
    if ts == [] then []
    else
      var k := |ts| - 1;
      if ts[k].Gone? then LabelsOf(ts[..k]) + [ts[k].l] else LabelsOf(ts[..k])
  }

  function ErrorsOf(ts: seq<Turn>): (es: seq<string>) {
    if ts == [] then []
    else
      var k := |ts| - 1;
      if ts[k].Bad? then ErrorsOf(ts[..k]) + [ts[k].error] else ErrorsOf(ts[..k])
  }

  /** Every requested id contributes exactly one label or one error. */
  lemma {:induction false} OneEach(ts: seq<Turn>)
    ensures |LabelsOf(ts)| + |ErrorsOf(ts)| == |ts|
    ensures ErrorsOf(ts) == [] <==> forall i :: 0 <= i < |ts| ==> ts[i].Gone?
  {
    if ts != [] {
      OneEach(ts[..|ts| - 1]);
    }
  }

  lemma {:induction false} LabelsAre(ts: seq<Turn>)
    requires forall i :: 0 <= i < |ts| ==> ts[i].Gone?
    ensures |LabelsOf(ts)| == |ts| && forall i :: 0 <= i < |ts| ==> LabelsOf(ts)[i] == ts[i].l
  {
    if ts != [] {
      LabelsAre(ts[..|ts| - 1]);
    }
  }

  lemma {:induction false} TurnAt(f: Forward, exts: seq<string>, replies: seq<Reply>, drop: bool, k: nat, i: nat)
    requires i < k <= |exts| <= |replies|
    ensures Turns(f, exts, replies, drop, k)[i] == TurnOf(Left(f, exts, replies, drop, i), exts[i], replies[i])
  {
    if i < k - 1 {
      TurnAt(f, exts, replies, drop, k - 1, i);
    }
  }

  /** No mapping is ever changed or added. */
  lemma {:induction false} LeftWithin(f: Forward, exts: seq<string>, replies: seq<Reply>, drop: bool, k: nat, e: string)
    requires k <= |exts| <= |replies|
    ensures var g := Left(f, exts, replies, drop, k); e in g ==> e in f && g[e] == f[e]
  {
    if k > 0 {
      LeftWithin(f, exts, replies, drop, k - 1, e);
    }
  }

  /** An id erased with its mapping stays unmapped. */
  lemma {:induction false} GoneUnmapped(f: Forward, exts: seq<string>, replies: seq<Reply>, i: nat, k: nat)
    requires i < k <= |exts| <= |replies|
    requires exts[i] in Left(f, exts, replies, true, i) ==> replies[i].Wipes?
    ensures exts[i] !in Left(f, exts, replies, true, k)
  {
    if i < k - 1 {
      GoneUnmapped(f, exts, replies, i, k - 1);
    }
  }

  /** An id that has not come up keeps its mapping. */
  lemma {:induction false} KeptMapped(f: Forward, exts: seq<string>, replies: seq<Reply>, drop: bool, k: nat, e: string)
    requires k <= |exts| <= |replies| && e in f && (drop ==> forall i :: 0 <= i < k ==> exts[i] != e)
    ensures e in Left(f, exts, replies, drop, k)
  {
    if k > 0 {
      KeptMapped(f, exts, replies, drop, k - 1, e);
    }
  }

  /** Nothing stands in the way of erasing every id: all mapped, all wiped, and none listed twice if mappings go. */
  ghost predicate AllErasable(f: Forward, exts: seq<string>, replies: seq<Reply>, drop: bool)
    requires |exts| <= |replies|
  {
    && (forall i :: 0 <= i < |exts| ==> exts[i] in f && replies[i].Wipes?)
    && (drop ==> NoDup(exts))
  }

  /** The batch is free of errors exactly when nothing stands in the way. */
  lemma CleanExactly(f: Forward, exts: seq<string>, replies: seq<Reply>, drop: bool)
    requires |exts| <= |replies|
    ensures ErrorsOf(Turns(f, exts, replies, drop, |exts|)) == [] <==> AllErasable(f, exts, replies, drop)
  {
    OneEach(Turns(f, exts, replies, drop, |exts|));
    if ErrorsOf(Turns(f, exts, replies, drop, |exts|)) == [] {
      CleanErasable(f, exts, replies, drop);
    } else if AllErasable(f, exts, replies, drop) {
      forall i | 0 <= i < |exts| ensures Turns(f, exts, replies, drop, |exts|)[i].Gone? {
        TurnAt(f, exts, replies, drop, |exts|, i);
        KeptMapped(f, exts, replies, drop, i, exts[i]);
      }
    }
  }

  lemma CleanErasable(f: Forward, exts: seq<string>, replies: seq<Reply>, drop: bool)
    requires |exts| <= |replies|
    requires forall i :: 0 <= i < |exts| ==> Turns(f, exts, replies, drop, |exts|)[i].Gone?
    ensures AllErasable(f, exts, replies, drop)
    ensures forall i :: 0 <= i < |exts| ==> Turns(f, exts, replies, drop, |exts|)[i].l == f[exts[i]]
  {
    forall i | 0 <= i < |exts|
      ensures exts[i] in f && replies[i].Wipes? && exts[i] in Left(f, exts, replies, drop, i)
      ensures Turns(f, exts, replies, drop, |exts|)[i].l == f[exts[i]]
    {
      assert Turns(f, exts, replies, drop, |exts|)[i].Gone?;
      TurnAt(f, exts, replies, drop, |exts|, i);
      LeftWithin(f, exts, replies, drop, i, exts[i]);
    }
    if drop {
      forall i, j | 0 <= i < j < |exts| ensures exts[i] != exts[j] {
        GoneUnmapped(f, exts, replies, i, j);
      }
    }
  }

  // ----- after the loop -------------------------------------------------------------

  /** The environment of one call: the backend, the policy, and how compaction and proofs turn out. */
  datatype Env = Env(replies: seq<Reply>, compact: CompactMode, policy: Policy, due: bool, supports: bool,
                     compactRaises: bool, proof: ProofMode, proves: Label -> bool)

  function ShouldCompact(env: Env, labels: seq<Label>): (b: bool) {
    && labels != []
    && match env.compact
       case Never => false
       case Always => true
       case Auto => env.supports && (env.policy == PolicyAlways || (env.policy == Coalesce && env.due))
  }

  function Deferred(env: Env, labels: seq<Label>): (b: bool) {
    labels != [] && env.compact == Auto && env.supports && env.policy == Coalesce && !env.due
  }

  function CompactErrors(env: Env, labels: seq<Label>): (es: seq<string>) {
    if !ShouldCompact(env, labels) then []
    else if !env.supports then [NO_COMPACT + " has no compact() method"]
    else if env.compactRaises then ["compact failed"]
    else []
  }

  /** The labels looked at: all of them, or the first, the middle and the last. */
  function Sampled(mode: ProofMode, labels: seq<Label>): (ls: seq<Label>) {
    if mode == Sample && |labels| > 3 then [labels[0], labels[|labels| / 2], labels[|labels| - 1]] else labels
  }

  function ProofPassed(env: Env, labels: seq<Label>): (p: Option<bool>) {
    if env.proof == Off || labels == [] then None
    else
      var ls := Sampled(env.proof, labels);
      Some(forall i :: 0 <= i < |ls| ==> env.proves(ls[i]))
  }

  function ProofErrors(env: Env, labels: seq<Label>): (es: seq<string>) {
    if ProofPassed(env, labels) == Some(false) then ["residual_proof failed"] else []
  }

  datatype Receipt = Receipt(exts: seq<string>, labels: seq<Label>, errors: seq<string>, bytes: nat, status: Status) {
    predicate Success() {
      status == Complete
    }
  }

  function BytesOf(ts: seq<Turn>): (n: nat) {
    if ts == [] then 0
    else
      var k := |ts| - 1;
      BytesOf(ts[..k]) + if ts[k].Gone? then ts[k].bytes else 0
  }

  /** The receipt of a batch whose ids had these turns. */
  function ReceiptOf(exts: seq<string>, ts: seq<Turn>, env: Env): (r: Receipt) {
    var labels := LabelsOf(ts);
    var errors := ErrorsOf(ts) + CompactErrors(env, labels) + ProofErrors(env, labels);
    Receipt(exts, labels, errors, BytesOf(ts),
            DeriveStatus(|exts|, |labels|, errors, env.proof, ProofPassed(env, labels), Deferred(env, labels)))
  }

  /** A compaction is due after a batch that has erased something, and it cannot be done or raises. */
  ghost predicate CompactionFails(env: Env) {
    && (|| env.compact == Always
        || (env.compact == Auto && env.supports && (env.policy == PolicyAlways || (env.policy == Coalesce && env.due))))
    && (!env.supports || env.compactRaises)
  }

  /** The residual proof is off, or the labels it looks at are proved: all, or the first, the middle and the last. */
  ghost predicate Verified(f: Forward, exts: seq<string>, env: Env)
    requires exts != [] && forall i :: 0 <= i < |exts| ==> exts[i] in f
  {
    var n := |exts|;
    || env.proof == Off
    || if env.proof == Full || n <= 3 then forall i :: 0 <= i < n ==> env.proves(f[exts[i]])
       else env.proves(f[exts[0]]) && env.proves(f[exts[n / 2]]) && env.proves(f[exts[n - 1]])
  }

  /** What a caller can check: the call is bound to end complete. */
  ghost predicate WillComplete(f: Forward, exts: seq<string>, env: Env, drop: bool)
    requires |exts| <= |env.replies|
  {
    exts == [] || (AllErasable(f, exts, env.replies, drop) && !CompactionFails(env) && Verified(f, exts, env))
  }

  lemma CompactsExactly(env: Env, labels: seq<Label>)
    requires labels != []
    ensures CompactErrors(env, labels) == [] <==> !CompactionFails(env)
  {
  }

  lemma VerifiesExactly(f: Forward, exts: seq<string>, env: Env, labels: seq<Label>)
    requires exts != [] && |labels| == |exts|
    requires forall i :: 0 <= i < |exts| ==> exts[i] in f && labels[i] == f[exts[i]]
    ensures ProofErrors(env, labels) == [] <==> Verified(f, exts, env)
    ensures env.proof == Off || (ProofPassed(env, labels) == Some(true) <==> Verified(f, exts, env))
  {
    var n := |exts|;
    if env.proof == Full || n <= 3 {
      assert Sampled(env.proof, labels) == labels;
    } else if env.proof == Sample {
      var ls := Sampled(env.proof, labels);
      assert ls[0] == f[exts[0]] && ls[1] == f[exts[n / 2]] && ls[2] == f[exts[n - 1]];
    }
  }

  /** A batch whose ids can all be erased. */
  lemma ErasedAll(f: Forward, exts: seq<string>, env: Env, drop: bool)
    requires |exts| <= |env.replies| && ErrorsOf(Turns(f, exts, env.replies, drop, |exts|)) == []
    ensures var labels := LabelsOf(Turns(f, exts, env.replies, drop, |exts|));
            && AllErasable(f, exts, env.replies, drop) && |labels| == |exts|
            && (forall i :: 0 <= i < |exts| ==> labels[i] == f[exts[i]])
            && (drop ==> forall i :: 0 <= i < |exts| ==> exts[i] !in Left(f, exts, env.replies, drop, |exts|))
  {
    var ts := Turns(f, exts, env.replies, drop, |exts|);
    OneEach(ts);
    LabelsAre(ts);
    CleanErasable(f, exts, env.replies, drop);
    if drop {
      forall i | 0 <= i < |exts| ensures exts[i] !in Left(f, exts, env.replies, drop, |exts|) {
        GoneUnmapped(f, exts, env.replies, i, |exts|);
      }
    }
  }

  /**
   * Soundness and completeness of the receipt. It is complete exactly when every requested id can be erased, no
   * compaction error arises and the residual proof is off or finds what it looks at to be zero. Then the label of
   * every id is listed, and with mappings dropped none of the ids is mapped any more.
   */
  lemma ReceiptSound(f: Forward, exts: seq<string>, env: Env, drop: bool)
    requires |exts| <= |env.replies|
    ensures var r := ReceiptOf(exts, Turns(f, exts, env.replies, drop, |exts|), env);
            && (r.Success() <==> WillComplete(f, exts, env, drop))
            && (r.Success() ==>
                  && |r.labels| == |exts| && r.errors == []
                  && (forall i :: 0 <= i < |exts| ==> exts[i] in f && r.labels[i] == f[exts[i]] && env.replies[i].Wipes?)
                  && (drop ==> forall i :: 0 <= i < |exts| ==> exts[i] !in Left(f, exts, env.replies, drop, |exts|)))
  {
    var ts := Turns(f, exts, env.replies, drop, |exts|);
    var r := ReceiptOf(exts, ts, env);
    OneEach(ts);
    CleanExactly(f, exts, env.replies, drop);
    CompleteExactly(|exts|, |r.labels|, r.errors, env.proof, ProofPassed(env, r.labels), Deferred(env, r.labels));
    if ErrorsOf(ts) == [] {
      ErasedAll(f, exts, env, drop);
      if exts != [] {
        CompactsExactly(env, r.labels);
        VerifiesExactly(f, exts, env, r.labels);
      }
    }
  }

  // ----- exactly which ids a batch erases -------------------------------------------

  /** Id i is mapped, and no earlier entry has taken its mapping. */
  ghost predicate MappedAt(f: Forward, exts: seq<string>, replies: seq<Reply>, drop: bool, i: nat)
    requires |exts| <= |replies|
  {
    && i < |exts| && exts[i] in f
    && (drop ==> forall j :: 0 <= j < i && exts[j] == exts[i] ==> !replies[j].Wipes?)
  }

  /** A mapping goes exactly when mappings are dropped and some entry with that id has been wiped. */
  lemma {:induction false} LeftExactly(f: Forward, exts: seq<string>, replies: seq<Reply>, drop: bool, k: nat, e: string)
    requires k <= |exts| <= |replies|
    ensures e in Left(f, exts, replies, drop, k) <==>
              e in f && !(drop && exists i :: 0 <= i < k && exts[i] == e && replies[i].Wipes?)
    ensures e in Left(f, exts, replies, drop, k) ==> Left(f, exts, replies, drop, k)[e] == f[e]
  {
    if k > 0 {
      LeftExactly(f, exts, replies, drop, k - 1, e);
    }
  }

  /** An entry that is mapped and wiped gives its label and its bytes, any other the error of its own kind. */
  lemma TurnExactly(f: Forward, exts: seq<string>, replies: seq<Reply>, drop: bool, i: nat)
    requires i < |exts| <= |replies|
    ensures Turns(f, exts, replies, drop, |exts|)[i] ==
              if !MappedAt(f, exts, replies, drop, i) then Bad("skip " + exts[i] + ": unknown id")
              else
                match replies[i]
                case Wipes(bytes) => Gone(f[exts[i]], bytes)
                case Refuses(why) => Bad("erase failed for " + exts[i] + ": " + why)
                case Raises(why) => Bad(exts[i] + ": " + why)
                case NotZeroed => Bad("post-condition failed: not fully zeroed")
  {
    TurnAt(f, exts, replies, drop, |exts|, i);
    LeftExactly(f, exts, replies, drop, i, exts[i]);
  }

  /** Labels, errors and bytes are gathered turn by turn, in order. */
  lemma {:induction false} TurnsAdd(a: seq<Turn>, b: seq<Turn>)
    ensures LabelsOf(a + b) == LabelsOf(a) + LabelsOf(b)
    ensures ErrorsOf(a + b) == ErrorsOf(a) + ErrorsOf(b)
    ensures BytesOf(a + b) == BytesOf(a) + BytesOf(b)
  {
    if b == [] {
      assert a + b == a;
    } else {
      var k := |b| - 1;
      assert (a + b)[..|a + b| - 1] == a + b[..k];
      TurnsAdd(a, b[..k]);
    }
  }

  lemma OneTurn(t: Turn)
    ensures LabelsOf([t]) == if t.Gone? then [t.l] else []
    ensures ErrorsOf([t]) == if t.Bad? then [t.error] else []
    ensures BytesOf([t]) == if t.Gone? then t.bytes else 0
  {
    assert [t][..0] == [];
    assert LabelsOf([]) == [] && ErrorsOf([]) == [] && BytesOf([]) == 0;
  }

  lemma {:induction false} ErrorsAre(ts: seq<Turn>, e: string)
    ensures e in ErrorsOf(ts) <==> Bad(e) in ts
  {
    if ts != [] {
      var k := |ts| - 1;
      assert ts == ts[..k] + [ts[k]];
      ErrorsAre(ts[..k], e);
    }
  }

  lemma {:induction false} NoLabels(ts: seq<Turn>)
    ensures LabelsOf(ts) == [] <==> forall i :: 0 <= i < |ts| ==> ts[i].Bad?
  {
    if ts != [] {
      NoLabels(ts[..|ts| - 1]);
    }
  }

  /** The only text that looks like a skip is that of an unknown id, or of an exception on an id named like one. */
  lemma SkipTexts(ext: string, why: string)
    ensures StartsWith(SkipError(ext), "skip ") && !StartsWith(RefuseError(ext, why), "skip ")
    ensures !StartsWith(NOT_ZEROED, "skip ")
    ensures StartsWith(RaiseError(ext, why), "skip ") <==> StartsWith(ext, "skip ")
  {
    assert SkipError(ext)[..5] == "skip ";
    assert RefuseError(ext, why)[0] == 'e' && NOT_ZEROED[0] == 'p' && "skip "[0] == 's';
    var e := RaiseError(ext, why);
    if |ext| >= 5 {
      assert e[..5] == ext[..5];
    } else {
      assert e[|ext|] == ':' && "skip "[|ext|] != ':';
      if |e| >= 5 {
        assert e[..5][|ext|] == ':';
      }
    }
  }

  /** Some id is mapped but not wiped, and its error does not look like a skip. */
  ghost predicate HardError(f: Forward, exts: seq<string>, replies: seq<Reply>)
    requires |exts| <= |replies|
  {
    exists i :: 0 <= i < |exts| && exts[i] in f && !(replies[i].Raises? && StartsWith(exts[i], "skip "))
  }

  /** A receipt is failed exactly when no id was erased and some error is more than a skip; the rest are partial. */
  lemma ReceiptFailedExactly(f: Forward, exts: seq<string>, env: Env, drop: bool)
    requires |exts| <= |env.replies|
    ensures ReceiptOf(exts, Turns(f, exts, env.replies, drop, |exts|), env).status == Failed <==>
              && (forall i :: 0 <= i < |exts| ==> exts[i] !in f || !env.replies[i].Wipes?)
              && HardError(f, exts, env.replies)
  {
    var ts := Turns(f, exts, env.replies, drop, |exts|);
    var r := ReceiptOf(exts, ts, env);
    CompleteExactly(|exts|, |r.labels|, r.errors, env.proof, ProofPassed(env, r.labels), Deferred(env, r.labels));
    NoLabels(ts);
    NothingErased(f, exts, env.replies, drop, ts);
    if r.labels == [] {
      assert r.errors == ErrorsOf(ts);
      HardErrorShows(f, exts, env.replies, drop);
    }
  }

  lemma NothingErased(f: Forward, exts: seq<string>, replies: seq<Reply>, drop: bool, ts: seq<Turn>)
    requires |exts| <= |replies| && ts == Turns(f, exts, replies, drop, |exts|)
    ensures (forall i :: 0 <= i < |ts| ==> ts[i].Bad?) <==>
              forall i :: 0 <= i < |exts| ==> exts[i] !in f || !replies[i].Wipes?
  {
    forall i | 0 <= i < |exts|
      ensures ts[i].Bad? <==> !(MappedAt(f, exts, replies, drop, i) && replies[i].Wipes?)
    {
      TurnExactly(f, exts, replies, drop, i);
    }
    if forall i :: 0 <= i < |ts| ==> ts[i].Bad? {
      forall i | 0 <= i < |exts| && exts[i] in f ensures !replies[i].Wipes? {
        if replies[i].Wipes? {
          var j := FirstWipe(exts, replies, i);
        }
      }
    }
  }

  lemma {:induction false} FirstWipe(exts: seq<string>, replies: seq<Reply>, i: nat) returns (j: nat)
    requires i < |exts| <= |replies| && replies[i].Wipes?
    ensures j <= i && exts[j] == exts[i] && replies[j].Wipes?
    ensures forall x :: 0 <= x < j && exts[x] == exts[j] ==> !replies[x].Wipes?
  {
    if x :| 0 <= x < i && exts[x] == exts[i] && replies[x].Wipes? {
      j := FirstWipe(exts, replies, x);
    } else {
      j := i;
    }
  }

  lemma {:induction false} NothingDropped(f: Forward, exts: seq<string>, replies: seq<Reply>, drop: bool, k: nat)
    requires k <= |exts| <= |replies| && forall i :: 0 <= i < |exts| ==> exts[i] !in f || !replies[i].Wipes?
    ensures Left(f, exts, replies, drop, k) == f
  {
    if k > 0 {
      NothingDropped(f, exts, replies, drop, k - 1);
    }
  }

  lemma HardErrorShows(f: Forward, exts: seq<string>, replies: seq<Reply>, drop: bool)
    requires |exts| <= |replies| && forall i :: 0 <= i < |exts| ==> exts[i] !in f || !replies[i].Wipes?
    ensures HardError(f, exts, replies) <==>
              exists e :: e in ErrorsOf(Turns(f, exts, replies, drop, |exts|)) && !StartsWith(e, "skip ")
  {
    var ts := Turns(f, exts, replies, drop, |exts|);
    forall i | 0 <= i < |exts|
      ensures ts[i].Bad? && ts[i].error in ErrorsOf(ts)
      ensures StartsWith(ts[i].error, "skip ") <==>
                exts[i] !in f || (replies[i].Raises? && StartsWith(exts[i], "skip "))
    {
      TurnAt(f, exts, replies, drop, |exts|, i);
      NothingDropped(f, exts, replies, drop, i);
      ErrorsAre(ts, ts[i].error);
      SkipTexts(exts[i], if replies[i].Raises? || replies[i].Refuses? then replies[i].why else "");
    }
    if e :| e in ErrorsOf(ts) && !StartsWith(e, "skip ") {
      ErrorsAre(ts, e);
      var i :| 0 <= i < |ts| && ts[i] == Bad(e);
    }
  }

  /**
   * A batch that erased an id and dropped its mapping cannot be completed by repeating it, whatever the backend
   * does the second time: the id is unknown then.
   */
  lemma RepeatNeverCompletes(f: Forward, exts: seq<string>, env: Env, env': Env)
    requires |exts| <= |env.replies| && |exts| <= |env'.replies|
    requires LabelsOf(Turns(f, exts, env.replies, true, |exts|)) != []
    ensures var f' := Left(f, exts, env.replies, true, |exts|);
            !ReceiptOf(exts, Turns(f', exts, env'.replies, true, |exts|), env').Success()
  {
    var n := |exts|;
    var ts := Turns(f, exts, env.replies, true, n);
    SomeGone(ts);
    var i :| 0 <= i < n && ts[i].Gone?;
    TurnAt(f, exts, env.replies, true, n, i);
    GoneUnmapped(f, exts, env.replies, i, n);
    ReceiptSound(Left(f, exts, env.replies, true, n), exts, env', true);
  }

  lemma {:induction false} SomeGone(ts: seq<Turn>)
    requires LabelsOf(ts) != []
    ensures exists i :: 0 <= i < |ts| && ts[i].Gone?
  {
    var k := |ts| - 1;
    if !ts[k].Gone? {
      SomeGone(ts[..k]);
      var i :| 0 <= i < k && ts[..k][i].Gone?;
      assert ts[i].Gone?;
    }
  }

  // ----- the service ----------------------------------------------------------------

  /** The ids of the request that are not blank, trimmed. */
  function Requested(ids: seq<string>): (exts: seq<string>)
    ensures forall i :: 0 <= i < |exts| ==> exts[i] != "" && Trimmed(exts[i])
    ensures |exts| <= |ids|
  {
    if ids == [] then []
    else
      var k := |ids| - 1;
      if Strip(ids[k]) == "" then Requested(ids[..k]) else Requested(ids[..k]) + [Strip(ids[k])]
  }

  /** The positions below k whose id is not blank. */
  ghost function Named(ids: seq<string>, k: nat): (s: set<int>)
    requires k <= |ids|
  {
    set i | 0 <= i < k && Strip(ids[i]) != ""
  }

  lemma OneMoreNamed(ids: seq<string>, k: nat)
    requires k < |ids|
    ensures |Named(ids, k + 1)| == |Named(ids, k)| + if Strip(ids[k]) != "" then 1 else 0
  {
    assert Named(ids, k + 1) == Named(ids, k) + if Strip(ids[k]) != "" then {k} else {};
  }

  lemma NamedPrefix(ids: seq<string>, k: nat, j: nat)
    requires j <= k <= |ids|
    ensures Named(ids[..k], j) == Named(ids, j)
  {
  }

  /** The request has one entry for each id that is not blank, trimmed, in order. */
  lemma {:induction false} RequestedExactly(ids: seq<string>, i: nat)
    ensures |Requested(ids)| == |Named(ids, |ids|)|
    ensures i < |ids| && Strip(ids[i]) != "" ==>
              |Named(ids, i)| < |Requested(ids)| && Requested(ids)[|Named(ids, i)|] == Strip(ids[i])
  {
    if ids != [] {
      var k := |ids| - 1;
      RequestedExactly(ids[..k], i);
      NamedPrefix(ids, k, k);
      if i < k {
        NamedPrefix(ids, k, i);
      }
      OneMoreNamed(ids, k);
    } else {
      assert Named(ids, 0) == {};
    }
  }

  /** The lists and the byte count the loop has gathered from these turns. */
  ghost predicate Gathered(ts: seq<Turn>, labels: seq<Label>, errors: seq<string>, bytes: nat) {
    labels == LabelsOf(ts) && errors == ErrorsOf(ts) && bytes == BytesOf(ts)
  }

  lemma NextTurn(ts: seq<Turn>, t: Turn, labels: seq<Label>, errors: seq<string>, bytes: nat)
    requires Gathered(ts, labels, errors, bytes)
    ensures t.Gone? ==> Gathered(ts + [t], labels + [t.l], errors, bytes + t.bytes)
    ensures t.Bad? ==> Gathered(ts + [t], labels, errors + [t.error], bytes)
  {
    assert (ts + [t])[..|ts|] == ts;
  }

  /** One call of `delete`: the collection, its mappings, the ids and the replies of the backend. */
  datatype Batch = Batch(coll: string, f: Forward, exts: seq<string>, replies: seq<Reply>, drop: bool, idempotent: bool)

  ghost predicate Answered(b: Batch) {
    |b.exts| <= |b.replies|
  }

  ghost function LeftBy(b: Batch, k: nat): (r: Forward) {
    if Answered(b) && k <= |b.exts| then Left(b.f, b.exts, b.replies, b.drop, k) else b.f
  }

  /** Id k does not stop the loop. */
  ghost predicate Resolves(b: Batch, k: int) {
    0 <= k < |b.exts| && b.coll != "" && (b.idempotent || b.exts[k] in LeftBy(b, k))
  }

  ghost predicate AllResolve(b: Batch) {
    forall k :: 0 <= k < |b.exts| ==> Resolves(b, k)
  }

  /** The id at which the loop raises, if any: the first that cannot be resolved and may not be skipped. */
  ghost predicate RaisesAt(b: Batch, k: nat) {
    k < |b.exts| && !Resolves(b, k) && forall j :: 0 <= j < k ==> Resolves(b, j)
  }

  /** The first k ids have been dealt with. */
  ghost predicate DealtWith(b: Batch, k: nat, ids: Forward, ts: seq<Turn>) {
    && Answered(b) && k <= |b.exts| && ids == LeftBy(b, k)
    && ts == Turns(b.f, b.exts, b.replies, b.drop, k)
    && forall j :: 0 <= j < k ==> Resolves(b, j)
  }

  lemma NextDealtWith(b: Batch, k: nat, ids: Forward, ts: seq<Turn>, ok: bool, ids': Forward, t: Turn)
    requires DealtWith(b, k, ids, ts) && k < |b.exts|
    requires ok <==> b.coll != "" && (b.idempotent || b.exts[k] in ids)
    requires ok ==> ids' == AfterTurn(ids, b.exts[k], b.replies[k], b.drop) && t == TurnOf(ids, b.exts[k], b.replies[k])
    ensures if ok then DealtWith(b, k + 1, ids', ts + [t]) else RaisesAt(b, k)
  {
  }

  lemma AllDealtWith(b: Batch, ids: Forward, ts: seq<Turn>)
    requires DealtWith(b, |b.exts|, ids, ts)
    ensures AllResolve(b) && ids == Left(b.f, b.exts, b.replies, b.drop, |b.exts|)
    ensures ts == Turns(b.f, b.exts, b.replies, b.drop, |b.exts|)
  {
  }

  datatype Outcome = Delivered(receipt: Receipt) | Raised

  class Service {
    const registry: CollectionIdRegistry
    const dropMappings: bool

    constructor (registry: CollectionIdRegistry, dropMappings: bool)
      ensures this.registry == registry && this.dropMappings == dropMappings
    {
      this.registry, this.dropMappings := registry, dropMappings;
    }

    /** One id. An unknown one raises unless the caller asked to skip those, a blank collection always does. */
    method EraseOne(coll: string, ext: string, reply: Reply, idempotent: bool) returns (ok: bool, t: Turn)
      requires registry.Valid() && ext != "" && Trimmed(ext)
      modifies registry
      ensures registry.Valid()
      ensures var f := old(registry.Ids(Strip(coll)));
              && (ok <==> Strip(coll) != "" && (idempotent || ext in f))
              && registry.Ids(Strip(coll)) == (if ok then AfterTurn(f, ext, reply, dropMappings) else f)
              && (ok ==> t == TurnOf(f, ext, reply))
    {
      ok, t := true, Bad(SkipError(ext));
      var l := registry.Resolve(coll, ext);
      if l.Err? {
        ok := l.error != EmptyName && idempotent;
        return;
      }
      match reply
      case Raises(why) => t := Bad(RaiseError(ext, why));
      case Refuses(why) => t := Bad(RefuseError(ext, why));
      case NotZeroed => t := Bad(NOT_ZEROED);
      case Wipes(n) =>
        t := Gone(l.value, n);
        if dropMappings {
          var _ := registry.Drop(coll, ext);
        }
    }

    /** The loop over the ids. */
    method EraseAll(coll: string, exts: seq<string>, env: Env, idempotent: bool)
      returns (ok: bool, labels: seq<Label>, errors: seq<string>, bytes: nat)
      requires registry.Valid() && |exts| <= |env.replies|
      requires forall i :: 0 <= i < |exts| ==> exts[i] != "" && Trimmed(exts[i])
      modifies registry
      ensures registry.Valid()
      ensures var b := Batch(Strip(coll), old(registry.Ids(Strip(coll))), exts, env.replies, dropMappings, idempotent);
              && (ok <==> AllResolve(b))
              && (!ok ==> exists k :: RaisesAt(b, k) && registry.Ids(Strip(coll)) == LeftBy(b, k))
      ensures ok ==> var f, n := old(registry.Ids(Strip(coll))), |exts|;
                && registry.Ids(Strip(coll)) == Left(f, exts, env.replies, dropMappings, n)
                && var ts := Turns(f, exts, env.replies, dropMappings, n);
                   labels == LabelsOf(ts) && errors == ErrorsOf(ts) && bytes == BytesOf(ts)
    {
      var c := Strip(coll);
      ghost var b := Batch(c, registry.Ids(c), exts, env.replies, dropMappings, idempotent);
      ghost var ts := [];
      ok, labels, errors, bytes := true, [], [], 0;
      var i := 0;
      while i < |exts|
        invariant 0 <= i <= |exts| && registry.Valid() && ok
        invariant DealtWith(b, i, registry.Ids(c), ts) && Gathered(ts, labels, errors, bytes)
      {
        ghost var ids := registry.Ids(c);
        var t;
        ok, t := EraseOne(coll, exts[i], env.replies[i], idempotent);
        NextDealtWith(b, i, ids, ts, ok, registry.Ids(c), t);
        if !ok {
          return;
        }
        NextTurn(ts, t, labels, errors, bytes);
        if t.Gone? {
          labels, bytes := labels + [t.l], bytes + t.bytes;
        } else {
          errors := errors + [t.error];
        }
        ts := ts + [t];
        i := i + 1;
      }
      AllDealtWith(b, registry.Ids(c), ts);
    }

    /** `delete`. When it raises, the ids before the one that could not be resolved have been dealt with. */
    method Delete(coll: string, ids: seq<string>, env: Env, idempotent: bool) returns (r: Outcome)
      requires registry.Valid() && |ids| <= |env.replies|
      modifies registry
      ensures registry.Valid()
      ensures var exts, f := Requested(ids), old(registry.Ids(Strip(coll)));
              var b := Batch(Strip(coll), f, exts, env.replies, dropMappings, idempotent);
              && (r.Delivered? <==> AllResolve(b))
              && (r.Raised? ==> exists k :: RaisesAt(b, k) && registry.Ids(Strip(coll)) == LeftBy(b, k))
              && (r.Delivered? ==> (r.receipt.Success() <==> WillComplete(f, exts, env, dropMappings)))
      ensures var exts := Requested(ids);
              r.Delivered? ==>
                && registry.Ids(Strip(coll)) == Left(old(registry.Ids(Strip(coll))), exts, env.replies, dropMappings, |exts|)
                && r.receipt == ReceiptOf(exts, Turns(old(registry.Ids(Strip(coll))), exts, env.replies, dropMappings, |exts|), env)
    {
      var exts := Requested(ids);
      var ok, labels, errors, bytes := EraseAll(coll, exts, env, idempotent);
      if !ok {
        return Raised;
      }
      var all := errors + CompactErrors(env, labels) + ProofErrors(env, labels);
      var status := DeriveStatus(|exts|, |labels|, all, env.proof, ProofPassed(env, labels), Deferred(env, labels));
      r := Delivered(Receipt(exts, labels, all, bytes, status));
      ReceiptSound(old(registry.Ids(Strip(coll))), exts, env, dropMappings);
    }
  }
}
