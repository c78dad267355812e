/** The striped reader/writer locks: the pool, the exclusive guard and the hand-over-hand cursor. */
module Locks {

  function StripeIn(node: int, pool: nat): (s: nat)
    requires pool > 0
    ensures s < pool
  {
    (if node < 0 then -node else node) % pool
  }

  /** The labels of one stripe are as far apart as there are stripes, the sign apart. */
  lemma StripesSpread(s: nat, k: nat, pool: nat)
    requires s < pool
    ensures StripeIn(k * pool + s, pool) == s && StripeIn(-(k * pool + s), pool) == s
  {
    Remainder(k, s, pool);
  }

  lemma Remainder(k: nat, r: nat, n: nat)
    requires r < n
    ensures k * n + r >= 0 && (k * n + r) % n == r
  {
    var x := k * n + r;
    var q := x / n;
    assert x == q * n + x % n;
    assert (q - k) * n == r - x % n;
    Gap(q - k, n);
  }

  lemma Gap(k: int, n: int)
    requires n > 0
    ensures k >= 1 ==> k * n >= n
    ensures k <= -1 ==> k * n <= -n
  {
    if k >= 1 {
      assert (k - 1) * n >= 0;
    } else if k <= -1 {
      assert (-1 - k) * n >= 0;
    }
  }

  ghost predicate Ascending(ss: seq<nat>) {
    forall i, j :: 0 <= i < j < |ss| ==> ss[i] < ss[j]
  }

  /** Inserts a stripe into an ascending list unless it is there already. */
  function InsertStripe(s: nat, ss: seq<nat>): (r: seq<nat>)
    requires Ascending(ss)
    ensures Ascending(r)
    ensures forall x :: x in r <==> x == s || x in ss
  {
    if ss == [] || s < ss[0] then [s] + ss
    else if s == ss[0] then ss
    else
      assert forall x :: x in ss <==> x == ss[0] || x in ss[1..];
      var rest := InsertStripe(s, ss[1..]);
      assert forall i :: 0 <= i < |rest| ==> rest[i] in rest;
      [ss[0]] + rest
  }

  /** `unique_stripes`: the stripes of the nodes, sorted, each once. */
  function UniqueStripes(nodes: seq<int>, pool: nat): (r: seq<nat>)
    requires pool > 0
    ensures Ascending(r)
    ensures forall x :: x in r <==> exists i :: 0 <= i < |nodes| && x == StripeIn(nodes[i], pool)
  {
    if nodes == [] then []
    else
      var k := |nodes| - 1;
      InsertStripe(StripeIn(nodes[k], pool), UniqueStripes(nodes[..k], pool))
  }

  /** The flags with those of the listed stripes set to b. */
  function Mark(flags: seq<bool>, ss: seq<nat>, b: bool): (r: seq<bool>)
    ensures |r| == |flags|
    ensures forall x :: 0 <= x < |flags| ==> r[x] == if x in ss then b else flags[x]
  {
    seq(|flags|, x requires 0 <= x < |flags| => if x in ss then b else flags[x])
  }

  lemma OneMore(stripes: seq<nat>, i: nat)
    requires i < |stripes| && Ascending(stripes)
    ensures stripes[..i + 1] == stripes[..i] + [stripes[i]] && stripes[i] !in stripes[..i]
  {
  }

  /** Setting free stripes and clearing them again changes nothing. */
  lemma MarkBack(flags: seq<bool>, ss: seq<nat>)
    requires forall i :: 0 <= i < |ss| ==> ss[i] < |flags| && !flags[ss[i]]
    ensures Mark(Mark(flags, ss, true), ss, false) == flags
  {
  }

  class LockManager {
    /** Is the stripe held exclusively? */
    var writers: seq<bool>
    /** How many shared holds are there on the stripe? */
    var readers: seq<nat>
    /** Which of the attempts to take a stripe are not given up while the stripe is free. */
    const grants: nat -> bool
    var attempts: nat
    /** Acquisitions that have timed out so far. */
    ghost var timeouts: nat

    ghost predicate Valid()
      reads this
    {
      |writers| == |readers| > 0
    }

    /** No attempt from now on is given up while its stripe is free. */
    ghost predicate Patient()
      reads this
    {
      forall i :: i >= attempts ==> grants(i)
    }

    /** Moreover nobody holds a stripe exclusively, so shared holds are there for the asking. */
    ghost predicate Unhindered()
      reads this
    {
      Patient() && forall s :: 0 <= s < |writers| ==> !writers[s]
    }

    /** Nobody holds one of these stripes in any way. */
    ghost predicate AllFree(ss: seq<nat>)
      reads this
      requires Valid()
    {
      forall i :: 0 <= i < |ss| && ss[i] < |writers| ==> !writers[ss[i]] && readers[ss[i]] == 0
    }

    constructor (poolSize: nat, grants: nat -> bool)
      ensures Valid() && |writers| == (if poolSize > 0 then poolSize else 1) && this.grants == grants
      ensures forall s :: 0 <= s < |writers| ==> !writers[s] && readers[s] == 0
    {
      var n := if poolSize > 0 then poolSize else 1;
      writers := seq(n, i => false);
      readers := seq(n, i => 0);
      attempts, timeouts, this.grants := 0, 0, grants;
    }

    function StripeOf(node: int): (s: nat)
      requires Valid()
      reads this
      ensures s < |writers|
    {
      StripeIn(node, |writers|)
    }

    /** `try_lock_for`: succeeds exactly on a free stripe, unless the attempt is given up. */
    method TryLock(s: nat) returns (ok: bool)
      requires Valid() && s < |writers|
      modifies this
      ensures Valid() && readers == old(readers) && attempts == old(attempts) + 1
      ensures ok <==> grants(old(attempts)) && !old(writers)[s] && old(readers)[s] == 0
      ensures ok ==> writers == old(writers)[s := true]
      ensures !ok ==> writers == old(writers)
      ensures timeouts == old(timeouts) + if ok then 0 else 1
    {
      ok := grants(attempts) && !writers[s] && readers[s] == 0;
      attempts := attempts + 1;
      if ok {
        writers := writers[s := true];
      } else {
        timeouts := timeouts + 1;
      }
    }

    method Unlock(s: nat)
      requires Valid() && s < |writers|
      modifies this`writers
      ensures Valid() && writers == old(writers)[s := false]
    {
      writers := writers[s := false];
    }

    /** `try_lock_shared_for`. */
    method TryLockShared(s: nat) returns (ok: bool)
      requires Valid() && s < |writers|
      modifies this
      ensures Valid() && writers == old(writers) && attempts == old(attempts) + 1
      ensures ok <==> grants(old(attempts)) && !writers[s]
      ensures ok ==> readers == old(readers)[s := old(readers)[s] + 1]
      ensures !ok ==> readers == old(readers)
      ensures timeouts == old(timeouts) + if ok then 0 else 1
    {
      ok := grants(attempts) && !writers[s];
      attempts := attempts + 1;
      if ok {
        readers := readers[s := readers[s] + 1];
      } else {
        timeouts := timeouts + 1;
      }
    }

    method UnlockShared(s: nat)
      requires Valid() && s < |writers| && readers[s] > 0
      modifies this`readers
      ensures Valid() && readers == old(readers)[s := old(readers)[s] - 1]
    {
      readers := readers[s := readers[s] - 1];
    }
  }

  class ExclusiveGuard {
    var mgr: LockManager?
    var stripes: seq<nat>
    var locked: seq<nat>

    /** A live guard holds each of its locked stripes; `locked` is an ascending prefix of `stripes`. */
    ghost predicate Valid()
      reads this, mgr
    {
      && (mgr == null ==> locked == [])
      && (mgr != null ==>
            && mgr.Valid()
            && Ascending(stripes) && locked <= stripes
            && (forall i :: 0 <= i < |stripes| ==> stripes[i] < |mgr.writers|)
            && (forall i :: 0 <= i < |locked| ==> mgr.writers[locked[i]]))
    }

    constructor ()
      ensures Valid() && mgr == null && locked == []
    {
      mgr, stripes, locked := null, [], [];
    }

    /**
     * The acquiring constructor: takes the stripes in ascending order, and on a timeout gives all of them
     * back before reporting it.
     */
    method Acquire(m: LockManager, nodes: seq<int>) returns (ok: bool)
      requires Valid() && mgr == null && m.Valid()
      modifies this, m
      ensures Valid() && m.Valid() && m.readers == old(m.readers)
      ensures ok ==> && mgr == m && locked == stripes == UniqueStripes(nodes, |m.writers|)
                     && m.writers == Mark(old(m.writers), stripes, true)
                     && (forall i :: 0 <= i < |stripes| ==> !old(m.writers)[stripes[i]] && m.readers[stripes[i]] == 0)
      ensures !ok ==> mgr == null && locked == [] && m.writers == old(m.writers)
      ensures old(m.Patient() && m.AllFree(UniqueStripes(nodes, |m.writers|))) ==> ok
      ensures m.attempts >= old(m.attempts)
      ensures m.timeouts == old(m.timeouts) + if ok then 0 else 1
    {
      ghost var writers0 := m.writers;
      mgr, stripes, locked := m, UniqueStripes(nodes, |m.writers|), [];
      forall j | 0 <= j < |stripes| ensures stripes[j] < |m.writers| {
        var s := stripes[j];
        assert s in stripes;
      }
      ok := TakeAll(m);
      if !ok {
        ghost var taken := locked;
        Release();
        MarkBack(writers0, taken);
      }
    }

    /** Takes the stripes in order, up to the first that times out. */
    method TakeAll(m: LockManager) returns (ok: bool)
      requires Valid() && mgr == m && locked == [] && forall j :: 0 <= j < |stripes| ==> stripes[j] < |m.writers|
      modifies this`locked, m
      ensures Valid() && |m.writers| == |old(m.writers)| && m.readers == old(m.readers)
      ensures m.writers == Mark(old(m.writers), locked, true) && (ok ==> locked == stripes)
      ensures forall j :: 0 <= j < |locked| ==>
                locked[j] < |m.writers| && !old(m.writers)[locked[j]] && m.readers[locked[j]] == 0
      ensures old(m.Patient() && m.AllFree(stripes)) ==> ok
      ensures m.attempts >= old(m.attempts)
      ensures m.timeouts == old(m.timeouts) + if ok then 0 else 1
    {
      ghost var writers0 := m.writers;
      assert Mark(writers0, [], true) == writers0;
      var i := 0;
      while i < |stripes|
        invariant 0 <= i <= |stripes| && locked == stripes[..i]
        invariant m.Valid() && |m.writers| == |writers0| && m.writers == Mark(writers0, stripes[..i], true)
        invariant m.readers == old(m.readers) && m.timeouts == old(m.timeouts) && m.attempts >= old(m.attempts)
        invariant forall j :: 0 <= j < i ==> !writers0[stripes[j]] && m.readers[stripes[j]] == 0
      {
        OneMore(stripes, i);
        ok := m.TryLock(stripes[i]);
        if !ok {
          return;
        }
        locked := locked + [stripes[i]];
        i := i + 1;
      }
      assert stripes[..i] == stripes;
      ok := true;
    }

    /** Unlocks in reverse order of acquisition and forgets the manager. */
    method Release()
      requires Valid()
      modifies this, mgr
      ensures Valid() && mgr == null && locked == [] && stripes == []
      ensures old(mgr) != null ==>
                && old(mgr).Valid() && old(mgr).readers == old(mgr.readers) && old(mgr).timeouts == old(mgr.timeouts)
                && old(mgr).attempts == old(mgr.attempts)
                && old(mgr).writers == Mark(old(mgr.writers), old(locked), false)
    {
      var m := mgr;
      if m != null {
        ghost var writers0 := m.writers;
        var i := |locked|;
        while i > 0
          invariant 0 <= i <= |locked| && m.Valid() && |m.writers| == |writers0|
          invariant mgr == m && locked == old(locked)
          invariant m.readers == old(mgr.readers) && m.timeouts == old(mgr.timeouts) && m.attempts == old(mgr.attempts)
          invariant forall j :: 0 <= j < |locked| ==> locked[j] < |m.writers|
          invariant m.writers == Mark(writers0, locked[i..], false)
        {
          i := i - 1;
          assert locked[i..] == [locked[i]] + locked[i + 1..];
          m.Unlock(locked[i]);
        }
        assert locked[0..] == locked;
      }
      locked, stripes, mgr := [], [], null;
    }
  }

  /** `SharedGuard`: a shared hold on one stripe, or nothing. Guards are moved, so a value stands for one. */
  datatype SharedGuard = NoGuard | SharedGuard(stripe: nat)

  /** The walker's cursor: at most one node, whose stripe is held shared. */
  class SharedLockCursor {
    const mgr: LockManager
    var current: SharedGuard
    var currentNode: int
    /** The shared holds of everybody else. */
    ghost var others: seq<nat>

    ghost predicate Valid()
      reads this, mgr
    {
      && mgr.Valid() && |others| == |mgr.readers|
      && match current
         case NoGuard => mgr.readers == others
         case SharedGuard(s) =>
           && s < |others| && s == mgr.StripeOf(currentNode)
           && mgr.readers == others[s := others[s] + 1]
    }

    /** The cursor is on this node, so the node's list and vector may be read. */
    ghost predicate On(node: int)
      reads this
    {
      current.SharedGuard? && currentNode == node
    }

    constructor (mgr: LockManager)
      requires mgr.Valid()
      ensures Valid() && this.mgr == mgr && current == NoGuard && others == mgr.readers
    {
      this.mgr := mgr;
      current, currentNode, others := NoGuard, -1, mgr.readers;
    }

    method Enter(node: int) returns (ok: bool)
      requires Valid()
      modifies this, mgr
      ensures Valid() && others == old(others) && mgr.writers == old(mgr.writers)
      ensures ok ==> On(node)
      ensures !ok ==> current == NoGuard
      ensures mgr.attempts >= old(mgr.attempts) && (old(mgr.Unhindered()) ==> ok)
      ensures mgr.timeouts == old(mgr.timeouts) + if ok then 0 else 1
    {
      Release();
      ok := mgr.TryLockShared(mgr.StripeOf(node));
      if ok {
        current, currentNode := SharedGuard(mgr.StripeOf(node)), node;
      }
    }

    /**
     * Lock coupling: the next stripe is taken before the current one is dropped. Two nodes of one stripe
     * share the hold that is already there. A timeout leaves the cursor where it was.
     */
    method Advance(next: int) returns (ok: bool)
      requires Valid()
      modifies this, mgr
      ensures Valid() && others == old(others) && mgr.writers == old(mgr.writers)
      ensures ok ==> On(next)
      ensures !ok ==> current == old(current) && currentNode == old(currentNode)
      ensures mgr.attempts >= old(mgr.attempts) && (old(mgr.Unhindered()) ==> ok)
      ensures mgr.timeouts == old(mgr.timeouts) + if ok then 0 else 1
    {
      var s := mgr.StripeOf(next);
      if current.SharedGuard? && mgr.StripeOf(currentNode) == s {
        currentNode := next;
        return true;
      }
      ok := mgr.TryLockShared(s);
      if ok {
        if current.SharedGuard? {
          mgr.UnlockShared(current.stripe);
        }
        current, currentNode := SharedGuard(s), next;
      }
    }

    method Release()
      requires Valid()
      modifies this, mgr
      ensures Valid() && others == old(others) && current == NoGuard && mgr.readers == others
      ensures mgr.writers == old(mgr.writers) && mgr.timeouts == old(mgr.timeouts) && mgr.attempts == old(mgr.attempts)
    {
      if current.SharedGuard? {
        mgr.UnlockShared(current.stripe);
        assert mgr.readers == others;
      }
      current, currentNode := NoGuard, -1;
    }
  }
}
