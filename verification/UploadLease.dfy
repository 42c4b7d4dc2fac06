/** The lock of an upload, `withLock`: SET NX with a lease, and a release that is a GET and
    then a DEL. When it excludes, and what the upload calls that run under it then keep. */
module UploadLease {
  import opened Common
  import opened UploadInvariant
  import opened UploadLock
  import opened UploadProtocol
  import opened UploadRecord

  /** One call of `withLock`. Its lock id is its own. */
  datatype Holder =
    | Waiting     // tries the SET again and again
    | Working
    | Releasing   // the work is over, before the GET
    | Deleting    // the GET found its own id, before the DEL
    | Over

  datatype Lease = Lease(lock: Option<nat>, holders: seq<Holder>)

  datatype LockEvent =
    | Arrive
    | Acquire(i: nat)
    | GiveUp(i: nat)    // the deadline of the spin loop
    | Finish(i: nat)
    | Compare(i: nat)
    | Remove(i: nat)
    | Lapse             // the lease of the lock key

  predicate At(l: Lease, i: nat, h: Holder) {
    i < |l.holders| && l.holders[i] == h
  }

  function Become(l: Lease, i: nat, h: Holder): Lease
    requires i < |l.holders|
  {
    l.(holders := l.holders[i := h])
  }

  function LockStep(l: Lease, e: LockEvent): Lease {
    match e
    case Arrive => l.(holders := l.holders + [Waiting])
    case Acquire(i) => if At(l, i, Waiting) && l.lock.None? then Become(l, i, Working).(lock := Some(i)) else l
    case GiveUp(i) => if At(l, i, Waiting) then Become(l, i, Over) else l
    case Finish(i) => if At(l, i, Working) then Become(l, i, Releasing) else l
    case Compare(i) =>
      if At(l, i, Releasing) then Become(l, i, if l.lock == Some(i) then Deleting else Over) else l
    case Remove(i) => if At(l, i, Deleting) then Become(l, i, Over).(lock := None) else l
    case Lapse => l.(lock := None)
  }

  function LockRun(l: Lease, es: seq<LockEvent>): Lease {
    if es == [] then l else LockStep(LockRun(l, es[..|es| - 1]), es[|es| - 1])
  }

  ghost predicate Free(l: Lease) {
    l.lock.None? && forall i :: 0 <= i < |l.holders| ==> l.holders[i] == Waiting
  }

  /** The owner of the lock has acquired it and not deleted it. */
  predicate OwnerOk(l: Lease) {
    l.lock.Some? ==>
      l.lock.value < |l.holders| && l.holders[l.lock.value] != Waiting && l.holders[l.lock.value] != Over
  }

  lemma {:induction false} OwnerStays(l: Lease, e: LockEvent)
    requires OwnerOk(l)
    ensures OwnerOk(LockStep(l, e))
  {
  }

  lemma {:induction false} OwnerRun(l: Lease, es: seq<LockEvent>)
    requires OwnerOk(l)
    ensures OwnerOk(LockRun(l, es))
  {
    if es != [] {
      OwnerRun(l, es[..|es| - 1]);
      OwnerStays(LockRun(l, es[..|es| - 1]), es[|es| - 1]);
    }
  }

  // ---------------------------------------------------------------- exclusion

  ghost predicate Overlap(l: Lease) {
    exists i: nat, j: nat :: i != j && At(l, i, Working) && At(l, j, Working)
  }

  /** Whoever works, or is about to delete the lock, owns it. */
  ghost predicate Safe(l: Lease) {
    forall i: nat :: At(l, i, Working) || At(l, i, Deleting) ==> l.lock == Some(i)
  }

  lemma SafeExcludes(l: Lease)
    requires Safe(l)
    ensures !Overlap(l)
  {
    forall i: nat, j: nat | At(l, i, Working) && At(l, j, Working) ensures i == j {}
  }

  /** The lease ends while its owner works, or between the GET and the DEL of its release. */
  predicate Outlasts(l: Lease, e: LockEvent) {
    e == Lapse && l.lock.Some? && (At(l, l.lock.value, Working) || At(l, l.lock.value, Deleting))
  }

  /** A step makes the lock unsafe if and only if a call outlasts its lease. */
  lemma {:induction false} SafeStepIff(l: Lease, e: LockEvent)
    requires Safe(l)
    ensures Safe(LockStep(l, e)) <==> !Outlasts(l, e)
  {
    var m := LockStep(l, e);
    if Outlasts(l, e) {
      assert At(m, l.lock.value, Working) || At(m, l.lock.value, Deleting);
    } else {
      forall i: nat | At(m, i, Working) || At(m, i, Deleting) ensures m.lock == Some(i) {
        assert At(l, i, Working) || At(l, i, Deleting) ==> l.lock == Some(i);
        if l.lock.Some? { assert At(l, l.lock.value, Working) || At(l, l.lock.value, Deleting) || e != Lapse; }
      }
    }
  }

  ghost predicate SafeThroughout(l: Lease, es: seq<LockEvent>) {
    Safe(LockRun(l, es)) && (es != [] ==> SafeThroughout(l, es[..|es| - 1]))
  }

  predicate NeverOutlasts(l: Lease, es: seq<LockEvent>) {
    es == [] || (NeverOutlasts(l, es[..|es| - 1]) && !Outlasts(LockRun(l, es[..|es| - 1]), es[|es| - 1]))
  }

  /** Over runs: the lock is safe throughout if and only if no call outlasts its lease. */
  lemma {:induction false} SafeIff(l: Lease, es: seq<LockEvent>)
    requires Free(l)
    ensures SafeThroughout(l, es) <==> NeverOutlasts(l, es)
  {
    if es != [] {
      var p, e := es[..|es| - 1], es[|es| - 1];
      SafeIff(l, p);
      if Safe(LockRun(l, p)) { SafeStepIff(LockRun(l, p), e); }
    }
  }

  predicate NoLapse(es: seq<LockEvent>) {
    Lapse !in es
  }

  lemma {:induction false} SafeRun(l: Lease, es: seq<LockEvent>)
    requires Safe(l) && NoLapse(es)
    ensures Safe(LockRun(l, es))
  {
    if es != [] {
      var p, e := es[..|es| - 1], es[|es| - 1];
      assert es == p + [e];
      SafeRun(l, p);
      SafeStepIff(LockRun(l, p), e);
    }
  }

  lemma Then(l: Lease, es: seq<LockEvent>, m: Lease, e: LockEvent) returns (es': seq<LockEvent>, m': Lease)
    requires m == LockRun(l, es) && NoLapse(es) && e != Lapse
    ensures m' == LockStep(m, e) && m' == LockRun(l, es') && NoLapse(es')
  {
    es', m' := es + [e], LockStep(m, e);
    assert es'[..|es|] == es;
  }

  /** With the lock free, a new call acquires it beside what is going on. */
  lemma {:induction false} Joins(l: Lease, es0: seq<LockEvent>, m: Lease) returns (es: seq<LockEvent>, m': Lease)
    requires m == LockRun(l, es0) && NoLapse(es0) && m.lock.None?
    ensures m' == LockRun(l, es) && NoLapse(es)
    ensures m' == Lease(Some(|m.holders|), m.holders + [Working])
  {
    es, m' := Then(l, es0, m, Arrive);
    es, m' := Then(l, es, m', Acquire(|m.holders|));
    assert m'.holders == m.holders + [Working];
  }

  /** The owner of the lock works, or its release goes through. */
  lemma {:induction false} Releases(l: Lease, es0: seq<LockEvent>, m: Lease, k: nat)
      returns (es: seq<LockEvent>, t: Lease)
    requires m == LockRun(l, es0) && NoLapse(es0) && OwnerOk(m) && m.lock == Some(k)
    ensures t == LockRun(l, es) && NoLapse(es)
    ensures if At(m, k, Working) then t == m else t == Lease(None, m.holders[k := Over])
  {
    es, t := es0, m;
    if At(m, k, Releasing) { es, t := Then(l, es, t, Compare(k)); }
    if At(t, k, Deleting) {
      es, t := Then(l, es, t, Remove(k));
      assert t.holders == m.holders[k := Over];
    }
  }

  /** Somebody works without the lock: two calls can work at once. */
  lemma {:induction false} WorkerExposed(l: Lease, es0: seq<LockEvent>, m: Lease, i: nat) returns (es: seq<LockEvent>)
    requires m == LockRun(l, es0) && NoLapse(es0) && OwnerOk(m) && At(m, i, Working) && m.lock != Some(i)
    ensures NoLapse(es) && Overlap(LockRun(l, es))
  {
    var t := m;
    es := es0;
    if m.lock.Some? {
      es, t := Releases(l, es0, m, m.lock.value);
    }
    if t.lock.None? {
      es, t := Joins(l, es, t);
      assert At(t, i, Working) && At(t, |t.holders| - 1, Working);
    } else {
      assert At(t, i, Working) && At(t, t.lock.value, Working);
    }
  }

  /** A stale DEL under way takes the lock from the next owner. */
  lemma {:induction false} StaleRemoval(l: Lease, es0: seq<LockEvent>, m: Lease, i: nat) returns (es: seq<LockEvent>)
    requires m == LockRun(l, es0) && NoLapse(es0) && OwnerOk(m) && At(m, i, Deleting) && m.lock != Some(i)
    ensures NoLapse(es) && Overlap(LockRun(l, es))
  {
    var t := m;
    es := es0;
    if m.lock.Some? { es, t := Releases(l, es0, m, m.lock.value); }
    if t.lock.None? { es, t := Joins(l, es, t); }
    var j := t.lock.value;
    assert At(t, j, Working) && At(t, i, Deleting);
    es, t := Then(l, es, t, Remove(i));
    assert At(t, j, Working) && t.lock.None?;
    es := WorkerExposed(l, es, t, j);
  }

  ghost predicate Excludes(l: Lease, es: seq<LockEvent>) {
    NoLapse(es) ==> !Overlap(LockRun(l, es))
  }

  /** From any point on, as long as no further lease ends, at most one call works at a time if
      and only if the lock is safe. */
  lemma {:induction false} ExcludesIff(l0: Lease, pre: seq<LockEvent>)
    requires Free(l0)
    ensures var l := LockRun(l0, pre); (forall es :: Excludes(l, es)) <==> Safe(l)
  {
    var l := LockRun(l0, pre);
    OwnerRun(l0, pre);
    if Safe(l) {
      forall es ensures Excludes(l, es) {
        if NoLapse(es) {
          SafeRun(l, es);
          SafeExcludes(LockRun(l, es));
        }
      }
    } else {
      var i: nat :| (At(l, i, Working) || At(l, i, Deleting)) && l.lock != Some(i);
      var es: seq<LockEvent>;
      if At(l, i, Working) { es := WorkerExposed(l, [], l, i); } else { es := StaleRemoval(l, [], l, i); }
      assert !Excludes(l, es);
    }
  }

  // ---------------------------------------------------- upload calls under the lock

  datatype Joint = Joint(l: Lease, s: Sys)

  /** A command of the lock, or of the upload protocol. */
  datatype JointEvent = Lock(le: LockEvent) | Act(e: Event)

  /** A call moves only inside its work; deletions and other uploads need no lock. */
  predicate Allowed(j: Joint, e: Event) {
    e.Move? ==> At(j.l, e.i, Working)
  }

  /** The work is over when the call is. */
  predicate MayLock(j: Joint, e: LockEvent) {
    e.Finish? && e.i < |j.s.callers| ==> j.s.callers[e.i].pc == Done
  }

  function JointStep(cfg: Config, j: Joint, e: JointEvent): (j': Joint)
    requires Fits(cfg, j.s)
    ensures Fits(cfg, j'.s)
  {
    match e
    case Lock(le) => if MayLock(j, le) then j.(l := LockStep(j.l, le)) else j
    case Act(ue) => if Allowed(j, ue) then j.(s := Step(cfg, j.s, ue)) else j
  }

  function JointRun(cfg: Config, j: Joint, es: seq<JointEvent>): (j': Joint)
    requires Fits(cfg, j.s)
    ensures Fits(cfg, j'.s)
    decreases |es|
  {
    if es == [] then j else JointRun(cfg, JointStep(cfg, j, es[0]), es[1..])
  }

  /** No call outlasts its lease. */
  predicate LeasesHold(cfg: Config, j: Joint, es: seq<JointEvent>)
    requires Fits(cfg, j.s)
    decreases |es|
  {
    es != [] ==>
      && !(es[0].Lock? && Outlasts(j.l, es[0].le))
      && LeasesHold(cfg, JointStep(cfg, j, es[0]), es[1..])
  }

  /** The commands of the upload protocol among them. */
  function Commands(cfg: Config, j: Joint, es: seq<JointEvent>): seq<Event>
    requires Fits(cfg, j.s)
    decreases |es|
  {
    if es == [] then []
    else
      (if es[0].Act? && Allowed(j, es[0].e) then [es[0].e] else [])
      + Commands(cfg, JointStep(cfg, j, es[0]), es[1..])
  }

  ghost predicate Resting(l: Lease, s: Sys, i: nat)
    requires i < |s.callers|
  {
    i < |l.holders| && (AtRest(s.callers[i].pc) || l.holders[i] == Working)
  }

  /** Whoever does not work has not started or is done. */
  ghost predicate RestOutside(j: Joint) {
    forall i: nat :: i < |j.s.callers| ==> Resting(j.l, j.s, i)
  }

  lemma {:induction false} CallersOnly(cfg: Config, s: Sys, e: Event)
    requires Fits(cfg, s)
    ensures |Step(cfg, s, e).callers| == |s.callers|
    ensures forall h :: 0 <= h < |s.callers| && !(e.Move? && e.i == h) ==> Step(cfg, s, e).callers[h] == s.callers[h]
  {
  }

  lemma {:induction false} LockKeepsRest(j: Joint, e: LockEvent)
    requires RestOutside(j) && MayLock(j, e)
    ensures RestOutside(j.(l := LockStep(j.l, e)))
  {
    var m := LockStep(j.l, e);
    forall i: nat | i < |j.s.callers| ensures Resting(m, j.s, i) { assert Resting(j.l, j.s, i); }
  }

  lemma MoverAlone(j: Joint, i: nat)
    requires Safe(j.l) && RestOutside(j) && At(j.l, i, Working)
    ensures OthersAtRest(j.s, i)
  {
    forall h: nat | h < |j.s.callers| && h != i ensures AtRest(j.s.callers[h].pc) {
      assert Resting(j.l, j.s, h) && !At(j.l, h, Working);
    }
  }

  lemma {:induction false} ActKeepsRest(cfg: Config, j: Joint, e: Event)
    requires Fits(cfg, j.s) && RestOutside(j) && Allowed(j, e)
    ensures RestOutside(j.(s := Step(cfg, j.s, e)))
  {
    CallersOnly(cfg, j.s, e);
    var t := Step(cfg, j.s, e);
    forall i: nat | i < |t.callers| ensures Resting(j.l, t, i) { assert Resting(j.l, j.s, i); }
  }

  /** With every lease kept the upload calls run one at a time. */
  lemma {:induction false} LeasesGiveOneCall(cfg: Config, j: Joint, es: seq<JointEvent>)
    requires Fits(cfg, j.s) && Safe(j.l) && RestOutside(j) && LeasesHold(cfg, j, es)
    ensures OneCallAtATime(cfg, j.s, Commands(cfg, j, es))
    ensures JointRun(cfg, j, es).s == Run(cfg, j.s, Commands(cfg, j, es))
    decreases |es|
  {
    if es != [] {
      var e, j' := es[0], JointStep(cfg, j, es[0]);
      var rest := Commands(cfg, j', es[1..]);
      assert [] + rest == rest;
      if e.Lock? {
        SafeStepIff(j.l, e.le);
        if MayLock(j, e.le) { LockKeepsRest(j, e.le); }
      } else if Allowed(j, e.e) {
        ActKeepsRest(cfg, j, e.e);
        if e.e.Move? { MoverAlone(j, e.e.i); }
        assert ([e.e] + rest)[1..] == rest;
      }
      LeasesGiveOneCall(cfg, j', es[1..]);
    }
  }

  /** So with every lease kept, whatever the order in which calls acquire and release the lock,
      what aborts and what other uploads do: at most one transfer and one media record. */
  lemma {:induction false} LeasedUploadsOnce(cfg: Config, j: Joint, es: seq<JointEvent>)
    requires Initial(cfg, j.s) && Free(j.l) && |j.l.holders| >= |j.s.callers| && LeasesHold(cfg, j, es)
    ensures AtMostOneUpload(JointRun(cfg, j, es).s)
  {
    assert RestOutside(j) by {
      forall i: nat | i < |j.s.callers| ensures Resting(j.l, j.s, i) {}
    }
    LeasesGiveOneCall(cfg, j, es);
    LockedUploadsOnce(cfg, j.s, Commands(cfg, j, es));
  }
}
