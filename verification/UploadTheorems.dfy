/** What the upload protocol guarantees over every run in which no CAS is disturbed on
    its connection. */
module UploadTheorems {
  import opened Common
  import opened UploadInvariant
  import opened UploadProtocol
  import opened UploadRecord

  // ------------------------------------------------ what the core invariant says

  lemma CoreUploadsOnce(s: Sys)
    requires Core(s)
    ensures AtMostOneUpload(s)
  {
    forall a, b | 0 <= a < |s.transfers| && 0 <= b < |s.transfers| ensures s.transfers[a] == s.transfers[b] {
      ReachedOnce(s, s.transfers[a], s.transfers[b], Uploading);
    }
  }

  /** The record left by applying the winning patches one after another. */
  function Fold(rec: Status, wins: seq<Win>): Status {
    if wins == [] then rec
    else MergeStatus(Fold(rec, wins[..|wins| - 1]), wins[|wins| - 1].patch)
  }

  lemma {:induction false} FoldIsLog(hist: seq<Status>, wins: seq<Win>, k: nat)
    requires LogOk(hist, wins) && k <= |wins|
    ensures hist[k] == Fold(hist[0], wins[..k])
  {
    if k > 0 {
      FoldIsLog(hist, wins, k - 1);
      assert wins[..k][..k - 1] == wins[..k - 1];
      LinkAt(hist, wins, k - 1);
    }
  }

  /** Whatever is stored is the fold of all winning patches from the first record on, and
      every version between the first and the last was stored exactly once. */
  ghost predicate Linear(first: Status, s: Sys) {
    && (s.cell.Some? ==> s.cell.value == Fold(first, s.wins))
    && |s.hist| == |s.wins| + 1 && s.hist[0] == first
    && forall k :: 0 <= k < |s.hist| ==> s.hist[k].version == first.version + k
  }

  lemma CoreIsLinear(s: Sys)
    requires Core(s)
    ensures Linear(s.hist[0], s)
  {
    FoldIsLog(s.hist, s.wins, |s.wins|);
    assert s.wins[..|s.wins|] == s.wins;
    forall k | 0 <= k < |s.hist| ensures s.hist[k].version == s.hist[0].version + k {
      LogOrder(s.hist, s.wins, 0, k);
    }
  }

  /** Two stored records, n wins apart. */
  ghost predicate Ordered(a: Status, b: Status, n: nat) {
    && WellFormed(a) && WellFormed(b) && Follows(a, b, n)
    && (n == 1 ==> AllowedMove(a.state, b.state))
  }

  lemma CoreIsOrdered(s: Sys, j: nat, k: nat)
    requires Core(s) && j <= k < |s.hist|
    ensures Ordered(s.hist[j], s.hist[k], k - j)
  {
    LogOrder(s.hist, s.wins, j, k);
    assert WellFormedAt(s.hist, j) && WellFormedAt(s.hist, k);
    if k == j + 1 { LinkAt(s.hist, s.wins, j); }
  }

  lemma {:induction false} HistoryStart(cfg: Config, s: Sys, es: seq<Event>)
    requires Fits(cfg, s) && |s.hist| >= 1
    ensures s.hist <= Run(cfg, s, es).hist
    decreases |es|
  {
    if es != [] { HistoryStart(cfg, Step(cfg, s, es[0]), es[1..]); }
  }

  // ------------------------------------------------------------ undisturbed runs

  /** One connection per caller keeps every CAS undisturbed, in every run. */
  lemma {:induction false} ExclusiveUndisturbed(cfg: Config, s: Sys, es: seq<Event>)
    requires Exclusive(cfg) && Fits(cfg, s)
    ensures Undisturbed(cfg, s, es)
    decreases |es|
  {
    if es != [] { ExclusiveUndisturbed(cfg, Step(cfg, s, es[0]), es[1..]); }
  }

  /** While no CAS is disturbed on its connection, at most one `finish` ever wins the CAS into
      `uploading`: at most one call runs `uploadFile`, at most one media record exists. */
  lemma {:induction false} AtMostOneFinish(cfg: Config, s: Sys, es: seq<Event>)
    requires Initial(cfg, s) && Undisturbed(cfg, s, es)
    ensures AtMostOneUpload(Run(cfg, s, es))
  {
    InitialInv(cfg, s);
    RunKeeps(cfg, s, es);
    CoreUploadsOnce(Run(cfg, s, es));
  }

  /** CAS linearises over every such run. */
  lemma {:induction false} CasLinearises(cfg: Config, s: Sys, es: seq<Event>)
    requires Initial(cfg, s) && Undisturbed(cfg, s, es)
    ensures Linear(s.hist[0], Run(cfg, s, es))
  {
    InitialInv(cfg, s);
    RunKeeps(cfg, s, es);
    HistoryStart(cfg, s, es);
    CoreIsLinear(Run(cfg, s, es));
  }

  /** Progress order over every such run: between any two stored records. */
  lemma {:induction false} ProgressOrder(cfg: Config, s: Sys, es: seq<Event>, j: nat, k: nat)
    requires Initial(cfg, s) && Undisturbed(cfg, s, es)
    requires j <= k < |Run(cfg, s, es).hist|
    ensures Ordered(Run(cfg, s, es).hist[j], Run(cfg, s, es).hist[k], k - j)
  {
    InitialInv(cfg, s);
    RunKeeps(cfg, s, es);
    CoreIsOrdered(Run(cfg, s, es), j, k);
  }

  ghost predicate Held(s: Sys, k: Caller) {
    exists h :: 0 <= h < |s.hist| && k.snap == s.hist[h]
  }

  ghost predicate WinStored(s: Sys, i: nat, k: Caller)
    requires k.pc.CasUnwatch?
  {
    |s.hist| == |s.wins| + 1
    && exists h :: 0 <= h < |s.wins| && s.wins[h] == Win(i, k.pc.patch) && Sync(k.snap, k.pc.patch) == s.hist[h + 1]
  }

  lemma SnapshotHeld(s: Sys, i: nat, k: Caller)
    requires Core(s) && CallerOk(s.hist, s.wins, i, k) && k.pc != NotStarted && k.pc != Done
    ensures Held(s, k)
  {
    assert k.snap == s.hist[k.snap.version - s.hist[0].version];
  }

  lemma WinIsStored(s: Sys, i: nat, k: Caller)
    requires Core(s) && CallerOk(s.hist, s.wins, i, k) && k.pc.CasUnwatch? && k.pc.won
    ensures WinStored(s, i, k)
  {
    var at := k.snap.version - s.hist[0].version;
    SnapAdvances(s.hist, s.wins, i, k);
    assert s.wins[at] == Win(i, k.pc.patch) && s.hist[at + 1] == MergeStatus(k.snap, k.pc.patch);
  }

  /** A call in flight holds a record of the log; right after a win its synced snapshot is
      the record that win stored. */
  lemma {:induction false} SnapshotIsStoredRecord(cfg: Config, s: Sys, es: seq<Event>, i: nat)
    requires Initial(cfg, s) && Undisturbed(cfg, s, es) && i < |cfg.conn|
    ensures var t := Run(cfg, s, es); var k := t.callers[i];
            && (k.pc != NotStarted && k.pc != Done ==> Held(t, k))
            && (k.pc.CasUnwatch? && k.pc.won ==> WinStored(t, i, k))
  {
    InitialInv(cfg, s);
    RunKeeps(cfg, s, es);
    var t := Run(cfg, s, es);
    var k := t.callers[i];
    assert CallerOk(t.hist, t.wins, i, k);
    if k.pc != NotStarted && k.pc != Done { SnapshotHeld(t, i, k); }
    if k.pc.CasUnwatch? && k.pc.won { WinIsStored(t, i, k); }
  }

  lemma StepLeavesDeleted(cfg: Config, s: Sys, e: Event)
    requires Inv(cfg, s) && Harmless(cfg, s, e) && s.cell.None?
    ensures Step(cfg, s, e).cell.None?
  {
    if e.Move? && e.i < |s.callers| {
      assert ConnOk(s.cell, s.conns[cfg.conn[e.i]], s.callers[e.i].pc);
    }
  }

  /** In an undisturbed run a deleted record stays deleted. */
  lemma {:induction false} DeletedStaysDeleted(cfg: Config, s: Sys, es: seq<Event>)
    requires Inv(cfg, s) && Undisturbed(cfg, s, es) && s.cell.None?
    ensures Run(cfg, s, es).cell.None?
    decreases |es|
  {
    if es != [] {
      StepLeavesDeleted(cfg, s, es[0]);
      RunKeeps(cfg, s, es[..1]);
      assert es[..1][1..] == [] && Run(cfg, s, es[..1]) == Step(cfg, s, es[0]);
      DeletedStaysDeleted(cfg, Step(cfg, s, es[0]), es[1..]);
    }
  }
}
