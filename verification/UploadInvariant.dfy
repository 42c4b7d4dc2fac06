/** The invariant of the upload protocol: the log of stored records, what a caller's
    snapshot is, what an open CAS knows, and what each step keeps. */
module UploadInvariant {
  import opened Common
  import opened UploadProtocol
  import opened UploadRecord

  /** The snapshot is the record stored under its version; a snapshot past
      `ready-to-upload` was written by the caller itself. */
  ghost predicate SnapOk(hist: seq<Status>, wins: seq<Win>, i: nat, snap: Status)
    requires |hist| == |wins| + 1
  {
    var at := snap.version - hist[0].version;
    && 0 <= at < |hist|
    && snap == hist[at]
    && (snap.state in {Uploading, Uploaded, Error} ==> at > 0 && wins[at - 1].who == i)
  }

  /** A CAS that won has just stored the successor of its snapshot. */
  ghost predicate WonOk(hist: seq<Status>, wins: seq<Win>, i: nat, k: Caller)
    requires |hist| == |wins| + 1
  {
    k.pc.CasUnwatch? && k.pc.won ==>
      var at := k.snap.version - hist[0].version;
      && 0 <= at < |wins|
      && hist[at + 1] == MergeStatus(k.snap, k.pc.patch)
      && wins[at] == Win(i, k.pc.patch)
  }

  /** Between WATCH and EXEC an undisturbed connection guarantees the key is unchanged. */
  ghost predicate ConnOk(cell: Option<Status>, conn: Conn, pc: Pc) {
    && (pc.CasGet? ==> conn.watching)
    && (pc.CasExec? ==> conn.watching && (!conn.dirty ==> cell == Some(pc.cur)))
  }

  ghost predicate CallerOk(hist: seq<Status>, wins: seq<Win>, i: nat, k: Caller)
    requires |hist| == |wins| + 1
  {
    k.pc != NotStarted && k.pc != Done ==>
      && SnapOk(hist, wins, i, k.snap)
      && WonOk(hist, wins, i, k)
      && PcOk(k.job, k.pc, k.snap)
  }

  ghost predicate WellFormedAt(hist: seq<Status>, k: nat)
    requires k < |hist|
  {
    WellFormed(hist[k])
  }

  ghost predicate Succeeds(a: Status, p: Patch, b: Status) {
    b == MergeStatus(a, p) && Edge(a, b)
  }

  /** The record after win k is the merge of that win's patch into the record before it. */
  ghost predicate Link(hist: seq<Status>, wins: seq<Win>, k: nat)
    requires k < |wins| && |hist| == |wins| + 1
  {
    Succeeds(hist[k], wins[k].patch, hist[k + 1])
  }

  ghost predicate AllWellFormed(hist: seq<Status>) {
    forall k :: 0 <= k < |hist| ==> WellFormedAt(hist, k)
  }

  ghost predicate NextAt<T(!new), U(!new)>(next: (T, U, T) -> bool, hist: seq<T>, wins: seq<U>, k: nat)
    requires k < |wins| && |hist| == |wins| + 1
  {
    next(hist[k], wins[k], hist[k + 1])
  }

  /** Each element follows from the one before it and the step between them. */
  ghost predicate Chain<T(!new), U(!new)>(next: (T, U, T) -> bool, hist: seq<T>, wins: seq<U>)
    requires |hist| == |wins| + 1
  {
    forall k :: 0 <= k < |wins| ==> NextAt(next, hist, wins, k)
  }

  lemma ChainGrows<T(!new), U(!new)>(next: (T, U, T) -> bool, hist: seq<T>, wins: seq<U>, hist': seq<T>, wins': seq<U>)
    requires |hist| == |wins| + 1 && Chain(next, hist, wins)
    requires |hist'| == |hist| + 1 && hist <= hist' && |wins'| == |wins| + 1 && wins <= wins'
    requires next(hist'[|wins|], wins'[|wins|], hist'[|wins| + 1])
    ensures Chain(next, hist', wins')
  {
    forall j | 0 <= j < |wins'| ensures NextAt(next, hist', wins', j) {
      if j < |wins| {
        assert NextAt(next, hist, wins, j);
        assert hist'[j] == hist[j] && hist'[j + 1] == hist[j + 1] && wins'[j] == wins[j];
      }
    }
  }

  ghost function Succession(): (Status, Win, Status) -> bool {
    (a: Status, w: Win, b: Status) => Succeeds(a, w.patch, b)
  }

  ghost predicate AllLinked(hist: seq<Status>, wins: seq<Win>)
    requires |hist| == |wins| + 1
  {
    Chain(Succession(), hist, wins)
  }

  lemma LinkAt(hist: seq<Status>, wins: seq<Win>, k: nat)
    requires |hist| == |wins| + 1 && AllLinked(hist, wins) && k < |wins|
    ensures Link(hist, wins, k)
  {
    assert NextAt(Succession(), hist, wins, k);
  }

  /** The stored records form one chain: each is the merge of the next winning patch. */
  ghost predicate LogOk(hist: seq<Status>, wins: seq<Win>) {
    && |hist| == |wins| + 1
    && AllWellFormed(hist)
    && AllLinked(hist, wins)
    && hist[0].state in {Init, Receiving, ReadyToUpload}
  }

  /** Caller i won the CAS that stored a record in state st. */
  ghost predicate Reached(s: Sys, i: nat, st: UploadState)
    requires |s.hist| == |s.wins| + 1
  {
    exists k :: 0 <= k < |s.wins| && s.hist[k + 1].state == st && s.wins[k].who == i
  }

  ghost predicate EffectsOk(s: Sys)
    requires |s.hist| == |s.wins| + 1
  {
    && (forall a :: 0 <= a < |s.transfers| ==> Reached(s, s.transfers[a], Uploading))
    && |s.media| <= 1
    && (forall a :: 0 <= a < |s.media| ==>
          && Reached(s, s.media[a], Uploaded)
          && s.media[a] < |s.callers|
          && s.callers[s.media[a]].pc in {DropRecord, Done})
  }

  /** The log, the stored record and the effects are consistent. */
  ghost predicate Core(s: Sys) {
    && LogOk(s.hist, s.wins)
    && (s.cell.Some? ==> s.cell.value == s.hist[|s.hist| - 1])
    && EffectsOk(s)
  }

  ghost predicate Inv(cfg: Config, s: Sys) {
    && Fits(cfg, s) && Core(s)
    && (forall i :: 0 <= i < |s.callers| ==> CallerOk(s.hist, s.wins, i, s.callers[i]))
    && (forall i :: 0 <= i < |s.callers| ==> ConnOk(s.cell, s.conns[cfg.conn[i]], s.callers[i].pc))
  }

  // -------------------------------------------------------------------- the log

  function Rank(st: UploadState): nat {
    match st
    case Init => 0
    case Receiving => 1
    case ReadyToUpload => 2
    case Uploading => 3
    case Uploaded => 4
    case Error => 5
  }

  /** What n winning patches in a row do to a record. */
  ghost predicate Follows(a: Status, b: Status, n: nat) {
    && b.version == a.version + n
    && Rank(a.state) <= Rank(b.state)
    && (Rank(a.state) >= 3 && n > 0 ==> Rank(a.state) < Rank(b.state))
    && a.receivedBytes <= b.receivedBytes
    && (forall x :: x in a.receivedIndexes ==> x in b.receivedIndexes)
    && b.userId == a.userId && b.size == a.size && b.chunkSize == a.chunkSize && b.totalChunks == a.totalChunks
    && b.createdAt == a.createdAt && b.expiresAt == a.expiresAt
    && (a.state !in {Init, Receiving} ==> b.receivedIndexes == a.receivedIndexes)
  }

  lemma FollowsEdge(a: Status, b: Status, c: Status, n: nat)
    requires Follows(a, b, n) && Edge(b, c)
    ensures Follows(a, c, n + 1)
  {
  }

  /** Along the log versions count up, progress grows and the frozen fields stay. */
  lemma {:induction false} LogOrder(hist: seq<Status>, wins: seq<Win>, j: nat, k: nat)
    requires LogOk(hist, wins) && j <= k < |hist|
    ensures Follows(hist[j], hist[k], k - j)
    decreases k - j
  {
    if j < k {
      LogOrder(hist, wins, j, k - 1);
      LinkAt(hist, wins, k - 1);
      FollowsEdge(hist[j], hist[k - 1], hist[k], k - 1 - j);
    }
  }

  /** A record enters `uploading`, and enters `uploaded`, at most once. */
  lemma EntersOnce(hist: seq<Status>, wins: seq<Win>, j: nat, k: nat)
    requires LogOk(hist, wins) && j < |hist| && k < |hist|
    requires hist[j].state == hist[k].state && hist[j].state in {Uploading, Uploaded}
    ensures j == k
  {
    if j < k { LogOrder(hist, wins, j, k); }
    if k < j { LogOrder(hist, wins, k, j); }
  }

  lemma ReachedOnce(s: Sys, i: nat, j: nat, st: UploadState)
    requires LogOk(s.hist, s.wins) && st in {Uploading, Uploaded}
    requires Reached(s, i, st) && Reached(s, j, st)
    ensures i == j
  {
    var a :| 0 <= a < |s.wins| && s.hist[a + 1].state == st && s.wins[a].who == i;
    var b :| 0 <= b < |s.wins| && s.hist[b + 1].state == st && s.wins[b].who == j;
    EntersOnce(s.hist, s.wins, a + 1, b + 1);
  }

  // ------------------------------------------------------- one caller's own step

  /** A step of caller i keeps the core and leaves that caller consistent. */
  ghost predicate Moved(s: Sys, s': Sys, i: nat) {
    && i < |s.callers| && |s'.callers| == |s.callers| && s'.callers == s.callers[i := s'.callers[i]]
    && s.hist <= s'.hist && s.wins <= s'.wins
    && Core(s') && CallerOk(s'.hist, s'.wins, i, s'.callers[i])
  }

  lemma {:induction false} EffectsFrame(s: Sys, s': Sys, i: nat)
    requires |s.hist| == |s.wins| + 1 && EffectsOk(s) && i < |s.callers|
    requires |s'.callers| == |s.callers|
    requires s.hist <= s'.hist && s.wins <= s'.wins && |s'.hist| == |s'.wins| + 1
    requires s'.transfers == s.transfers || (s'.transfers == s.transfers + [i] && Reached(s, i, Uploading))
    requires s'.media == s.media
          || (s.media == [] && s'.media == [i] && Reached(s, i, Uploaded) && s'.callers[i].pc in {DropRecord, Done})
    requires s'.callers == s.callers[i := s'.callers[i]]
    requires s.callers[i].pc in {DropRecord, Done} ==> s'.callers[i].pc in {DropRecord, Done}
    ensures EffectsOk(s')
  {
    forall i, st | Reached(s, i, st) ensures Reached(s', i, st) {
      var k :| 0 <= k < |s.wins| && s.hist[k + 1].state == st && s.wins[k].who == i;
      assert s'.hist[k + 1] == s.hist[k + 1] && s'.wins[k] == s.wins[k];
    }
  }

  /** A step that changes neither log nor effects. */
  lemma {:induction false} Quiet(s: Sys, s': Sys, i: nat)
    requires Core(s) && i < |s.callers| && |s'.callers| == |s.callers|
    requires s'.callers == s.callers[i := s'.callers[i]]
    requires s'.hist == s.hist && s'.wins == s.wins && s'.transfers == s.transfers && s'.media == s.media
    requires s'.cell == s.cell || s'.cell.None?
    requires s.callers[i].pc in {DropRecord, Done} ==> s'.callers[i].pc in {DropRecord, Done}
    requires CallerOk(s.hist, s.wins, i, s'.callers[i])
    ensures Moved(s, s', i)
  {
    EffectsFrame(s, s', i);
  }

  lemma {:induction false} StartMoves(cfg: Config, s: Sys, i: nat, c: Choice)
    requires Fits(cfg, s) && Core(s) && i < |s.callers| && s.callers[i].pc == NotStarted
    ensures Moved(s, StepCaller(cfg, s, i, c), i)
  {
    if s.cell.Some? {
      var rec := s.cell.value;
      assert WellFormedAt(s.hist, |s.hist| - 1);
      SortedUniqueIsCanonical(EnsureSortedUnique(rec.receivedIndexes), rec.receivedIndexes);
      assert Normalize(rec) == rec;
      LogOrder(s.hist, s.wins, 0, |s.hist| - 1);
    }
    Quiet(s, StepCaller(cfg, s, i, c), i);
  }

  /** A snapshot of the latest version is the latest record. */
  lemma LatestIs(hist: seq<Status>, wins: seq<Win>, i: nat, snap: Status)
    requires LogOk(hist, wins) && SnapOk(hist, wins, i, snap)
    ensures snap == hist[|hist| - 1] <==> snap.version - hist[0].version == |hist| - 1
    ensures snap == hist[|hist| - 1] <==> snap.version == hist[|hist| - 1].version
  {
    LogOrder(hist, wins, 0, |hist| - 1);
  }

  /** WATCH and GET: a record of the expected version is the caller's own snapshot. */
  lemma {:induction false} ReadMoves(cfg: Config, s: Sys, i: nat, c: Choice)
    requires Fits(cfg, s) && Core(s) && i < |s.callers| && CallerOk(s.hist, s.wins, i, s.callers[i])
    requires s.callers[i].pc.CasWatch? || s.callers[i].pc.CasGet?
    ensures Moved(s, StepCaller(cfg, s, i, c), i)
  {
    LatestIs(s.hist, s.wins, i, s.callers[i].snap);
    Quiet(s, StepCaller(cfg, s, i, c), i);
  }

  lemma AfterCasOk(job: Job, site: Site, p: Patch, snap: Status, won: bool)
    requires WellFormed(snap) && SiteOk(job, site, p, snap)
    ensures PcOk(job, AfterCas(site, won), if won then MergeStatus(snap, p) else snap)
  {
    if site != Progress {
      SortedUniqueIsCanonical(EnsureSortedUnique(snap.receivedIndexes), snap.receivedIndexes);
    }
  }

  lemma SnapAdvances(hist: seq<Status>, wins: seq<Win>, i: nat, k: Caller)
    requires LogOk(hist, wins) && CallerOk(hist, wins, i, k) && k.pc.CasUnwatch?
    ensures SnapOk(hist, wins, i, if k.pc.won then Sync(k.snap, k.pc.patch) else k.snap)
    ensures WellFormed(k.snap)
    ensures Sync(k.snap, k.pc.patch) == MergeStatus(k.snap, k.pc.patch)
  {
    assert WellFormedAt(hist, k.snap.version - hist[0].version);
    SiteEdge(k.job, k.pc.site, k.pc.patch, k.snap);
  }

  lemma UnwatchedCallerOk(hist: seq<Status>, wins: seq<Win>, i: nat, k: Caller)
    requires LogOk(hist, wins) && CallerOk(hist, wins, i, k) && k.pc.CasUnwatch?
    ensures CallerOk(hist, wins, i,
                     k.(pc := AfterCas(k.pc.site, k.pc.won),
                        snap := if k.pc.won then Sync(k.snap, k.pc.patch) else k.snap))
  {
    SnapAdvances(hist, wins, i, k);
    AfterCasOk(k.job, k.pc.site, k.pc.patch, k.snap, k.pc.won);
  }

  lemma {:induction false} UnwatchMoves(cfg: Config, s: Sys, i: nat, c: Choice)
    requires Fits(cfg, s) && Core(s) && i < |s.callers| && CallerOk(s.hist, s.wins, i, s.callers[i])
    requires s.callers[i].pc.CasUnwatch?
    ensures Moved(s, StepCaller(cfg, s, i, c), i)
  {
    var s', k := StepCaller(cfg, s, i, c), s.callers[i];
    UnwatchedCallerOk(s.hist, s.wins, i, k);
    if k.pc.left > 1 {
      assert s'.callers[i] == k.(pc := CasUnwatch(k.pc.site, k.pc.patch, k.pc.won, k.pc.left - 1));
    } else {
      assert s'.callers[i] == k.(pc := AfterCas(k.pc.site, k.pc.won),
                                 snap := if k.pc.won then Sync(k.snap, k.pc.patch) else k.snap);
    }
    Quiet(s, s', i);
  }

  /** hist' and wins' extend the log by the EXEC of caller i. */
  ghost predicate Won(hist: seq<Status>, wins: seq<Win>, hist': seq<Status>, wins': seq<Win>, i: nat, k: Caller) {
    && k.pc.CasExec? && hist != [] && k.snap == hist[|hist| - 1]
    && |hist'| == |hist| + 1 && hist <= hist' && hist'[|hist|] == MergeStatus(k.snap, k.pc.patch)
    && |wins'| == |wins| + 1 && wins <= wins' && wins'[|wins|] == Win(i, k.pc.patch)
  }

  lemma WellFormedFrame(hist: seq<Status>, hist': seq<Status>, j: nat)
    requires j < |hist| <= |hist'| && hist'[j] == hist[j]
    ensures WellFormedAt(hist, j) ==> WellFormedAt(hist', j)
  {
  }

  lemma WellFormedGrows(hist: seq<Status>, hist': seq<Status>)
    requires AllWellFormed(hist) && |hist'| == |hist| + 1 && hist <= hist' && WellFormedAt(hist', |hist|)
    ensures AllWellFormed(hist')
  {
    forall j | 0 <= j < |hist| ensures WellFormedAt(hist', j) { WellFormedFrame(hist, hist', j); }
  }

  lemma LogGrows(hist: seq<Status>, wins: seq<Win>, hist': seq<Status>, wins': seq<Win>, i: nat, k: Caller)
    requires LogOk(hist, wins) && Won(hist, wins, hist', wins', i, k)
    requires SiteOk(k.job, k.pc.site, k.pc.patch, k.snap)
    ensures LogOk(hist', wins')
  {
    var last := |hist| - 1;
    assert WellFormedAt(hist, last) && hist'[last] == hist[last];
    SiteEdge(k.job, k.pc.site, k.pc.patch, k.snap);
    WellFormedGrows(hist, hist');
    assert Succession()(hist'[last], wins'[last], hist'[last + 1]);
    ChainGrows(Succession(), hist, wins, hist', wins');
    assert hist'[0] == hist[0];
  }

  /** The latest record's caller, after its EXEC went through. */
  lemma WinnerOk(hist: seq<Status>, wins: seq<Win>, hist': seq<Status>, wins': seq<Win>, i: nat, k: Caller)
    requires LogOk(hist, wins) && CallerOk(hist, wins, i, k) && Won(hist, wins, hist', wins', i, k)
    ensures CallerOk(hist', wins', i, k.(pc := CasUnwatch(k.pc.site, k.pc.patch, true, 1)))
  {
    LatestIs(hist, wins, i, k.snap);
    var at := |hist| - 1;
    assert k.snap.version - hist'[0].version == at && hist'[at] == k.snap;
    assert at > 0 ==> wins'[at - 1] == wins[at - 1];
  }

  /** EXEC on a clear connection, with the caller's snapshot the latest record. */
  lemma {:induction false} ExecWonMoves(cfg: Config, s: Sys, i: nat, c: Choice)
    requires Fits(cfg, s) && Core(s) && i < |s.callers| && CallerOk(s.hist, s.wins, i, s.callers[i])
    requires s.callers[i].pc.CasExec? && !s.conns[cfg.conn[i]].dirty && s.callers[i].snap == s.hist[|s.hist| - 1]
    ensures Moved(s, StepCaller(cfg, s, i, c), i)
  {
    var k := s.callers[i];
    var s' := StepCaller(cfg, s, i, c);
    LogGrows(s.hist, s.wins, s'.hist, s'.wins, i, k);
    WinnerOk(s.hist, s.wins, s'.hist, s'.wins, i, k);
    EffectsFrame(s, s', i);
  }

  lemma {:induction false} ExecAbortedMoves(cfg: Config, s: Sys, i: nat, c: Choice)
    requires Fits(cfg, s) && Core(s) && i < |s.callers| && CallerOk(s.hist, s.wins, i, s.callers[i])
    requires s.callers[i].pc.CasExec? && s.conns[cfg.conn[i]].dirty
    ensures Moved(s, StepCaller(cfg, s, i, c), i)
  {
    Quiet(s, StepCaller(cfg, s, i, c), i);
  }

  lemma {:induction false} ChunkChecksMoves(cfg: Config, s: Sys, i: nat, c: Choice)
    requires Fits(cfg, s) && Core(s) && i < |s.callers| && CallerOk(s.hist, s.wins, i, s.callers[i])
    requires s.callers[i].pc == ChunkChecks
    ensures Moved(s, StepCaller(cfg, s, i, c), i)
  {
    Quiet(s, StepCaller(cfg, s, i, c), i);
  }

  lemma {:induction false} ChunkWriteMoves(cfg: Config, s: Sys, i: nat, c: Choice)
    requires Fits(cfg, s) && Core(s) && i < |s.callers| && CallerOk(s.hist, s.wins, i, s.callers[i])
    requires s.callers[i].pc == ChunkWrite || s.callers[i].pc == ChunkTouch
    ensures Moved(s, StepCaller(cfg, s, i, c), i)
  {
    Quiet(s, StepCaller(cfg, s, i, c), i);
  }

  lemma {:induction false} FinishSniffMoves(cfg: Config, s: Sys, i: nat, c: Choice)
    requires Fits(cfg, s) && Core(s) && i < |s.callers| && CallerOk(s.hist, s.wins, i, s.callers[i])
    requires s.callers[i].pc == FinishSniff
    ensures Moved(s, StepCaller(cfg, s, i, c), i)
  {
    Quiet(s, StepCaller(cfg, s, i, c), i);
  }

  lemma {:induction false} FinishMoves(cfg: Config, s: Sys, i: nat, c: Choice)
    requires Fits(cfg, s) && Core(s) && i < |s.callers| && CallerOk(s.hist, s.wins, i, s.callers[i])
    requires s.callers[i].pc in {FinishReady, FinishPrepare, DropRecord}
    ensures Moved(s, StepCaller(cfg, s, i, c), i)
  {
    Quiet(s, StepCaller(cfg, s, i, c), i);
  }

  /** A caller whose snapshot is `uploading` or `uploaded` put the record there itself. */
  lemma OwnWin(s: Sys, i: nat)
    requires Core(s) && i < |s.callers| && CallerOk(s.hist, s.wins, i, s.callers[i])
    requires s.callers[i].pc.Transfer? || s.callers[i].pc.Persist?
    ensures Reached(s, i, s.callers[i].snap.state)
    ensures s.callers[i].snap.state == if s.callers[i].pc.Transfer? then Uploading else Uploaded
  {
    var at := s.callers[i].snap.version - s.hist[0].version;
    assert s.hist[at - 1 + 1].state == s.callers[i].snap.state;
  }

  lemma {:induction false} TransferMoves(cfg: Config, s: Sys, i: nat, c: Choice)
    requires Fits(cfg, s) && Core(s) && i < |s.callers| && CallerOk(s.hist, s.wins, i, s.callers[i])
    requires s.callers[i].pc.Transfer?
    ensures Moved(s, StepCaller(cfg, s, i, c), i)
  {
    OwnWin(s, i);
    EffectsFrame(s, StepCaller(cfg, s, i, c), i);
  }

  lemma NoMediaYet(s: Sys, i: nat)
    requires Core(s) && i < |s.callers| && CallerOk(s.hist, s.wins, i, s.callers[i]) && s.callers[i].pc == Persist
    ensures s.media == [] && Reached(s, i, Uploaded)
  {
    OwnWin(s, i);
    if s.media != [] { ReachedOnce(s, i, s.media[0], Uploaded); }
  }

  /** Two callers cannot both reach `Persist`: the record enters `uploaded` once. */
  lemma {:induction false} PersistMoves(cfg: Config, s: Sys, i: nat, c: Choice)
    requires Fits(cfg, s) && Core(s) && i < |s.callers| && CallerOk(s.hist, s.wins, i, s.callers[i])
    requires s.callers[i].pc == Persist
    ensures Moved(s, StepCaller(cfg, s, i, c), i)
  {
    NoMediaYet(s, i);
    EffectsFrame(s, StepCaller(cfg, s, i, c), i);
  }

  /** Every step of a caller keeps the core, provided its EXEC finds its snapshot the latest record. */
  lemma CallerMoves(cfg: Config, s: Sys, i: nat, c: Choice)
    requires Fits(cfg, s) && Core(s) && i < |s.callers| && CallerOk(s.hist, s.wins, i, s.callers[i])
    requires s.callers[i].pc.CasExec? && !s.conns[cfg.conn[i]].dirty ==> s.callers[i].snap == s.hist[|s.hist| - 1]
    ensures Moved(s, StepCaller(cfg, s, i, c), i)
  {
    match s.callers[i].pc
    case NotStarted => StartMoves(cfg, s, i, c);
    case CasWatch(_, _) => ReadMoves(cfg, s, i, c);
    case CasGet(_, _) => ReadMoves(cfg, s, i, c);
    case CasExec(_, _, _) =>
      if s.conns[cfg.conn[i]].dirty { ExecAbortedMoves(cfg, s, i, c); } else { ExecWonMoves(cfg, s, i, c); }
    case CasUnwatch(_, _, _, _) => UnwatchMoves(cfg, s, i, c);
    case ChunkChecks => ChunkChecksMoves(cfg, s, i, c);
    case ChunkWrite => ChunkWriteMoves(cfg, s, i, c);
    case ChunkTouch => ChunkWriteMoves(cfg, s, i, c);
    case FinishSniff => FinishSniffMoves(cfg, s, i, c);
    case FinishReady => FinishMoves(cfg, s, i, c);
    case FinishPrepare => FinishMoves(cfg, s, i, c);
    case DropRecord => FinishMoves(cfg, s, i, c);
    case Transfer(_) => TransferMoves(cfg, s, i, c);
    case Persist => PersistMoves(cfg, s, i, c);
    case Done => Quiet(s, StepCaller(cfg, s, i, c), i);
  }

  // ---------------------------------------------------- all callers, undisturbed

  lemma CallerFrame(hist: seq<Status>, wins: seq<Win>, hist': seq<Status>, wins': seq<Win>, j: nat, k: Caller)
    requires |hist| == |wins| + 1 && |hist'| == |wins'| + 1
    requires hist <= hist' && wins <= wins' && CallerOk(hist, wins, j, k)
    ensures CallerOk(hist', wins', j, k)
  {
  }

  /** Between WATCH and EXEC a connection that stays clear means the key stays as it is:
      a write to the key dirties whoever watches it. */
  lemma {:induction false} CasConnKeeps(cfg: Config, s: Sys, i: nat, j: nat)
    requires Fits(cfg, s) && i < |s.callers| && j < |s.callers| && Alone(cfg, s, i)
    requires s.callers[i].pc.CasWatch? || s.callers[i].pc.CasGet? || s.callers[i].pc.CasUnwatch?
    requires ConnOk(s.cell, s.conns[cfg.conn[i]], s.callers[i].pc)
    requires ConnOk(s.cell, s.conns[cfg.conn[j]], s.callers[j].pc)
    ensures var s' := StepCas(s, i, cfg.conn[i]); ConnOk(s'.cell, s'.conns[cfg.conn[j]], s'.callers[j].pc)
  {
  }

  lemma {:induction false} ExecConnKeeps(cfg: Config, s: Sys, i: nat, j: nat)
    requires Fits(cfg, s) && i < |s.callers| && j < |s.callers| && Alone(cfg, s, i) && s.callers[i].pc.CasExec?
    requires ConnOk(s.cell, s.conns[cfg.conn[j]], s.callers[j].pc)
    ensures var s' := StepCas(s, i, cfg.conn[i]); ConnOk(s'.cell, s'.conns[cfg.conn[j]], s'.callers[j].pc)
  {
  }

  /** A step outside a CAS leaves the key and its watchers alone, or dirties the watchers. */
  ghost predicate Brushed(s: Sys, s': Sys) {
    && |s'.conns| == |s.conns|
    && ((s'.cell == s.cell && s'.conns == s.conns) || s'.conns == Touched(s.conns))
  }

  lemma {:induction false} ChunkBrushes(cfg: Config, s: Sys, i: nat, c: Choice)
    requires Fits(cfg, s) && i < |s.callers|
    requires s.callers[i].pc in {NotStarted, ChunkChecks, ChunkWrite, ChunkTouch}
    ensures var s' := StepCaller(cfg, s, i, c);
            Brushed(s, s') && !s'.callers[i].pc.CasGet? && !s'.callers[i].pc.CasExec?
  {
  }

  lemma {:induction false} FinishBrushes(cfg: Config, s: Sys, i: nat, c: Choice)
    requires Fits(cfg, s) && i < |s.callers|
    requires || s.callers[i].pc in {FinishSniff, FinishReady, FinishPrepare, Persist, DropRecord, Done}
             || s.callers[i].pc.Transfer?
    ensures var s' := StepCaller(cfg, s, i, c);
            Brushed(s, s') && !s'.callers[i].pc.CasGet? && !s'.callers[i].pc.CasExec?
  {
  }

  lemma BrushedConn(s: Sys, s': Sys, n: nat, pc: Pc)
    requires Brushed(s, s') && n < |s.conns| && ConnOk(s.cell, s.conns[n], pc)
    ensures ConnOk(s'.cell, s'.conns[n], pc)
  {
  }

  lemma {:induction false} ConnKeeps(cfg: Config, s: Sys, i: nat, c: Choice, j: nat)
    requires Fits(cfg, s) && i < |s.callers| && j < |s.callers| && Alone(cfg, s, i)
    requires ConnOk(s.cell, s.conns[cfg.conn[i]], s.callers[i].pc)
    requires ConnOk(s.cell, s.conns[cfg.conn[j]], s.callers[j].pc)
    requires Moved(s, StepCaller(cfg, s, i, c), i) && Fits(cfg, StepCaller(cfg, s, i, c))
    ensures var s' := StepCaller(cfg, s, i, c); ConnOk(s'.cell, s'.conns[cfg.conn[j]], s'.callers[j].pc)
  {
    var pc := s.callers[i].pc;
    if pc.CasExec? {
      ExecConnKeeps(cfg, s, i, j);
    } else if pc.CasWatch? || pc.CasGet? || pc.CasUnwatch? {
      CasConnKeeps(cfg, s, i, j);
    } else {
      if pc in {NotStarted, ChunkChecks, ChunkWrite, ChunkTouch} {
        ChunkBrushes(cfg, s, i, c);
      } else {
        FinishBrushes(cfg, s, i, c);
      }
      BrushedConn(s, StepCaller(cfg, s, i, c), cfg.conn[j], s.callers[j].pc);
    }
  }

  lemma {:induction false} MoveKeeps(cfg: Config, s: Sys, i: nat, c: Choice)
    requires Inv(cfg, s) && i < |s.callers| && Alone(cfg, s, i)
    ensures Inv(cfg, Step(cfg, s, Move(i, c)))
  {
    var s' := StepCaller(cfg, s, i, c);
    assert CallerOk(s.hist, s.wins, i, s.callers[i]) && ConnOk(s.cell, s.conns[cfg.conn[i]], s.callers[i].pc);
    CallerMoves(cfg, s, i, c);
    assert Fits(cfg, s') by { assert s' == Step(cfg, s, Move(i, c)); }
    forall j | 0 <= j < |s.callers|
      ensures CallerOk(s'.hist, s'.wins, j, s'.callers[j])
      ensures ConnOk(s'.cell, s'.conns[cfg.conn[j]], s'.callers[j].pc)
    {
      ConnKeeps(cfg, s, i, c, j);
      if j != i { CallerFrame(s.hist, s.wins, s'.hist, s'.wins, j, s.callers[j]); }
    }
  }

  lemma EffectsSame(s: Sys, s': Sys)
    requires |s.hist| == |s.wins| + 1 && EffectsOk(s)
    requires s' == s.(cell := s'.cell, conns := s'.conns)
    ensures EffectsOk(s')
  {
    forall j, st ensures Reached(s, j, st) <==> Reached(s', j, st) {}
  }

  /** Commands of aborts and of other uploads. */
  lemma {:induction false} OutsideKeeps(cfg: Config, s: Sys, e: Event)
    requires Inv(cfg, s) && !e.Move? && Harmless(cfg, s, e)
    ensures Inv(cfg, Step(cfg, s, e))
  {
    var s' := Step(cfg, s, e);
    EffectsSame(s, s');
    forall j | 0 <= j < |s.callers| ensures ConnOk(s'.cell, s'.conns[cfg.conn[j]], s'.callers[j].pc) {
      assert ConnOk(s.cell, s.conns[cfg.conn[j]], s.callers[j].pc);
    }
  }

  lemma {:induction false} RunKeeps(cfg: Config, s: Sys, es: seq<Event>)
    requires Inv(cfg, s) && Undisturbed(cfg, s, es)
    ensures Inv(cfg, Run(cfg, s, es))
    decreases |es|
  {
    if es != [] {
      if es[0].Move? {
        if es[0].i < |s.callers| { MoveKeeps(cfg, s, es[0].i, es[0].c); }
      } else {
        OutsideKeeps(cfg, s, es[0]);
      }
      RunKeeps(cfg, Step(cfg, s, es[0]), es[1..]);
    }
  }

  lemma InitialInv(cfg: Config, s: Sys)
    requires Initial(cfg, s)
    ensures Inv(cfg, s)
  {
    assert WellFormedAt(s.hist, 0);
  }
}
