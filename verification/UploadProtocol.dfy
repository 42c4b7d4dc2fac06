/** Concurrent `writeChunk`, `finish` and `abort` calls on one upload, one Redis
    command or foreign call at a time. The per-upload lock is NOT assumed: every
    interleaving is a run, as when the lock's lease is lost.

    Each caller issues its commands on connection `cfg.conn[i]`. As in Redis, a
    connection carries its WATCH and a dirty flag, EXEC and UNWATCH clear both,
    and any write to the watched key (SET, DEL, EXPIRE, expiry) sets the flag.
    Calls on other uploads use the connections in `cfg.shared` at any time: their
    EXEC and UNWATCH clear such a connection, a write to a key they watch dirties it. */
module UploadProtocol {
  import opened Common
  import opened UploadRecord

  datatype Config = Config(conn: seq<nat>, shared: set<nat>, attempts: nat)

  datatype Job = WriteChunk(index: nat, length: nat) | Finish

  /** The places of the service that call `patchAndSync`. */
  datatype Site =
    | ToReceiving | ChunkMime | Progress                  // writeChunk
    | FinishMime | ToReady | ToUploading | ToUploaded     // finish
    | ToErrorRemote | ToErrorMedia

  datatype Pc =
    | NotStarted
    | CasWatch(site: Site, patch: Patch)
    | CasGet(site: Site, patch: Patch)
    | CasExec(site: Site, patch: Patch, cur: Status)
    | CasUnwatch(site: Site, patch: Patch, won: bool, left: nat)
    | ChunkChecks | ChunkWrite | ChunkTouch
    | FinishSniff | FinishReady | FinishPrepare
    | Transfer(attempt: nat) | Persist | DropRecord
    | Done

  datatype Caller = Caller(job: Job, pc: Pc, snap: Status)

  datatype Conn = Conn(watching: bool, dirty: bool)

  const CLEAR := Conn(false, false)

  datatype Win = Win(who: nat, patch: Patch)

  datatype Sys = Sys(
    cell: Option<Status>,     // the key upload:<id>
    conns: seq<Conn>,
    callers: seq<Caller>,
    hist: seq<Status>,        // every record ever stored, in order
    wins: seq<Win>,           // wins[k] stored hist[k + 1]
    transfers: seq<nat>,      // callers of storage.uploadFile
    media: seq<nat>)          // callers whose media.createFile succeeded

  /** What a sniff of the content says. */
  datatype Sniff = Unknown | Allowed(mime: string) | Disallowed

  /** The outcome the environment picks for a step. */
  datatype Choice = Choice(ok: bool, transient: bool, now: int, sniff: Sniff, path: string)

  /** `Vanish` is the DEL of an abort or of an expired session, or the expiry of the key.
      `Settle` and `Spoil` are commands of calls on other uploads on connection n. */
  datatype Event = Move(i: nat, c: Choice) | Vanish | Settle(n: nat) | Spoil(n: nat)

  predicate Fits(cfg: Config, s: Sys) {
    && |s.callers| == |cfg.conn|
    && forall i :: 0 <= i < |cfg.conn| ==> cfg.conn[i] < |s.conns|
  }

  // --------------------------------------------------------------- commands

  function Touched(conns: seq<Conn>): (r: seq<Conn>)
    ensures |r| == |conns|
    ensures forall n :: 0 <= n < |r| ==>
              r[n] == if conns[n].watching then Conn(true, true) else conns[n]
  {
    seq(|conns|, n requires 0 <= n < |conns| =>
      if conns[n].watching then Conn(true, true) else conns[n])
  }

  function DeleteKey(s: Sys): Sys {
    if s.cell.None? then s else s.(cell := None, conns := Touched(s.conns))
  }

  function ExpireKey(s: Sys): Sys {
    if s.cell.None? then s else s.(conns := Touched(s.conns))
  }

  function Goto(s: Sys, i: nat, pc: Pc): Sys
    requires i < |s.callers|
  {
    s.(callers := s.callers[i := s.callers[i].(pc := pc)])
  }

  function WatchKey(s: Sys, n: nat): Sys
    requires n < |s.conns|
  {
    s.(conns := s.conns[n := s.conns[n].(watching := true)])
  }

  function Unwatch(s: Sys, n: nat): Sys
    requires n < |s.conns|
  {
    s.(conns := s.conns[n := CLEAR])
  }

  function Dirtied(s: Sys, n: nat): Sys
    requires n < |s.conns|
  {
    s.(conns := s.conns[n := s.conns[n].(dirty := true)])
  }

  /** MULTI, SET, EXEC: aborted when the connection is dirty. */
  function ExecSet(s: Sys, n: nat, i: nat, rec: Status, patch: Patch): Sys
    requires n < |s.conns|
  {
    if s.conns[n].dirty then Unwatch(s, n)
    else
      s.(cell := Some(rec),
         conns := Touched(s.conns[n := CLEAR]),
         hist := s.hist + [rec],
         wins := s.wins + [Win(i, patch)])
  }

  // ------------------------------------------------------------------- steps

  function Normalize(rec: Status): Status {
    rec.(receivedIndexes := EnsureSortedUnique(rec.receivedIndexes))
  }

  /** Where a call goes after `mustGetActive` returned `rec`. */
  function AfterLoad(job: Job, rec: Status, now: int): Pc {
    if now > rec.expiresAt then Done
    else
      match job
      case WriteChunk(_, _) =>
        if rec.state == Init then CasWatch(ToReceiving, StatePatch(Receiving))
        else if rec.state == Receiving then ChunkChecks
        else Done
      case Finish =>
        if |rec.receivedIndexes| != rec.totalChunks then Done
        else if exists k :: 0 <= k < rec.totalChunks && rec.receivedIndexes[k] != k then Done
        else if rec.state == Receiving || rec.state == ReadyToUpload then FinishSniff
        else Done
  }

  /** Where a call goes when the CAS of `site` is over. */
  function AfterCas(site: Site, won: bool): Pc {
    match site
    case ToReceiving => if won then ChunkChecks else Done
    case ChunkMime => ChunkWrite                       // a conflict is swallowed here
    case Progress => if won then ChunkTouch else Done
    case FinishMime => if won then FinishReady else Done
    case ToReady => if won then FinishPrepare else Done
    case ToUploading => if won then Transfer(1) else CasWatch(ToErrorRemote, StatePatch(Error))
    case ToErrorRemote => Done
    case ToUploaded => if won then Persist else Done
    case ToErrorMedia => DropRecord
  }

  function ChunkAccepted(job: Job, snap: Status): bool {
    job.WriteChunk? && job.index < snap.totalChunks && job.length == ChunkLength(snap, job.index)
  }

  /** Bounds, length and first-chunk sniff. */
  function StepChunkChecks(s: Sys, i: nat, c: Choice): Sys
    requires i < |s.callers|
  {
    var k := s.callers[i];
    if !ChunkAccepted(k.job, k.snap) then Goto(s, i, Done)
    else if k.job.index != 0 then Goto(s, i, ChunkWrite)
    else
      match c.sniff
      case Unknown => Goto(s, i, ChunkWrite)
      case Disallowed => DeleteKey(Goto(s, i, ChunkWrite))   // its exception is swallowed
      case Allowed(m) =>
        if m == "" || m == k.snap.mime then Goto(s, i, ChunkWrite)
        else Goto(s, i, CasWatch(ChunkMime, MimePatch(m)))
  }

  function StepFinishSniff(s: Sys, i: nat, c: Choice): Sys
    requires i < |s.callers|
  {
    match c.sniff
    case Unknown => Goto(s, i, FinishReady)
    case Disallowed => DeleteKey(Goto(s, i, FinishReady))    // its exception is swallowed
    case Allowed(m) =>
      if m == "" || m == s.callers[i].snap.mime then Goto(s, i, FinishReady)
      else Goto(s, i, CasWatch(FinishMime, MimePatch(m)))
  }

  function StepCas(s: Sys, i: nat, n: nat): Sys
    requires i < |s.callers| && n < |s.conns|
    requires s.callers[i].pc.CasWatch? || s.callers[i].pc.CasGet?
          || s.callers[i].pc.CasExec? || s.callers[i].pc.CasUnwatch?
  {
    var k := s.callers[i];
    match k.pc
    case CasWatch(site, p) => Goto(WatchKey(s, n), i, CasGet(site, p))
    case CasGet(site, p) =>
      if s.cell.None? || s.cell.value.version != k.snap.version
      then Goto(s, i, CasUnwatch(site, p, false, 2))
      else Goto(s, i, CasExec(site, p, s.cell.value))
    case CasExec(site, p, cur) =>
      Goto(ExecSet(s, n, i, MergeStatus(cur, p), p), i,
           CasUnwatch(site, p, !s.conns[n].dirty, 1))
    case CasUnwatch(site, p, won, left) =>
      if left > 1 then Goto(Unwatch(s, n), i, CasUnwatch(site, p, won, left - 1))
      else
        var snap' := if won then Sync(k.snap, p) else k.snap;
        var t := Unwatch(s, n);
        t.(callers := t.callers[i := k.(pc := AfterCas(site, won), snap := snap')])
  }

  function StepCaller(cfg: Config, s: Sys, i: nat, c: Choice): Sys
    requires Fits(cfg, s) && i < |s.callers|
  {
    var k := s.callers[i];
    match k.pc
    case NotStarted =>
      if s.cell.None? then Goto(s, i, Done)
      else
        var rec := Normalize(s.cell.value);
        s.(callers := s.callers[i := k.(pc := AfterLoad(k.job, rec, c.now), snap := rec)])
    case CasWatch(_, _) => StepCas(s, i, cfg.conn[i])
    case CasGet(_, _) => StepCas(s, i, cfg.conn[i])
    case CasExec(_, _, _) => StepCas(s, i, cfg.conn[i])
    case CasUnwatch(_, _, _, _) => StepCas(s, i, cfg.conn[i])
    case ChunkChecks => StepChunkChecks(s, i, c)
    case ChunkWrite =>
      if k.job.WriteChunk? && (k.job.index in k.snap.receivedIndexes || c.ok)
      then Goto(s, i, CasWatch(Progress, ProgressPatch(k.snap, k.job.index, k.job.length)))
      else Goto(s, i, Done)
    case ChunkTouch => ExpireKey(Goto(s, i, Done))
    case FinishSniff => StepFinishSniff(s, i, c)
    case FinishReady => Goto(s, i, CasWatch(ToReady, ReadyPatch(c.path)))
    case FinishPrepare =>
      // assertTempReady and ensureRemoteDir
      Goto(s, i, if c.ok then CasWatch(ToUploading, StatePatch(Uploading))
                 else CasWatch(ToErrorRemote, StatePatch(Error)))
    case Transfer(a) =>
      var t := s.(transfers := s.transfers + [i]);
      Goto(t, i, if c.ok then CasWatch(ToUploaded, StatePatch(Uploaded))
                 else if c.transient && a < cfg.attempts then Transfer(a + 1)
                 else CasWatch(ToErrorRemote, StatePatch(Error)))
    case Persist =>
      if c.ok then Goto(s.(media := s.media + [i]), i, DropRecord)
      else Goto(s, i, CasWatch(ToErrorMedia, StatePatch(Error)))
    case DropRecord => if c.ok then DeleteKey(Goto(s, i, Done)) else Goto(s, i, Done)
    case Done => s
  }

  function Step(cfg: Config, s: Sys, e: Event): (s': Sys)
    requires Fits(cfg, s)
    ensures Fits(cfg, s')
  {
    match e
    case Vanish => DeleteKey(s)
    case Settle(n) => if n in cfg.shared && n < |s.conns| then Unwatch(s, n) else s
    case Spoil(n) => if n in cfg.shared && n < |s.conns| then Dirtied(s, n) else s
    case Move(i, c) => if i < |s.callers| then StepCaller(cfg, s, i, c) else s
  }

  function Run(cfg: Config, s: Sys, es: seq<Event>): (s': Sys)
    requires Fits(cfg, s)
    ensures Fits(cfg, s')
    decreases |es|
  {
    if es == [] then s else Run(cfg, Step(cfg, s, es[0]), es[1..])
  }

  lemma {:induction false} RunAppend(cfg: Config, s: Sys, a: seq<Event>, b: seq<Event>)
    requires Fits(cfg, s)
    ensures Run(cfg, s, a + b) == Run(cfg, Run(cfg, s, a), b)
    decreases |a|
  {
    if a == [] {
      assert a + b == b;
    } else {
      assert (a + b)[1..] == a[1..] + b;
      RunAppend(cfg, Step(cfg, s, a[0]), a[1..], b);
    }
  }

  lemma {:induction false} RunSnoc(cfg: Config, s: Sys, es: seq<Event>, e: Event)
    requires Fits(cfg, s)
    ensures Run(cfg, s, es + [e]) == Step(cfg, Run(cfg, s, es), e)
  {
    RunAppend(cfg, s, es, [e]);
    var t := Run(cfg, s, es);
    assert Run(cfg, Step(cfg, t, e), [e][1..]) == Step(cfg, t, e);
  }

  /** One more event after a run. */
  lemma Then(cfg: Config, s: Sys, es: seq<Event>, t: Sys, e: Event) returns (es': seq<Event>, t': Sys)
    requires Fits(cfg, s) && t == Run(cfg, s, es)
    ensures es' == es + [e] && Fits(cfg, t) && t' == Step(cfg, t, e) && t' == Run(cfg, s, es')
  {
    RunSnoc(cfg, s, es, e);
    es', t' := es + [e], Step(cfg, t, e);
  }

  /** No call in flight; the record is one no `finish` has taken to `uploading`. */
  ghost predicate Initial(cfg: Config, s: Sys) {
    && Fits(cfg, s)
    && |s.hist| == 1 && s.wins == [] && s.transfers == [] && s.media == []
    && s.cell == Some(s.hist[0])
    && WellFormed(s.hist[0])
    && s.hist[0].state in {Init, Receiving, ReadyToUpload}
    && (forall i :: 0 <= i < |s.callers| ==> s.callers[i].pc == NotStarted)
    && (forall n :: 0 <= n < |s.conns| ==> s.conns[n] == CLEAR)
  }

  /** Every caller has a connection of its own, which no other upload uses either. */
  ghost predicate Exclusive(cfg: Config) {
    && (forall i, j :: 0 <= i < j < |cfg.conn| ==> cfg.conn[i] != cfg.conn[j])
    && (forall i :: 0 <= i < |cfg.conn| ==> cfg.conn[i] !in cfg.shared)
  }

  /** No other caller is between WATCH and EXEC on caller i's connection. */
  ghost predicate Alone(cfg: Config, s: Sys, i: nat)
    requires Fits(cfg, s) && i < |s.callers|
  {
    forall j :: 0 <= j < |s.callers| && j != i && cfg.conn[j] == cfg.conn[i] ==>
      !s.callers[j].pc.CasGet? && !s.callers[j].pc.CasExec?
  }

  /** No caller is between WATCH and EXEC on connection n. */
  ghost predicate Unused(cfg: Config, s: Sys, n: nat)
    requires Fits(cfg, s)
  {
    forall j :: 0 <= j < |s.callers| && cfg.conn[j] == n ==> !s.callers[j].pc.CasGet? && !s.callers[j].pc.CasExec?
  }

  ghost predicate Harmless(cfg: Config, s: Sys, e: Event)
    requires Fits(cfg, s)
  {
    && (e.Move? && e.i < |s.callers| ==> Alone(cfg, s, e.i))
    && (e.Settle? && e.n in cfg.shared ==> Unused(cfg, s, e.n))
  }

  /** Nobody clears a connection on which another caller's CAS is open. */
  ghost predicate Undisturbed(cfg: Config, s: Sys, es: seq<Event>)
    requires Fits(cfg, s)
    decreases |es|
  {
    es != [] ==> Harmless(cfg, s, es[0]) && Undisturbed(cfg, Step(cfg, s, es[0]), es[1..])
  }

  /** At most one call hands the file to the storage driver, and at most one media record exists. */
  ghost predicate AtMostOneUpload(s: Sys) {
    && (forall a, b :: 0 <= a < |s.transfers| && 0 <= b < |s.transfers| ==> s.transfers[a] == s.transfers[b])
    && |s.media| <= 1
  }

  // ------------------------------------------------------------- progress order

  predicate AllowedMove(a: UploadState, b: UploadState) {
    match a
    case Init => b == Receiving
    case Receiving => b == Receiving || b == ReadyToUpload
    case ReadyToUpload => b == ReadyToUpload || b == Uploading || b == Error
    case Uploading => b == Uploaded || b == Error
    case Uploaded => b == Error
    case Error => false
  }

  /** What one winning patch may do to the record. */
  ghost predicate Edge(a: Status, b: Status) {
    && b.version == a.version + 1
    && b.userId == a.userId && b.size == a.size && b.chunkSize == a.chunkSize
    && b.totalChunks == a.totalChunks && b.createdAt == a.createdAt && b.expiresAt == a.expiresAt
    && a.receivedBytes <= b.receivedBytes
    && (forall x :: x in a.receivedIndexes ==> x in b.receivedIndexes)
    && (a.state != Receiving ==> b.receivedIndexes == a.receivedIndexes)
    && AllowedMove(a.state, b.state)
  }

  // ----------------------------------------------------------- the patches sent

  ghost predicate FinishOk(snap: Status) {
    Complete(snap) && snap.state in {Receiving, ReadyToUpload}
  }

  ghost predicate SiteOk(job: Job, site: Site, p: Patch, snap: Status) {
    match site
    case ToReceiving => snap.state == Init && job.WriteChunk? && p == StatePatch(Receiving)
    case ChunkMime =>
      snap.state == Receiving && ChunkAccepted(job, snap)
      && p.mime.Some? && p.mime.value != "" && p == MimePatch(p.mime.value)
    case Progress =>
      snap.state == Receiving && ChunkAccepted(job, snap)
      && p == ProgressPatch(snap, job.index, job.length)
    case FinishMime =>
      FinishOk(snap) && p.mime.Some? && p.mime.value != "" && p == MimePatch(p.mime.value)
    case ToReady =>
      FinishOk(snap) && p.remotePath.Some? && p == ReadyPatch(p.remotePath.value)
    case ToUploading => snap.state == ReadyToUpload && p == StatePatch(Uploading)
    case ToErrorRemote => snap.state in {ReadyToUpload, Uploading} && p == StatePatch(Error)
    case ToUploaded => snap.state == Uploading && p == StatePatch(Uploaded)
    case ToErrorMedia => snap.state == Uploaded && p == StatePatch(Error)
  }

  ghost predicate PcOk(job: Job, pc: Pc, snap: Status) {
    match pc
    case NotStarted => true
    case CasWatch(site, p) => SiteOk(job, site, p, snap)
    case CasGet(site, p) => SiteOk(job, site, p, snap)
    case CasExec(site, p, cur) => SiteOk(job, site, p, snap) && cur == snap
    case CasUnwatch(site, p, won, left) => SiteOk(job, site, p, snap)
    case ChunkChecks => snap.state == Receiving
    case ChunkWrite => snap.state == Receiving && ChunkAccepted(job, snap)
    case ChunkTouch => true
    case FinishSniff => FinishOk(snap)
    case FinishReady => FinishOk(snap)
    case FinishPrepare => snap.state == ReadyToUpload
    case Transfer(_) => snap.state == Uploading
    case Persist => snap.state == Uploaded
    case DropRecord => true
    case Done => true
  }

  lemma {:induction false} SiteExtends(job: Job, site: Site, p: Patch, snap: Status)
    requires StrictlyIncreasing(snap.receivedIndexes) && SiteOk(job, site, p, snap)
    ensures Extends(snap, p) && Sync(snap, p) == MergeStatus(snap, p)
  {
    if site == Progress {
      ProgressAddsIndex(snap, job.index, job.length);
    } else {
      SnapshotEqualsRecord(snap, p);
    }
  }

  /** A change of type, state and path alone keeps the record well formed. */
  lemma {:induction false} MoveEdge(snap: Status, m: Status)
    requires WellFormed(snap) && AllowedMove(snap.state, m.state)
    requires m == snap.(mime := m.mime, state := m.state, remotePath := m.remotePath, version := snap.version + 1)
    requires m.state == Init ==> snap.state == Init
    requires m.state !in {Init, Receiving} ==> Complete(snap)
    ensures WellFormed(m) && Edge(snap, m)
  {
  }

  /** A patch without progress: one allowed move, everything else in place. */
  lemma {:induction false} StateSiteEdge(job: Job, site: Site, p: Patch, snap: Status)
    requires WellFormed(snap) && SiteOk(job, site, p, snap) && site != Progress
    ensures WellFormed(MergeStatus(snap, p)) && Edge(snap, MergeStatus(snap, p))
  {
    NoProgressKeepsIndexes(snap, p);
    var m := MergeStatus(snap, p);
    assert m == snap.(mime := m.mime, state := m.state, remotePath := m.remotePath, version := snap.version + 1);
    assert m.state == Get(p.state, snap.state);
    MoveEdge(snap, m);
  }

  /** What each patch of the service does to the record it was computed from. */
  lemma {:induction false} SiteEdge(job: Job, site: Site, p: Patch, snap: Status)
    requires WellFormed(snap) && SiteOk(job, site, p, snap)
    ensures Extends(snap, p)
    ensures Sync(snap, p) == MergeStatus(snap, p)
    ensures WellFormed(MergeStatus(snap, p))
    ensures Edge(snap, MergeStatus(snap, p))
  {
    SiteExtends(job, site, p, snap);
    if site == Progress {
      ProgressAddsIndex(snap, job.index, job.length);
      ProgressKeepsWellFormed(snap, job.index);
    } else {
      StateSiteEdge(job, site, p, snap);
    }
  }
}
