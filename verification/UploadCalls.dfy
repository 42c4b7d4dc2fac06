/** A call that nothing comes between, taken through its commands one by one: a `writeChunk`
    records its index, a `finish` stores the file and ends the session. */
module UploadCalls {
  import opened Common
  import opened UploadProtocol
  import opened UploadRecord

  function Yes(now: int, path: string): Choice {
    Choice(true, false, now, Unknown, path)
  }

  /** Caller i stands at pc with the stored record, on a clear connection. */
  ghost predicate At(cfg: Config, s: Sys, i: nat, job: Job, pc: Pc, rec: Status) {
    && Fits(cfg, s) && i < |s.callers| && s.callers[i] == Caller(job, pc, rec)
    && s.conns[cfg.conn[i]] == CLEAR && s.cell == Some(rec)
  }

  /** No other effects. */
  ghost predicate SameEffects(s: Sys, t: Sys) {
    t.transfers == s.transfers && t.media == s.media
  }

  ghost predicate OnlyMoves(es: seq<Event>, i: nat) {
    forall e :: e in es ==> e.Move? && e.i == i
  }

  /** A CAS that nothing comes between wins. */
  lemma LoneCas(cfg: Config, s0: Sys, es0: seq<Event>, s: Sys, i: nat, job: Job, site: Site, p: Patch, rec: Status,
        c: Choice)
      returns (es: seq<Event>, t: Sys)
    requires Fits(cfg, s0) && s == Run(cfg, s0, es0) && OnlyMoves(es0, i)
    requires At(cfg, s, i, job, CasWatch(site, p), rec) && Sync(rec, p) == MergeStatus(rec, p)
    ensures OnlyMoves(es, i) && t == Run(cfg, s0, es)
    ensures At(cfg, t, i, job, AfterCas(site, true), MergeStatus(rec, p)) && SameEffects(s, t)
  {
    es, t := Then(cfg, s0, es0, s, Move(i, c));
    es, t := Then(cfg, s0, es, t, Move(i, c));
    es, t := Then(cfg, s0, es, t, Move(i, c));
    es, t := Then(cfg, s0, es, t, Move(i, c));
  }

  /** The first read. */
  lemma LoneLoad(cfg: Config, s: Sys, i: nat, job: Job, snap: Status, rec: Status, c: Choice)
      returns (es: seq<Event>, t: Sys)
    requires Fits(cfg, s) && i < |s.callers| && s.callers[i] == Caller(job, NotStarted, snap)
    requires s.conns[cfg.conn[i]] == CLEAR && s.cell == Some(rec) && WellFormed(rec)
    ensures OnlyMoves(es, i) && t == Run(cfg, s, es)
    ensures At(cfg, t, i, job, AfterLoad(job, rec, c.now), rec) && SameEffects(s, t)
  {
    SortedUniqueIsCanonical(EnsureSortedUnique(rec.receivedIndexes), rec.receivedIndexes);
    es, t := Then(cfg, s, [], s, Move(i, c));
  }

  // ----------------------------------------------------------------- writeChunk

  lemma ChunkLoaded(cfg: Config, s: Sys, i: nat, job: Job, snap: Status, rec: Status, c: Choice)
      returns (es: seq<Event>, t: Sys, cur: Status)
    requires Fits(cfg, s) && i < |s.callers| && s.callers[i] == Caller(job, NotStarted, snap) && job.WriteChunk?
    requires s.conns[cfg.conn[i]] == CLEAR && s.cell == Some(rec) && WellFormed(rec)
    requires rec.state in {Init, Receiving} && c.now <= rec.expiresAt
    ensures OnlyMoves(es, i) && t == Run(cfg, s, es)
    ensures At(cfg, t, i, job, ChunkChecks, cur) && SameEffects(s, t)
    ensures WellFormed(cur) && cur == rec.(state := Receiving, version := cur.version)
  {
    es, t := LoneLoad(cfg, s, i, job, snap, rec, c);
    cur := rec;
    if rec.state == Init {
      SiteEdge(job, ToReceiving, StatePatch(Receiving), rec);
      StatePatchMerge(rec, Receiving);
      es, t := LoneCas(cfg, s, es, t, i, job, ToReceiving, StatePatch(Receiving), rec, c);
      cur := MergeStatus(rec, StatePatch(Receiving));
    }
  }

  lemma ChunkWritten(cfg: Config, s0: Sys, es0: seq<Event>, s: Sys, i: nat, job: Job, rec: Status, c: Choice)
      returns (es: seq<Event>, t: Sys)
    requires Fits(cfg, s0) && s == Run(cfg, s0, es0) && OnlyMoves(es0, i)
    requires At(cfg, s, i, job, ChunkChecks, rec) && WellFormed(rec) && ChunkAccepted(job, rec)
    requires c.ok && c.sniff == Unknown
    ensures OnlyMoves(es, i) && t == Run(cfg, s0, es) && SameEffects(s, t)
    ensures At(cfg, t, i, job, CasWatch(Progress, ProgressPatch(rec, job.index, job.length)), rec)
  {
    es, t := Then(cfg, s0, es0, s, Move(i, c));
    es, t := Then(cfg, s0, es, t, Move(i, c));
  }

  lemma ChunkRecorded(cfg: Config, s0: Sys, es0: seq<Event>, s: Sys, i: nat, job: Job, rec: Status, c: Choice)
      returns (es: seq<Event>, t: Sys)
    requires Fits(cfg, s0) && s == Run(cfg, s0, es0) && OnlyMoves(es0, i) && job.WriteChunk?
    requires At(cfg, s, i, job, CasWatch(Progress, ProgressPatch(rec, job.index, job.length)), rec)
    requires StrictlyIncreasing(rec.receivedIndexes)
    ensures OnlyMoves(es, i) && t == Run(cfg, s0, es) && SameEffects(s, t)
    ensures i < |t.callers| && t.callers[i].pc == Done
    ensures t.cell == Some(MergeStatus(rec, ProgressPatch(rec, job.index, job.length)))
  {
    var p := ProgressPatch(rec, job.index, job.length);
    ProgressAddsIndex(rec, job.index, job.length);
    es, t := LoneCas(cfg, s0, es0, s, i, job, Progress, p, rec, c);
    es, t := Then(cfg, s0, es, t, Move(i, c));
  }

  lemma RecordedAs(rec: Status, cur: Status, k: nat, length: nat)
    requires WellFormed(rec) && cur == rec.(state := Receiving, version := cur.version)
    requires k < rec.totalChunks && length == ChunkLength(cur, k)
    ensures var m := MergeStatus(cur, ProgressPatch(cur, k, length));
            && m == rec.(state := Receiving, version := m.version, receivedIndexes := m.receivedIndexes,
                         receivedBytes := Max(rec.receivedBytes, k * rec.chunkSize + length))
            && forall x :: x in m.receivedIndexes <==> x in rec.receivedIndexes || x == k
  {
    ProgressAddsIndex(cur, k, length);
    ProgressShape(cur, k);
  }

  /** A `writeChunk` on a session that takes chunks, with a chunk of the right length and in
      time, records exactly its index and changes nothing else but the progress. */
  lemma LoneChunk(cfg: Config, s: Sys, i: nat, k: nat, length: nat, snap: Status, rec: Status, now: int)
      returns (es: seq<Event>, t: Sys)
    requires Fits(cfg, s) && i < |s.callers| && s.callers[i] == Caller(WriteChunk(k, length), NotStarted, snap)
    requires s.conns[cfg.conn[i]] == CLEAR && s.cell == Some(rec) && WellFormed(rec)
    requires (rec.state == Init || rec.state == Receiving) && now <= rec.expiresAt && k < rec.totalChunks
    requires length == if rec.size - k * rec.chunkSize < rec.chunkSize then rec.size - k * rec.chunkSize
                       else rec.chunkSize
    ensures OnlyMoves(es, i) && t == Run(cfg, s, es) && i < |t.callers| && t.callers[i].pc == Done
    ensures t.transfers == s.transfers && t.media == s.media && t.cell.Some?
    ensures var m := t.cell.value;
            && m == rec.(state := Receiving, version := m.version, receivedIndexes := m.receivedIndexes,
                         receivedBytes := Max(rec.receivedBytes, k * rec.chunkSize + length))
            && forall x :: x in m.receivedIndexes <==> x in rec.receivedIndexes || x == k
  {
    var job, c, cur := WriteChunk(k, length), Yes(now, ""), rec;
    es, t, cur := ChunkLoaded(cfg, s, i, job, snap, rec, c);
    ChunkLengthMeaning(cur, k);
    es, t := ChunkWritten(cfg, s, es, t, i, job, cur, c);
    es, t := ChunkRecorded(cfg, s, es, t, i, job, cur, c);
    RecordedAs(rec, cur, k, length);
  }

  // --------------------------------------------------------------------- finish

  lemma FinishChecked(cfg: Config, s: Sys, i: nat, snap: Status, rec: Status, c: Choice)
      returns (es: seq<Event>, t: Sys)
    requires Fits(cfg, s) && i < |s.callers| && s.callers[i] == Caller(Finish, NotStarted, snap)
    requires s.conns[cfg.conn[i]] == CLEAR && s.cell == Some(rec) && WellFormed(rec) && Complete(rec)
    requires rec.state in {Receiving, ReadyToUpload} && c.now <= rec.expiresAt && c.sniff == Unknown
    ensures OnlyMoves(es, i) && t == Run(cfg, s, es) && SameEffects(s, t)
    ensures At(cfg, t, i, Finish, CasWatch(ToReady, ReadyPatch(c.path)), rec)
  {
    CompleteMeansEveryChunk(rec);
    es, t := LoneLoad(cfg, s, i, Finish, snap, rec, c);
    assert t.callers[i].pc == FinishSniff;
    es, t := Then(cfg, s, es, t, Move(i, c));
    es, t := Then(cfg, s, es, t, Move(i, c));
  }

  lemma FinishReadied(cfg: Config, s: Sys, i: nat, snap: Status, rec: Status, c: Choice)
      returns (es: seq<Event>, t: Sys, cur: Status)
    requires Fits(cfg, s) && i < |s.callers| && s.callers[i] == Caller(Finish, NotStarted, snap)
    requires s.conns[cfg.conn[i]] == CLEAR && s.cell == Some(rec) && WellFormed(rec) && Complete(rec)
    requires rec.state in {Receiving, ReadyToUpload} && c.now <= rec.expiresAt && c.sniff == Unknown
    ensures OnlyMoves(es, i) && t == Run(cfg, s, es) && SameEffects(s, t)
    ensures At(cfg, t, i, Finish, FinishPrepare, cur) && WellFormed(cur) && cur.state == ReadyToUpload
  {
    es, t := FinishChecked(cfg, s, i, snap, rec, c);
    SiteEdge(Finish, ToReady, ReadyPatch(c.path), rec);
    es, t := LoneCas(cfg, s, es, t, i, Finish, ToReady, ReadyPatch(c.path), rec, c);
    cur := MergeStatus(rec, ReadyPatch(c.path));
  }

  lemma FinishUploading(cfg: Config, s0: Sys, es0: seq<Event>, s: Sys, i: nat, rec: Status, c: Choice)
      returns (es: seq<Event>, t: Sys, cur: Status)
    requires Fits(cfg, s0) && s == Run(cfg, s0, es0) && OnlyMoves(es0, i) && c.ok
    requires At(cfg, s, i, Finish, FinishPrepare, rec) && WellFormed(rec) && rec.state == ReadyToUpload
    ensures OnlyMoves(es, i) && t == Run(cfg, s0, es) && SameEffects(s, t)
    ensures At(cfg, t, i, Finish, Transfer(1), cur) && WellFormed(cur) && cur.state == Uploading
  {
    es, t := Then(cfg, s0, es0, s, Move(i, c));
    SiteEdge(Finish, ToUploading, StatePatch(Uploading), rec);
    es, t := LoneCas(cfg, s0, es, t, i, Finish, ToUploading, StatePatch(Uploading), rec, c);
    cur := MergeStatus(rec, StatePatch(Uploading));
  }

  /** n transient failures of the transfer. */
  lemma {:induction false} Retries(cfg: Config, s0: Sys, es0: seq<Event>, s: Sys, i: nat, rec: Status, n: nat)
      returns (es: seq<Event>, t: Sys)
    requires Fits(cfg, s0) && s == Run(cfg, s0, es0) && OnlyMoves(es0, i)
    requires At(cfg, s, i, Finish, Transfer(1), rec) && n < cfg.attempts
    ensures OnlyMoves(es, i) && t == Run(cfg, s0, es) && At(cfg, t, i, Finish, Transfer(n + 1), rec)
    ensures t.transfers == s.transfers + seq(n, _ => i) && t.media == s.media
  {
    es, t := es0, s;
    if n > 0 {
      es, t := Retries(cfg, s0, es0, s, i, rec, n - 1);
      es, t := Then(cfg, s0, es, t, Move(i, Choice(false, true, 0, Unknown, "")));
    }
  }

  lemma FinishSent(cfg: Config, s0: Sys, es0: seq<Event>, s: Sys, i: nat, n: nat, rec: Status, c: Choice)
      returns (es: seq<Event>, t: Sys, cur: Status)
    requires Fits(cfg, s0) && s == Run(cfg, s0, es0) && OnlyMoves(es0, i) && c.ok
    requires At(cfg, s, i, Finish, Transfer(n), rec) && WellFormed(rec) && rec.state == Uploading
    ensures OnlyMoves(es, i) && t == Run(cfg, s0, es) && At(cfg, t, i, Finish, Persist, cur)
    ensures t.transfers == s.transfers + [i] && t.media == s.media
  {
    es, t := Then(cfg, s0, es0, s, Move(i, c));
    SiteEdge(Finish, ToUploaded, StatePatch(Uploaded), rec);
    es, t := LoneCas(cfg, s0, es, t, i, Finish, ToUploaded, StatePatch(Uploaded), rec, c);
    cur := MergeStatus(rec, StatePatch(Uploaded));
  }

  lemma FinishEnds(cfg: Config, s0: Sys, es0: seq<Event>, s: Sys, i: nat, rec: Status, c: Choice)
      returns (es: seq<Event>, t: Sys)
    requires Fits(cfg, s0) && s == Run(cfg, s0, es0) && OnlyMoves(es0, i) && c.ok
    requires At(cfg, s, i, Finish, Persist, rec)
    ensures OnlyMoves(es, i) && t == Run(cfg, s0, es)
    ensures t.transfers == s.transfers && t.media == s.media + [i] && t.cell.None?
    ensures i < |t.callers| && t.callers[i].pc == Done
  {
    es, t := Then(cfg, s0, es0, s, Move(i, c));
    es, t := Then(cfg, s0, es, t, Move(i, c));
  }

  /** A `finish` on a complete session, in time, whose transfer succeeds after n transient
      failures: n + 1 calls of the storage driver, one media record, and the session ends. */
  lemma LoneFinish(cfg: Config, s: Sys, i: nat, snap: Status, rec: Status, now: int, path: string, n: nat)
      returns (es: seq<Event>, t: Sys)
    requires Fits(cfg, s) && i < |s.callers| && s.callers[i] == Caller(Finish, NotStarted, snap)
    requires s.conns[cfg.conn[i]] == CLEAR && s.cell == Some(rec) && WellFormed(rec)
    requires (rec.state == Receiving || rec.state == ReadyToUpload) && now <= rec.expiresAt && n < cfg.attempts
    requires |rec.receivedIndexes| == rec.totalChunks
    ensures OnlyMoves(es, i) && t == Run(cfg, s, es) && i < |t.callers| && t.callers[i].pc == Done
    ensures t.transfers == s.transfers + seq(n, _ => i) + [i] && t.media == s.media + [i] && t.cell.None?
  {
    var c, cur := Yes(now, path), rec;
    es, t, cur := FinishReadied(cfg, s, i, snap, rec, c);
    es, t, cur := FinishUploading(cfg, s, es, t, i, cur, c);
    es, t := Retries(cfg, s, es, t, i, cur, n);
    es, t, cur := FinishSent(cfg, s, es, t, i, n + 1, cur, c);
    es, t := FinishEnds(cfg, s, es, t, i, cur, c);
  }

  // ------------------------------------------------------------ what makes a CAS lose

  /** The record changes, goes or gets a new TTL by a command of caller j. */
  ghost predicate Writes(cfg: Config, s: Sys, j: nat, c: Choice)
    requires Fits(cfg, s) && j < |s.callers|
  {
    var k := s.callers[j];
    || (k.pc.CasExec? && !s.conns[cfg.conn[j]].dirty)
    || (s.cell.Some? && k.pc == ChunkTouch)
    || (s.cell.Some? && k.pc == DropRecord && c.ok)
    || (s.cell.Some? && c.sniff.Disallowed?
        && (k.pc == FinishSniff || (k.pc == ChunkChecks && ChunkAccepted(k.job, k.snap) && k.job.index == 0)))
  }

  /** On a connection of its own, a caller between WATCH and EXEC loses its CAS by exactly the
      commands of others that write the record, a refresh of its TTL included. */
  lemma {:induction false} LosesIff(cfg: Config, s: Sys, i: nat, e: Event)
    requires Fits(cfg, s) && i < |s.callers| && s.conns[cfg.conn[i]] == Conn(true, false)
    requires cfg.conn[i] !in cfg.shared && (e.Move? ==> e.i != i)
    requires forall j :: 0 <= j < |cfg.conn| && j != i ==> cfg.conn[j] != cfg.conn[i]
    ensures var n := cfg.conn[i];
            && Step(cfg, s, e).conns[n].watching
            && (Step(cfg, s, e).conns[n].dirty <==>
                  || (e == Vanish && s.cell.Some?)
                  || (e.Move? && e.i < |s.callers| && Writes(cfg, s, e.i, e.c)))
  {
    if e.Move? && e.i < |s.callers| { assert cfg.conn[e.i] != cfg.conn[i]; }
  }
}
