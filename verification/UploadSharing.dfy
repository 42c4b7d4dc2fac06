/** Exactly which assignments of connections to callers are safe: two interleaved `finish`
    calls both win their CAS as soon as a connection is shared. */
module UploadSharing {
  import opened Common
  import opened UploadInvariant
  import opened UploadLock
  import opened UploadProtocol
  import opened UploadRecord
  import opened UploadTheorems

  const YES := Choice(true, false, 0, Unknown, "p")

  /** Callers i and j stand at the same point of a `finish` on clear connections; they
      share a connection, or caller i shares its own with other uploads. */
  ghost predicate Twins(cfg: Config, s: Sys, i: nat, j: nat, pc: Pc, snap: Status) {
    && Fits(cfg, s) && i < |s.callers| && j < |s.callers| && i != j
    && s.callers[i] == Caller(Finish, pc, snap) && s.callers[j] == Caller(Finish, pc, snap)
    && s.conns[cfg.conn[i]] == CLEAR && s.conns[cfg.conn[j]] == CLEAR
    && s.cell.Some? && s.cell.value.version == snap.version
  }

  ghost predicate Sharing(cfg: Config, i: nat, j: nat) {
    i < |cfg.conn| && j < |cfg.conn| && (cfg.conn[i] == cfg.conn[j] || cfg.conn[i] in cfg.shared)
  }

  /** A step both twins take, one after the other, that leaves Redis alone. */
  lemma TwinStep(cfg: Config, s0: Sys, es0: seq<Event>, s: Sys, i: nat, j: nat, pc: Pc, snap: Status, next: Pc)
      returns (es: seq<Event>, t: Sys)
    requires Fits(cfg, s0) && s == Run(cfg, s0, es0) && Twins(cfg, s, i, j, pc, snap)
    requires || (pc == FinishSniff && next == FinishReady)
             || (pc == FinishReady && next == CasWatch(ToReady, ReadyPatch("p")))
             || (pc == FinishPrepare && next == CasWatch(ToUploading, StatePatch(Uploading)))
    ensures t == Run(cfg, s0, es) && Twins(cfg, t, i, j, next, snap) && t.transfers == s.transfers
  {
    es, t := Then(cfg, s0, es0, s, Move(i, YES));
    es, t := Then(cfg, s0, es, t, Move(j, YES));
  }

  /** Both have read the record of their snapshot's version. */
  ghost predicate BothRead(cfg: Config, s: Sys, i: nat, j: nat, site: Site, p: Patch, snap: Status, cur: Status) {
    && Fits(cfg, s) && i < |s.callers| && j < |s.callers| && i != j
    && s.callers[i] == Caller(Finish, CasExec(site, p, cur), snap)
    && s.callers[j] == Caller(Finish, CasExec(site, p, cur), snap)
    && cur.version == snap.version
    && s.conns[cfg.conn[i]] == Conn(true, false) && s.conns[cfg.conn[j]] == Conn(true, false)
  }

  lemma TwinReads(cfg: Config, s0: Sys, es0: seq<Event>, s: Sys, i: nat, j: nat, site: Site, p: Patch, snap: Status)
      returns (es: seq<Event>, t: Sys)
    requires Fits(cfg, s0) && s == Run(cfg, s0, es0) && Twins(cfg, s, i, j, CasWatch(site, p), snap)
    ensures t == Run(cfg, s0, es) && BothRead(cfg, t, i, j, site, p, snap, s.cell.value) && t.transfers == s.transfers
  {
    es, t := Then(cfg, s0, es0, s, Move(i, YES));
    es, t := Then(cfg, s0, es, t, Move(i, YES));
    es, t := Then(cfg, s0, es, t, Move(j, YES));
    es, t := Then(cfg, s0, es, t, Move(j, YES));
  }

  /** Both EXECs went through. */
  ghost predicate BothWon(cfg: Config, s: Sys, i: nat, j: nat, site: Site, p: Patch, snap: Status) {
    && Fits(cfg, s) && i < |s.callers| && j < |s.callers| && i != j
    && s.callers[i] == Caller(Finish, CasUnwatch(site, p, true, 1), snap)
    && s.callers[j] == Caller(Finish, CasUnwatch(site, p, true, 1), snap)
    && s.cell.Some? && s.cell.value.version == snap.version + 1
  }

  /** On one connection the first EXEC clears the WATCH of the second caller. */
  lemma BothWinTogether(cfg: Config, s0: Sys, es0: seq<Event>, s: Sys, i: nat, j: nat, site: Site, p: Patch,
        snap: Status, cur: Status)
      returns (es: seq<Event>, t: Sys)
    requires Fits(cfg, s0) && s == Run(cfg, s0, es0)
    requires BothRead(cfg, s, i, j, site, p, snap, cur) && cfg.conn[i] == cfg.conn[j]
    ensures t == Run(cfg, s0, es) && BothWon(cfg, t, i, j, site, p, snap) && t.transfers == s.transfers
  {
    es, t := Then(cfg, s0, es0, s, Move(i, YES));
    assert t.conns[cfg.conn[j]] == CLEAR;
    es, t := Then(cfg, s0, es, t, Move(j, YES));
  }

  /** On two connections a call on another upload clears the WATCH of caller i in between. */
  lemma BothWinApart(cfg: Config, s0: Sys, es0: seq<Event>, s: Sys, i: nat, j: nat, site: Site, p: Patch,
        snap: Status, cur: Status)
      returns (es: seq<Event>, t: Sys)
    requires Fits(cfg, s0) && s == Run(cfg, s0, es0) && BothRead(cfg, s, i, j, site, p, snap, cur)
    requires cfg.conn[i] != cfg.conn[j] && cfg.conn[i] in cfg.shared
    ensures t == Run(cfg, s0, es) && BothWon(cfg, t, i, j, site, p, snap) && t.transfers == s.transfers
  {
    es, t := Then(cfg, s0, es0, s, Move(j, YES));
    es, t := Then(cfg, s0, es, t, Settle(cfg.conn[i]));
    assert t.conns[cfg.conn[i]] == CLEAR;
    es, t := Then(cfg, s0, es, t, Move(i, YES));
  }

  lemma TwinUnwatch(cfg: Config, s0: Sys, es0: seq<Event>, s: Sys, i: nat, j: nat, site: Site, p: Patch, snap: Status)
      returns (es: seq<Event>, t: Sys)
    requires Fits(cfg, s0) && s == Run(cfg, s0, es0) && BothWon(cfg, s, i, j, site, p, snap)
    ensures t == Run(cfg, s0, es) && t.transfers == s.transfers
    ensures Twins(cfg, t, i, j, AfterCas(site, true), Sync(snap, p))
  {
    es, t := Then(cfg, s0, es0, s, Move(i, YES));
    es, t := Then(cfg, s0, es, t, Move(j, YES));
  }

  /** Two CAS on the same version both succeed. */
  lemma TwinCas(cfg: Config, s0: Sys, es0: seq<Event>, s: Sys, i: nat, j: nat, site: Site, p: Patch, snap: Status)
      returns (es: seq<Event>, t: Sys)
    requires Fits(cfg, s0) && s == Run(cfg, s0, es0)
    requires Sharing(cfg, i, j) && Twins(cfg, s, i, j, CasWatch(site, p), snap)
    ensures t == Run(cfg, s0, es) && t.transfers == s.transfers
    ensures Twins(cfg, t, i, j, AfterCas(site, true), Sync(snap, p))
  {
    var cur := s.cell.value;
    es, t := TwinReads(cfg, s0, es0, s, i, j, site, p, snap);
    if cfg.conn[i] == cfg.conn[j] {
      es, t := BothWinTogether(cfg, s0, es, t, i, j, site, p, snap, cur);
    } else {
      es, t := BothWinApart(cfg, s0, es, t, i, j, site, p, snap, cur);
    }
    es, t := TwinUnwatch(cfg, s0, es, t, i, j, site, p, snap);
  }

  /** A record on which `finish` gets past its checks at time 0. */
  ghost predicate Finishable(r: Status) {
    WellFormed(r) && r.state == Receiving && Normalize(r) == r && AfterLoad(Finish, r, 0) == FinishSniff
  }

  lemma TwinsLoad(cfg: Config, s: Sys, i: nat, j: nat, r: Status) returns (es: seq<Event>, t: Sys)
    requires Finishable(r) && Twins(cfg, s, i, j, NotStarted, r) && s.cell == Some(r)
    ensures t == Run(cfg, s, es) && Twins(cfg, t, i, j, FinishSniff, r) && t.transfers == s.transfers
  {
    es, t := Then(cfg, s, [], s, Move(i, YES));
    es, t := Then(cfg, s, es, t, Move(j, YES));
  }

  lemma TwinsTransfer(cfg: Config, s0: Sys, es0: seq<Event>, s: Sys, i: nat, j: nat, snap: Status)
      returns (es: seq<Event>, t: Sys)
    requires Fits(cfg, s0) && s == Run(cfg, s0, es0) && Twins(cfg, s, i, j, Transfer(1), snap)
    ensures t == Run(cfg, s0, es) && t.transfers == s.transfers + [i, j]
  {
    es, t := Then(cfg, s0, es0, s, Move(i, YES));
    es, t := Then(cfg, s0, es, t, Move(j, YES));
  }

  lemma TwinsSniff(cfg: Config, s: Sys, i: nat, j: nat, r: Status) returns (es: seq<Event>, t: Sys)
    requires Finishable(r) && Sharing(cfg, i, j) && Twins(cfg, s, i, j, NotStarted, r) && s.cell == Some(r)
    ensures t == Run(cfg, s, es) && t.transfers == s.transfers
    ensures Twins(cfg, t, i, j, CasWatch(ToReady, ReadyPatch("p")), r)
  {
    es, t := TwinsLoad(cfg, s, i, j, r);
    es, t := TwinStep(cfg, s, es, t, i, j, FinishSniff, r, FinishReady);
    es, t := TwinStep(cfg, s, es, t, i, j, FinishReady, r, CasWatch(ToReady, ReadyPatch("p")));
  }

  /** From the first read to both CAS into `ready-to-upload`. */
  lemma TwinsBothReady(cfg: Config, s: Sys, i: nat, j: nat, r: Status, ready: Patch) returns (es: seq<Event>, t: Sys)
    requires Finishable(r) && Sharing(cfg, i, j) && Twins(cfg, s, i, j, NotStarted, r) && s.cell == Some(r)
    requires ready == ReadyPatch("p")
    ensures t == Run(cfg, s, es) && t.transfers == s.transfers && Twins(cfg, t, i, j, FinishPrepare, Sync(r, ready))
  {
    es, t := TwinsSniff(cfg, s, i, j, r);
    es, t := TwinCas(cfg, s, es, t, i, j, ToReady, ready, r);
  }

  /** From the first read to both transfers. */
  lemma TwinsBothUpload(cfg: Config, s: Sys, i: nat, j: nat, r: Status) returns (es: seq<Event>, t: Sys)
    requires Finishable(r) && Sharing(cfg, i, j) && Twins(cfg, s, i, j, NotStarted, r) && s.cell == Some(r)
    ensures t == Run(cfg, s, es) && t.transfers == s.transfers + [i, j]
  {
    var ready, uploading := ReadyPatch("p"), StatePatch(Uploading);
    es, t := TwinsBothReady(cfg, s, i, j, r, ready);
    var r1 := Sync(r, ready);
    es, t := TwinStep(cfg, s, es, t, i, j, FinishPrepare, r1, CasWatch(ToUploading, uploading));
    es, t := TwinCas(cfg, s, es, t, i, j, ToUploading, uploading, r1);
    es, t := TwinsTransfer(cfg, s, es, t, i, j, Sync(r1, uploading));
  }

  lemma {:induction false} AboveAll(conn: seq<nat>) returns (n: nat)
    ensures forall i :: 0 <= i < |conn| ==> conn[i] < n
  {
    n := 0;
    if conn != [] {
      n := AboveAll(conn[..|conn| - 1]);
      n := Max(n, conn[|conn| - 1] + 1);
    }
  }

  /** A one-chunk upload whose chunk is in, and only `finish` calls to come. */
  ghost predicate AllFinish(cfg: Config, s: Sys, r: Status) {
    && (forall i :: 0 <= i < |s.callers| ==> s.callers[i] == Caller(Finish, NotStarted, r))
    && Fits(cfg, s) && (forall n :: 0 <= n < |s.conns| ==> s.conns[n] == CLEAR)
    && s.cell == Some(r) && s.hist == [r] && s.wins == [] && s.transfers == [] && s.media == []
  }

  ghost predicate IsOneChunk(r: Status) {
    && r.size == 1 && r.chunkSize == 1 && r.totalChunks == 1 && r.receivedBytes == 1 && r.receivedIndexes == [0]
    && r.state == Receiving && r.version == 1 && r.expiresAt == 0
  }

  lemma OneChunkWellFormed(r: Status)
    requires IsOneChunk(r)
    ensures WellFormed(r)
  {
  }

  lemma OneChunkLoads(r: Status)
    requires IsOneChunk(r)
    ensures Normalize(r) == r && AfterLoad(Finish, r, 0) == FinishSniff
  {
    SortedUniqueIsCanonical(EnsureSortedUnique(r.receivedIndexes), r.receivedIndexes);
  }

  lemma OneChunk() returns (r: Status)
    ensures Finishable(r)
  {
    r := Status(1, "m", 1, 1, 1, 1, [0], Receiving, 0, 0, None, 1);
    OneChunkWellFormed(r);
    OneChunkLoads(r);
  }

  lemma AllFinishExists(cfg: Config, r: Status) returns (s: Sys)
    ensures AllFinish(cfg, s, r)
  {
    var n := AboveAll(cfg.conn);
    s := Sys(Some(r), seq(n, k => CLEAR), seq(|cfg.conn|, k => Caller(Finish, NotStarted, r)), [r], [], [], []);
  }

  lemma AllFinishTwins(cfg: Config, s: Sys, r: Status, i: nat, j: nat)
    requires AllFinish(cfg, s, r) && i < |cfg.conn| && j < |cfg.conn| && i != j
    ensures Twins(cfg, s, i, j, NotStarted, r)
  {
  }

  lemma AllFinishInitial(cfg: Config, s: Sys, r: Status)
    requires AllFinish(cfg, s, r) && WellFormed(r) && r.state == Receiving
    ensures Initial(cfg, s)
  {
  }

  lemma TwoTransfers(t: Sys, i: nat, j: nat)
    requires t.transfers == [i, j] && i != j
    ensures !AtMostOneUpload(t)
  {
    assert t.transfers[0] != t.transfers[1];
  }

  /** Two callers that share a connection, with each other or one of them with other
      uploads, both win `uploading` and both transfer the file. */
  lemma SharedConnectionBreaks(cfg: Config, i: nat, j: nat) returns (s: Sys, es: seq<Event>)
    requires Sharing(cfg, i, j) && i != j
    ensures Initial(cfg, s) && !AtMostOneUpload(Run(cfg, s, es))
  {
    var r := OneChunk();
    s := AllFinishExists(cfg, r);
    AllFinishInitial(cfg, s, r);
    AllFinishTwins(cfg, s, r, i, j);
    var t;
    es, t := TwinsBothUpload(cfg, s, i, j, r);
    TwoTransfers(t, i, j);
  }

  lemma {:induction false} SingleCallerAlone(cfg: Config, s: Sys, es: seq<Event>)
    requires Fits(cfg, s) && |cfg.conn| <= 1
    ensures OneCallAtATime(cfg, s, es)
    decreases |es|
  {
    if es != [] { SingleCallerAlone(cfg, Step(cfg, s, es[0]), es[1..]); }
  }

  lemma SharingPair(cfg: Config) returns (i: nat, j: nat)
    requires |cfg.conn| > 1 && !Exclusive(cfg)
    ensures Sharing(cfg, i, j) && i != j
  {
    if k :| 0 <= k < |cfg.conn| && cfg.conn[k] in cfg.shared {
      i, j := k, if k == 0 then 1 else 0;
    } else {
      i, j :| 0 <= i < j < |cfg.conn| && cfg.conn[i] == cfg.conn[j];
    }
  }

  /** Exactly the assignments that give every caller a connection nobody else uses are safe,
      unless there is only one caller. The shipped module hands one client to all calls. */
  lemma SafeIffExclusive(cfg: Config)
    ensures (forall s, es :: Initial(cfg, s) ==> AtMostOneUpload(Run(cfg, s, es)))
            <==> |cfg.conn| <= 1 || Exclusive(cfg)
  {
    if |cfg.conn| <= 1 {
      forall s, es | Initial(cfg, s) ensures AtMostOneUpload(Run(cfg, s, es)) {
        SingleCallerAlone(cfg, s, es);
        LockedUploadsOnce(cfg, s, es);
      }
    } else if Exclusive(cfg) {
      forall s, es | Initial(cfg, s) ensures AtMostOneUpload(Run(cfg, s, es)) {
        ExclusiveUndisturbed(cfg, s, es);
        AtMostOneFinish(cfg, s, es);
      }
    } else {
      var i, j := SharingPair(cfg);
      var s, es := SharedConnectionBreaks(cfg, i, j);
      assert Initial(cfg, s) && !AtMostOneUpload(Run(cfg, s, es));
    }
  }
}
