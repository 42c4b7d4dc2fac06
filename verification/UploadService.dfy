/** `RedisUploadStateStore` and `UploadService` as objects, for calls that run one
    at a time per upload (the per-upload lock held). Failures of the file system,
    of Redis and of the storage driver are parameters of each call. */
module UploadService {
  import opened Common
  import opened UploadFile
  import opened UploadRecord
  import Protocol = UploadProtocol

  /** The records under `upload:<id>` and the remaining TTL of each key. */
  class RedisUploadStateStore {
    var records: map<nat, Status>
    var ttl: map<nat, int>
    const defaultTtlSeconds: nat

    constructor (defaultTtlSeconds: nat)
      ensures records == map[] && ttl == map[] && this.defaultTtlSeconds == defaultTtlSeconds
    {
      records, ttl := map[], map[];
      this.defaultTtlSeconds := defaultTtlSeconds;
    }

    /** SET .. EX .. NX: never overwrites. */
    method Create(id: nat, status: Status, ttlSec: nat) returns (ok: bool)
      modifies this
      ensures ok <==> id !in old(records)
      ensures ok ==> records == old(records)[id := Protocol.Normalize(status)] && ttl == old(ttl)[id := ttlSec]
      ensures !ok ==> records == old(records) && ttl == old(ttl)
    {
      ok := id !in records;
      if ok {
        records := records[id := Protocol.Normalize(status)];
        ttl := ttl[id := ttlSec];
      }
    }

    method Get(id: nat) returns (r: Option<Status>)
      ensures r == if id in records then Some(Protocol.Normalize(records[id])) else None
    {
      if id !in records { return None; }
      r := Some(Protocol.Normalize(records[id]));
    }

    /** The CAS, with `disturbed` when EXEC is aborted. */
    method PatchCAS(id: nat, expectedVersion: nat, patch: Patch, disturbed: bool) returns (ok: bool)
      modifies this
      ensures ok <==> id in old(records) && old(records)[id].version == expectedVersion && !disturbed
      ensures ok ==> records == old(records)[id := MergeStatus(old(records)[id], patch)]
      ensures ok ==>
        ttl == old(ttl)[id := if id in old(ttl) && old(ttl)[id] > 0 then old(ttl)[id] else defaultTtlSeconds]
      ensures !ok ==> records == old(records) && ttl == old(ttl)
    {
      if id !in records { return false; }
      var cur := records[id];
      if cur.version != expectedVersion { return false; }
      var merged := MergeStatus(cur, patch);
      var ex := if id in ttl && ttl[id] > 0 then ttl[id] else defaultTtlSeconds;
      if disturbed { return false; }
      records := records[id := merged];
      ttl := ttl[id := ex];
      ok := true;
    }

    /** EXPIRE: moves the key's TTL, never the payload. */
    method Touch(id: nat, ttlSec: int) returns (ok: bool)
      modifies this`ttl
      ensures ok <==> id in records
      ensures ttl == if ok then old(ttl)[id := Max(1, ttlSec)] else old(ttl)
    {
      ok := id in records;
      if ok { ttl := ttl[id := Max(1, ttlSec)]; }
    }

    method Delete(id: nat)
      modifies this
      ensures records == old(records) - {id} && ttl == old(ttl) - {id}
    {
      records := records - {id};
      ttl := ttl - {id};
    }
  }

  // ---------------------------------------------------------------- service

  datatype Config = Config(
    chunkSize: nat, ttlSeconds: nat, maxSizeBytes: nat, maxAttempts: nat, keepTempOnError: bool)

  datatype InitResult = InitResult(chunkSize: nat, totalChunks: nat, expiresAt: int)

  datatype ChunkResult = ChunkResult(receivedIndex: nat, receivedBytes: nat, percent: int)

  /** How much of the clean-up of an expired session, which nobody waits for, works. */
  datatype Cleanup = Cleanup(fileGoes: bool, recordGoes: bool)

  /** Outcomes of the foreign steps of `writeChunk`. A write may report success after
      fewer bytes than it was given: `writeOk` is its report, `written` how far it got. */
  datatype ChunkEnv = ChunkEnv(
    cleanup: Cleanup, sniff: Protocol.Sniff, removeOk: bool, openOk: bool, writeOk: bool, written: nat,
    abortReceiving: bool, abortMime: bool, abortProgress: bool)

  /** One call of the storage driver; a failed one may leave something under the path. */
  datatype Attempt = Sent | Failed(transient: bool, left: Option<seq<byte>>)

  /** Outcomes of the foreign steps of `finish`. */
  datatype FinishEnv = FinishEnv(
    cleanup: Cleanup, sniff: Protocol.Sniff, removeOk: bool, path: string, dirOk: bool, attempts: seq<Attempt>,
    mediaOk: bool, remoteDeleteOk: bool, deleteOk: bool,
    abortMime: bool, abortReady: bool, abortUploading: bool, abortUploaded: bool, abortError: bool)

  predicate Retries(a: Attempt) {
    a.Failed? && a.transient
  }

  predicate AttemptsSucceed(attempts: seq<Attempt>, max: nat) {
    exists k ::
      && 0 <= k < max && k < |attempts| && attempts[k].Sent?
      && forall j :: 0 <= j < k ==> Retries(attempts[j])
  }

  /** Nothing happened under `path`, or a failed attempt left its piece there. */
  ghost predicate LeftBehind(before: map<string, seq<byte>>, after: map<string, seq<byte>>, path: string,
        attempts: seq<Attempt>)
  {
    || after == before
    || exists a :: a in attempts && a.Failed? && a.left.Some? && after == before[path := a.left.value]
  }

  /** The sniffed type differs and its patch loses the CAS. */
  predicate MimePatchLost(sniff: Protocol.Sniff, mime: string, aborted: bool) {
    sniff.Allowed? && sniff.mime != "" && sniff.mime != mime && aborted
  }

  /** When the checks of `writeChunk` let a chunk through. */
  predicate ChunkOpens(s: Status, index: int, length: nat, now: int, env: ChunkEnv) {
    && 0 <= index < s.totalChunks && 0 < length && now <= s.expiresAt
    && (s.state == Receiving || (s.state == UploadState.Init && !env.abortReceiving))
    && length == ChunkLength(s, index)
  }

  /** Which exception those checks throw. */
  function ChunkRefusal(r: Option<Status>, index: int, length: nat, now: int, env: ChunkEnv): Error {
    if index < 0 || length == 0 || r.None? then BadRequest
    else
      var s := r.value;
      if now > s.expiresAt then Gone
      else if s.state !in {UploadState.Init, Receiving} then Conflict
      else if s.state == UploadState.Init && env.abortReceiving then Conflict
      else if index >= s.totalChunks then BadRequest
      else Unprocessable
  }

  /** A call that is refused, told from the record as it was. */
  lemma ChunkRefusalMeaning(r: Option<Status>, index: int, length: nat, now: int, env: ChunkEnv)
    ensures index < 0 || length == 0 || r.None? ==> ChunkRefusal(r, index, length, now, env) == BadRequest
    ensures index >= 0 && length > 0 && r.Some? ==>
              var s, e := r.value, ChunkRefusal(r, index, length, now, env);
              && (now > s.expiresAt ==> e == Gone)
              && (now <= s.expiresAt && s.state in {ReadyToUpload, Uploading, Uploaded, UploadState.Error} ==>
                    e == Conflict)
              && (now <= s.expiresAt && s.state == UploadState.Init && env.abortReceiving ==> e == Conflict)
              && (now <= s.expiresAt
                  && (s.state == Receiving || (s.state == UploadState.Init && !env.abortReceiving)) ==>
                    e == if index >= s.totalChunks then BadRequest else Unprocessable)
  {
  }

  /** When `finish` gets as far as the storage driver. */
  predicate FinishOpens(s: Status, now: int, env: FinishEnv) {
    && now <= s.expiresAt && |s.receivedIndexes| == s.totalChunks
    && s.state in {Receiving, ReadyToUpload}
    && !env.sniff.Disallowed? && !MimePatchLost(env.sniff, s.mime, env.abortMime) && !env.abortReady
  }

  /** When the file reaches the storage driver. */
  predicate Sends(hasTemp: bool, env: FinishEnv, max: nat) {
    hasTemp && env.dirOk && !env.abortUploading && AttemptsSucceed(env.attempts, max)
  }

  /** Deleting the one path that was added restores what was there before. */
  lemma TakenBack(before: map<string, seq<byte>>, stored: map<string, seq<byte>>, path: string)
    requires path !in before
    ensures path in stored && stored == before[path := stored[path]] ==> stored - {path} == before
  {
  }

  /** Writing or deleting one record leaves the others. */
  lemma Elsewhere(m: map<nat, Status>, id: nat, s: Status)
    ensures m[id := s] - {id} == m - {id}
    ensures (m - {id}) - {id} == m - {id}
  {
  }

  class UploadService {
    const cfg: Config
    const id: nat
    const store: RedisUploadStateStore
    var temp: array?<byte>              // the preallocated .part file; null once removed
    var remote: map<string, seq<byte>>  // what the storage driver holds
    var media: seq<string>              // remote paths of the media records
    ghost var accepted: map<nat, seq<byte>>  // the bytes given with each recorded index
    ghost var gap: set<nat>                  // recorded, but the write fell short

    /** The record is well formed and the file holds every accepted chunk. */
    ghost predicate RecordOk(r: Status)
      reads this`temp, this`accepted, this`gap, temp
    {
      && WellFormed(r) && AcceptedOk(r, accepted)
      && (temp != null ==> Holds(temp[..], r, accepted, gap))
    }

    ghost predicate Valid()
      reads this`temp, this`accepted, this`gap, store, temp
    {
      && 0 < cfg.chunkSize && 1 <= cfg.maxAttempts
      && (id in store.records ==> RecordOk(store.records[id]))
    }

    constructor (cfg: Config, id: nat, store: RedisUploadStateStore)
      requires 0 < cfg.chunkSize && 1 <= cfg.maxAttempts && id !in store.records
      ensures Valid() && this.cfg == cfg && this.id == id && this.store == store
      ensures temp == null && remote == map[] && media == [] && accepted == map[] && gap == {}
    {
      this.cfg, this.id, this.store := cfg, id, store;
      temp, remote, media, accepted, gap := null, map[], [], map[], {};
    }

    /** `init`. The upload id is a fresh UUID, so no record or file exists for it yet.
        `named` says that user and file name are given, `tempOk` that the file was created. */
    method Init(userId: nat, size: int, mime: string, named: bool, extAllowed: bool, mimeAllowed: bool,
          tempOk: bool, now: int)
        returns (r: Result<InitResult>)
      requires Valid() && id !in store.records && temp == null
      modifies this`temp, this`accepted, this`gap, store
      ensures Valid()
      ensures r.Err? ==>
        r.error == if !named || size <= 0 then BadRequest
                   else if cfg.maxSizeBytes != 0 && size > cfg.maxSizeBytes then TooLarge
                   else if !extAllowed || !mimeAllowed then BadRequest else Internal
      ensures r.Ok? <==>
        named && 0 < size && (cfg.maxSizeBytes == 0 || size <= cfg.maxSizeBytes) && extAllowed && mimeAllowed && tempOk
      ensures r.Ok? ==>
        && id in store.records && temp != null && fresh(temp)
        && store.records == old(store.records)[id := store.records[id]]
        && r.value.chunkSize == cfg.chunkSize
        && r.value.totalChunks == CeilDiv(size, cfg.chunkSize)
        && r.value.expiresAt == now + cfg.ttlSeconds * 1000
        && var s := store.records[id];
           s == Status(userId, mime, size, cfg.chunkSize, r.value.totalChunks, 0, [], UploadState.Init,
                       now, r.value.expiresAt, None, 1)
      ensures r.Ok? ==> id in store.ttl && store.ttl[id] == cfg.ttlSeconds && accepted == map[] && gap == {}
      ensures r.Err? ==> store.records == old(store.records) && temp == null
    {
      if !named { return Err(BadRequest); }
      if size <= 0 { return Err(BadRequest); }
      if cfg.maxSizeBytes != 0 && size > cfg.maxSizeBytes { return Err(TooLarge); }
      if !extAllowed { return Err(BadRequest); }
      if !mimeAllowed { return Err(BadRequest); }
      if !tempOk { return Err(Internal); }
      var file := new byte[size](_ => 0);
      temp := file;
      var expiresAt := now + cfg.ttlSeconds * 1000;
      var totalChunks := CeilDiv(size, cfg.chunkSize);
      CeilDivMeaning(size, cfg.chunkSize, totalChunks);
      var s := Status(userId, mime, size, cfg.chunkSize, totalChunks, 0, [], UploadState.Init,
                      now, expiresAt, None, 1);
      accepted, gap := map[], {};
      var ok := store.Create(id, s, cfg.ttlSeconds);
      assert EnsureSortedUnique([]) == [];
      r := Ok(InitResult(cfg.chunkSize, totalChunks, expiresAt));
    }

    /** `safeRemoveTemp`: a removal that fails is ignored. */
    method SafeRemoveTemp(goes: bool)
      requires Valid()
      modifies this`temp
      ensures Valid()
      ensures temp == if goes then null else old(temp)
    {
      if goes { temp := null; }
    }

    /** `mustGetActive`: an expired session is refused; its clean-up is best effort. */
    method MustGetActive(now: int, cleanup: Cleanup) returns (r: Result<Status>)
      requires Valid()
      modifies this`temp, store
      ensures Valid()
      ensures r.Ok? <==> id in old(store.records) && now <= old(store.records)[id].expiresAt
      ensures r.Ok? ==> store.records == old(store.records) && r.value == store.records[id] && temp == old(temp)
      ensures r.Err? ==> r.error == if id in old(store.records) then Gone else BadRequest
      ensures r == Err(Gone) ==>
        && store.records == (if cleanup.recordGoes then old(store.records) - {id} else old(store.records))
        && temp == if cleanup.fileGoes then null else old(temp)
      ensures r == Err(BadRequest) ==> store.records == old(store.records) && temp == old(temp)
      ensures store.records - {id} == old(store.records) - {id}
    {
      var got := store.Get(id);
      if got.None? { return Err(BadRequest); }
      var s := got.value;
      SortedUniqueIsCanonical(s.receivedIndexes, store.records[id].receivedIndexes);
      if now > s.expiresAt {
        SafeRemoveTemp(cleanup.fileGoes);
        Elsewhere(store.records, id, s);
        if cleanup.recordGoes { store.Delete(id); }
        return Err(Gone);
      }
      r := Ok(s);
    }

    /** `patchAndSync`: after a win the returned snapshot is the stored record. */
    method PatchAndSync(s: Status, patch: Patch, aborted: bool) returns (ok: bool, s': Status)
      requires id in store.records ==> store.records[id] == s
      requires StrictlyIncreasing(s.receivedIndexes) && Extends(s, patch)
      modifies store
      ensures ok <==> id in old(store.records) && !aborted
      ensures ok ==> store.records == old(store.records)[id := s'] && s' == MergeStatus(s, patch)
      ensures !ok ==> store.records == old(store.records) && s' == s
    {
      s' := s;
      ok := store.PatchCAS(id, s.version, patch, aborted);
      if ok {
        SnapshotEqualsRecord(s, patch);
        s' := Sync(s, patch);
      }
    }

    /** A patch of one of the service's sites, other than progress: the file and the
        accepted chunks are untouched. */
    method PatchState(s: Status, job: Protocol.Job, site: Protocol.Site, patch: Patch, aborted: bool)
        returns (ok: bool, s': Status)
      requires Valid() && WellFormed(s)
      requires id in store.records ==> store.records[id] == s
      requires site != Protocol.Progress && Protocol.SiteOk(job, site, patch, s)
      modifies store
      ensures Valid() && WellFormed(s')
      ensures ok <==> id in old(store.records) && !aborted
      ensures ok ==> store.records == old(store.records)[id := s'] && s' == MergeStatus(s, patch)
      ensures ok ==> SameGeometry(s, s') && s'.receivedIndexes == s.receivedIndexes
      ensures !ok ==> store.records == old(store.records) && s' == s
      ensures store.records - {id} == old(store.records) - {id}
    {
      Elsewhere(store.records, id, MergeStatus(s, patch));
      Protocol.SiteEdge(job, site, patch, s);
      NoProgressKeepsIndexes(s, patch);
      ok, s' := PatchAndSync(s, patch, aborted);
      if ok {
        HoldsFrame(if temp != null then temp[..] else [], s, s', accepted, gap);
      }
    }

    /** Copies `chunk` into the file at `offset`, byte by byte; stops after `written` bytes. */
    static method WriteAt(file: array<byte>, offset: nat, chunk: seq<byte>, written: nat)
      requires offset + |chunk| <= file.Length
      modifies file
      ensures forall b :: 0 <= b < file.Length && !(offset <= b < offset + |chunk|) ==> file[b] == old(file[b])
      ensures forall b :: 0 <= b < |chunk| ==>
                file[offset + b] == if b < written then chunk[b] else old(file[offset + b])
      ensures file[offset..offset + |chunk|] == chunk <==> !FallsShort(old(file[..]), offset, chunk, written)
    {
      var n := 0;
      while n < |chunk| && n < written
        invariant 0 <= n <= |chunk| && n <= written
        invariant forall b :: 0 <= b < file.Length && !(offset <= b < offset + n) ==> file[b] == old(file[b])
        invariant forall b :: 0 <= b < n ==> file[offset + b] == chunk[b]
      {
        file[offset + n] := chunk[n];
        n := n + 1;
      }
      ghost var was := old(file[..]);
      assert file[offset..offset + |chunk|] == chunk[..n] + was[offset + n..offset + |chunk|];
      assert chunk == chunk[..n] + chunk[n..];
      assert file[offset..offset + |chunk|] == chunk <==> was[offset + n..offset + |chunk|] == chunk[n..];
    }

    /** The sniff of the first chunk. A disallowed type removes the session, but the
        exception is swallowed and the call goes on; so is a lost CAS. */
    method SniffFirstChunk(s: Status, job: Protocol.Job, env: ChunkEnv) returns (s': Status)
      requires Valid() && WellFormed(s) && s.state == Receiving && Protocol.ChunkAccepted(job, s)
      requires id in store.records ==> store.records[id] == s
      modifies this`temp, store
      ensures Valid() && WellFormed(s') && s'.state == Receiving && SameGeometry(s, s')
      ensures s' == s || (exists m :: env.sniff == Protocol.Allowed(m) && s' == s.(mime := m, version := s.version + 1))
      ensures s'.mime == if env.sniff.Allowed? && env.sniff.mime != "" && !env.abortMime && id in old(store.records)
                         then env.sniff.mime else s.mime
      ensures id in store.records ==> store.records[id] == s' && id in old(store.records)
      ensures temp == old(temp) || temp == null
      ensures env.sniff.Disallowed? ==> temp == (if env.removeOk then null else old(temp)) && id !in store.records
      ensures !env.sniff.Disallowed? ==> temp == old(temp) && (id in store.records <==> id in old(store.records))
      ensures store.records - {id} == old(store.records) - {id}
    {
      s' := s;
      Elsewhere(store.records, id, s);
      match env.sniff
      case Unknown =>
      case Disallowed =>
        SafeRemoveTemp(env.removeOk);
        store.Delete(id);
      case Allowed(m) =>
        if m != "" && m != s.mime {
          MimePatchMerge(s, m);
          var _, t := PatchState(s, job, Protocol.ChunkMime, MimePatch(m), env.abortMime);
          s' := t;
        }
    }

    /** The checks of `writeChunk` up to the sniff of the first chunk. */
    method LoadForChunk(index: int, chunk: seq<byte>, now: int, env: ChunkEnv) returns (r: Result<Status>)
      requires Valid()
      modifies this`temp, store
      ensures Valid()
      ensures temp == old(temp) || temp == null
      ensures store.records - {id} == old(store.records) - {id}
      ensures r.Ok? <==> id in old(store.records) && ChunkOpens(old(store.records)[id], index, |chunk|, now, env)
      ensures r.Err? ==> r.error == ChunkRefusal(Lookup(old(store.records), id), index, |chunk|, now, env)
      ensures r.Ok? ==>
        && var s := r.value;
           && WellFormed(s) && s.state == Receiving && 0 <= index < s.totalChunks
           && |chunk| == ChunkLength(s, index)
           && id in store.records && store.records[id] == s && temp == old(temp)
           && id in old(store.records)
           && s == old(store.records)[id].(state := Receiving, version := s.version)
      ensures id in store.records ==>
        id in old(store.records) && store.records[id].receivedIndexes == old(store.records)[id].receivedIndexes
    {
      if index < 0 { return Err(BadRequest); }
      if |chunk| == 0 { return Err(BadRequest); }
      var got := MustGetActive(now, env.cleanup);
      if got.Err? { return Err(got.error); }
      var s := got.value;
      var job := Protocol.WriteChunk(index, |chunk|);
      if s.state in {Uploaded, ReadyToUpload, Uploading, UploadState.Error} { return Err(Conflict); }
      if s.state == UploadState.Init {
        StatePatchMerge(s, Receiving);
        var ok, t := PatchState(s, job, Protocol.ToReceiving, RECEIVING_PATCH, env.abortReceiving);
        if !ok { return Err(Conflict); }
        s := t;
      }
      if index >= s.totalChunks { return Err(BadRequest); }
      if |chunk| != ChunkLength(s, index) { return Err(Unprocessable); }
      r := Ok(s);
    }

    /** The checks of `writeChunk` up to the write itself. */
    method OpenForChunk(index: int, chunk: seq<byte>, now: int, env: ChunkEnv) returns (r: Result<Status>)
      requires Valid()
      modifies this`temp, store
      ensures Valid() && accepted == old(accepted) && gap == old(gap)
      ensures temp == old(temp) || temp == null
      ensures store.records - {id} == old(store.records) - {id}
      ensures r.Ok? <==> id in old(store.records) && ChunkOpens(old(store.records)[id], index, |chunk|, now, env)
      ensures r.Err? ==> r.error == ChunkRefusal(Lookup(old(store.records), id), index, |chunk|, now, env)
      ensures r.Ok? ==> (id in store.records <==> !(index == 0 && env.sniff.Disallowed?))
      ensures r.Ok? ==> temp == if index == 0 && env.sniff.Disallowed? && env.removeOk then null else old(temp)
      ensures r.Ok? ==>
        && var s := r.value;
           && WellFormed(s) && s.state == Receiving && 0 <= index < s.totalChunks
           && |chunk| == ChunkLength(s, index)
           && (id in store.records ==> store.records[id] == s)
           && (temp != null ==> temp.Length == s.size)
      ensures id in store.records ==>
        id in old(store.records) && store.records[id].receivedIndexes == old(store.records)[id].receivedIndexes
      ensures r.Ok? ==>
        && id in old(store.records)
        && r.value == old(store.records)[id].(state := Receiving, mime := r.value.mime, version := r.value.version)
        && r.value.mime == if index == 0 && env.sniff.Allowed? && env.sniff.mime != "" && !env.abortMime
                           then env.sniff.mime else old(store.records)[id].mime
    {
      var loaded := LoadForChunk(index, chunk, now, env);
      if loaded.Err? { return loaded; }
      var s := loaded.value;
      var job := Protocol.WriteChunk(index, |chunk|);
      if index == 0 {
        s := SniffFirstChunk(s, job, env);
      }
      r := Ok(s);
    }

    /** Writes the region of a chunk that is not recorded yet. */
    method WriteChunkRegion(s: Status, index: nat, chunk: seq<byte>, written: nat)
      requires Valid() && WellFormed(s) && temp != null && temp.Length == s.size
      requires id in store.records ==> store.records[id] == s
      requires index < s.totalChunks && index !in s.receivedIndexes && |chunk| == ChunkLength(s, index)
      modifies temp
      ensures Valid()
      ensures HoldsChunk(temp[..], s, index, chunk) <==>
              !FallsShort(old(temp[..]), Offset(s.chunkSize, index), chunk, written)
    {
      RegionBounds(s, index);
      ghost var before := temp[..];
      WriteAt(temp, Offset(s.chunkSize, index), chunk, written);
      if id in store.records { WriteKeepsOthers(before, temp[..], s, accepted, gap, index); }
    }

    /** Opens the file and writes the region. */
    method StoreChunk(s: Status, index: nat, chunk: seq<byte>, env: ChunkEnv) returns (ok: bool, ghost full: bool)
      requires Valid() && WellFormed(s) && (temp != null ==> temp.Length == s.size)
      requires id in store.records ==> store.records[id] == s
      requires index < s.totalChunks && index !in s.receivedIndexes && |chunk| == ChunkLength(s, index)
      modifies temp
      ensures Valid()
      ensures ok <==> temp != null && env.openOk && env.writeOk
      ensures ok ==>
        && full == !FallsShort(old(temp[..]), Offset(s.chunkSize, index), chunk, env.written)
        && (HoldsChunk(temp[..], s, index, chunk) <==> full)
    {
      ok, full := false, false;
      if temp == null || !env.openOk { return; }
      full := !FallsShort(temp[..], Offset(s.chunkSize, index), chunk, env.written);
      WriteChunkRegion(s, index, chunk, env.written);
      ok := env.writeOk;
    }

    /** The bytes of an index count as accepted from the first win that records it. */
    ghost method NoteAccepted(s: Status, s': Status, index: nat, chunk: seq<byte>, full: bool)
      requires WellFormed(s) && WellFormed(s') && SameGeometry(s, s') && RecordOk(s)
      requires forall k :: k in s'.receivedIndexes <==> k in s.receivedIndexes || k == index
      requires |chunk| == ChunkLength(s, index)
      requires temp != null && index !in s.receivedIndexes ==> (HoldsChunk(temp[..], s, index, chunk) <==> full)
      modifies this`accepted, this`gap
      ensures RecordOk(s')
      ensures accepted == FirstAccepted(old(accepted), index, chunk)
      ensures gap == GapAfter(old(gap), old(accepted), index, full)
    {
      ghost var acc := accepted;
      RecordChunk(if temp != null then temp[..] else [], s, s', accepted, gap, index, chunk, full);
      accepted := FirstAccepted(acc, index, chunk);
      gap := GapAfter(gap, acc, index, full);
    }

    /** The progress patch of an accepted chunk adds its index to the record. */
    method PatchIndexes(s: Status, index: nat, aborted: bool) returns (ok: bool, s': Status)
      requires WellFormed(s) && s.state == Receiving && index < s.totalChunks
      requires id in store.records ==> store.records[id] == s
      modifies store
      ensures ok <==> id in old(store.records) && !aborted
      ensures store.records - {id} == old(store.records) - {id}
      ensures ok ==>
        && id in store.records && store.records[id] == s' && WellFormed(s')
        && s' == s.(receivedIndexes := s'.receivedIndexes, version := s.version + 1,
                    receivedBytes := Max(s.receivedBytes, index * s.chunkSize + ChunkLength(s, index)))
        && (forall k :: k in s'.receivedIndexes <==> k in s.receivedIndexes || k == index)
      ensures !ok ==> store.records == old(store.records) && s' == s
    {
      ProgressMerge(s, index);
      ProgressShape(s, index);
      var length: nat := ChunkLength(s, index);
      Elsewhere(store.records, id, MergeStatus(s, ProgressPatch(s, index, length)));
      ok, s' := PatchAndSync(s, ProgressPatch(s, index, length), aborted);
    }

    /** The CAS of an accepted chunk; `full` says whether its bytes reached the file. */
    method PatchProgress(s: Status, index: nat, chunk: seq<byte>, ghost full: bool, aborted: bool)
        returns (ok: bool, s': Status)
      requires Valid() && WellFormed(s) && s.state == Receiving
      requires id in store.records ==> store.records[id] == s
      requires index < s.totalChunks && |chunk| == ChunkLength(s, index)
      requires id in store.records && temp != null && index !in s.receivedIndexes ==>
                 (HoldsChunk(temp[..], s, index, chunk) <==> full)
      modifies this`accepted, this`gap, store
      ensures Valid()
      ensures ok <==> id in old(store.records) && !aborted
      ensures store.records - {id} == old(store.records) - {id}
      ensures ok ==>
        && id in store.records && store.records[id] == s'
        && s' == s.(receivedIndexes := s'.receivedIndexes, version := s.version + 1,
                    receivedBytes := Max(s.receivedBytes, index * s.chunkSize + |chunk|))
        && (forall k :: k in s'.receivedIndexes <==> k in s.receivedIndexes || k == index)
        && accepted == FirstAccepted(old(accepted), index, chunk)
        && gap == GapAfter(old(gap), old(accepted), index, full)
      ensures !ok ==> accepted == old(accepted) && gap == old(gap) && store.records == old(store.records)
    {
      assert id in store.records ==> RecordOk(s);
      ok, s' := PatchIndexes(s, index, aborted);
      if ok { NoteAccepted(s, s', index, chunk, full); }
    }

    /** The CAS of an accepted chunk and the TTL refresh after it. */
    method RecordProgress(s: Status, index: nat, chunk: seq<byte>, ghost full: bool, aborted: bool)
        returns (r: Result<ChunkResult>)
      requires Valid() && WellFormed(s) && s.state == Receiving
      requires id in store.records ==> store.records[id] == s
      requires index < s.totalChunks && |chunk| == ChunkLength(s, index)
      requires id in store.records && temp != null && index !in s.receivedIndexes ==>
                 (HoldsChunk(temp[..], s, index, chunk) <==> full)
      modifies this`accepted, this`gap, store
      ensures Valid()
      ensures r.Ok? <==> id in old(store.records) && !aborted
      ensures store.records - {id} == old(store.records) - {id}
      ensures r.Ok? ==>
        && id in store.records && id in store.ttl && store.ttl[id] == Max(1, cfg.ttlSeconds)
        && (var s' := store.records[id];
            s' == s.(receivedIndexes := s'.receivedIndexes, version := s.version + 1,
                     receivedBytes := Max(s.receivedBytes, index * s.chunkSize + |chunk|)))
        && (forall k :: k in store.records[id].receivedIndexes <==> k in s.receivedIndexes || k == index)
        && accepted == FirstAccepted(old(accepted), index, chunk)
        && gap == GapAfter(old(gap), old(accepted), index, full)
        && r.value == ChunkResult(index, store.records[id].receivedBytes, Percent(store.records[id]))
      ensures r.Err? ==> r.error == Conflict && store.records == old(store.records)
      ensures r.Err? ==> accepted == old(accepted) && gap == old(gap)
    {
      var ok, s' := PatchProgress(s, index, chunk, full, aborted);
      if !ok { return Err(Conflict); }
      var _ := store.Touch(id, cfg.ttlSeconds);
      r := Ok(ChunkResult(index, s'.receivedBytes, Percent(s')));
    }

    /** `writeChunk`: on success the index is recorded; its bytes are in the file unless
        the write fell short while reporting success. On failure, at whatever point,
        nothing recorded is disturbed. */
    method WriteChunk(index: int, chunk: seq<byte>, now: int, env: ChunkEnv) returns (r: Result<ChunkResult>)
      requires Valid()
      modifies this`temp, this`accepted, this`gap, store, temp
      ensures Valid()
      ensures temp == old(temp) || temp == null
      ensures store.records - {id} == old(store.records) - {id}
      ensures r.Ok? <==>
        && id in old(store.records)
        && (var s := old(store.records)[id];
            && 0 <= index < s.totalChunks && 0 < |chunk| && now <= s.expiresAt
            && (s.state == Receiving || (s.state == UploadState.Init && !env.abortReceiving))
            && |chunk| == (if index == s.totalChunks - 1 then s.size - index * s.chunkSize else s.chunkSize)
            && (index in s.receivedIndexes || (old(temp) != null && env.openOk && env.writeOk)))
        && !(index == 0 && env.sniff.Disallowed?) && !env.abortProgress
      ensures r.Err? ==>
        r.error ==
          if id in old(store.records) && ChunkOpens(old(store.records)[id], index, |chunk|, now, env)
          then if index in old(store.records)[id].receivedIndexes
                  || (old(temp) != null && !(index == 0 && env.sniff.Disallowed? && env.removeOk)
                      && env.openOk && env.writeOk)
               then Conflict else Internal
          else ChunkRefusal(Lookup(old(store.records), id), index, |chunk|, now, env)
      ensures r.Ok? ==>
        && id in store.records && id in old(store.records) && 0 <= index && temp == old(temp)
        && (var s, s' := old(store.records)[id], store.records[id];
            && s' == s.(state := Receiving, mime := s'.mime, version := s'.version,
                        receivedIndexes := s'.receivedIndexes,
                        receivedBytes := Max(s.receivedBytes, index * s.chunkSize + |chunk|))
            && s'.mime == (if index == 0 && env.sniff.Allowed? && env.sniff.mime != "" && !env.abortMime
                           then env.sniff.mime else s.mime)
            && (forall k :: k in s'.receivedIndexes <==> k in s.receivedIndexes || k == index))
        && accepted == (if index in old(accepted) then old(accepted) else old(accepted)[index := chunk])
        && r.value == ChunkResult(index, store.records[id].receivedBytes, Percent(store.records[id]))
        && id in store.ttl && store.ttl[id] == Max(1, cfg.ttlSeconds)
      ensures r.Ok? ==>
        && id in old(store.records) && 0 <= index
        && var offset := Offset(old(store.records)[id].chunkSize, index);
           gap == GapAfter(old(gap), old(accepted), index,
                           !old(temp != null && FallsShort(temp[..], offset, chunk, env.written)))
      ensures r.Err? ==> accepted == old(accepted) && gap == old(gap)
      ensures r.Err? && id in store.records ==>
        id in old(store.records) && store.records[id].receivedIndexes == old(store.records)[id].receivedIndexes
    {
      var loaded := OpenForChunk(index, chunk, now, env);
      if loaded.Err? { return Err(loaded.error); }
      var s := loaded.value;
      var already := index in s.receivedIndexes;
      ghost var full := true;
      if !already {
        var ok;
        ok, full := StoreChunk(s, index, chunk, env);
        if !ok { return Err(Internal); }
      }
      r := RecordProgress(s, index, chunk, full, env.abortProgress);
    }

    // -------------------------------------------------------------- finish

    static ghost predicate WellFormedIndexes(s: Status) {
      StrictlyIncreasing(s.receivedIndexes) && forall x :: x in s.receivedIndexes ==> x < s.totalChunks
    }

    /** `assertAllChunksReceived`. On a stored record the length test decides alone:
        the loop behind it never refuses. */
    static method AssertAllChunksReceived(s: Status) returns (ok: bool)
      ensures ok <==> |s.receivedIndexes| == s.totalChunks
                      && forall i :: 0 <= i < s.totalChunks ==> s.receivedIndexes[i] == i
      ensures WellFormed(s) ==> (ok <==> Complete(s))
    {
      if WellFormedIndexes(s) { Pigeonhole(s.receivedIndexes, s.totalChunks); }
      if |s.receivedIndexes| != s.totalChunks { return false; }
      for i := 0 to s.totalChunks
        invariant forall j :: 0 <= j < i ==> s.receivedIndexes[j] == j
      {
        if s.receivedIndexes[i] != i { return false; }
      }
      ok := true;
    }

    /** `uploadWithRetry`: a failed attempt is repeated only when it was transient. */
    method UploadWithRetry(bytes: seq<byte>, path: string, attempts: seq<Attempt>) returns (ok: bool, calls: nat)
      requires 1 <= cfg.maxAttempts
      modifies this`remote
      ensures 1 <= calls <= cfg.maxAttempts
      ensures ok <==> AttemptsSucceed(attempts, cfg.maxAttempts)
      ensures ok ==> remote == old(remote)[path := bytes]
      ensures !ok ==> LeftBehind(old(remote), remote, path, attempts)
      ensures remote - {path} == old(remote) - {path}
    {
      calls := 0;
      while calls < cfg.maxAttempts
        invariant 0 <= calls <= cfg.maxAttempts && calls <= |attempts|
        invariant forall j :: 0 <= j < calls ==> Retries(attempts[j])
        invariant LeftBehind(old(remote), remote, path, attempts)
        invariant remote - {path} == old(remote) - {path}
      {
        var outcome := if calls < |attempts| then attempts[calls] else Failed(false, None);
        calls := calls + 1;
        if outcome.Sent? {
          remote := remote[path := bytes];
          return true, calls;
        }
        if outcome.left.Some? { remote := remote[path := outcome.left.value]; }
        if !outcome.transient { return false, calls; }
      }
      ok := false;
    }

    /** The sniff of `finish`. A disallowed type deletes file and record, but its exception
        is swallowed, so the call goes on; the next CAS then finds no record. */
    method SniffAtFinish(s: Status, env: FinishEnv) returns (r: Result<Status>)
      requires Valid() && WellFormed(s) && s.state in {Receiving, ReadyToUpload} && Complete(s)
      requires id in store.records && store.records[id] == s
      modifies this`temp, store
      ensures Valid()
      ensures temp == if env.sniff.Disallowed? && env.removeOk then null else old(temp)
      ensures store.records - {id} == old(store.records) - {id}
      ensures r.Ok? <==> !MimePatchLost(env.sniff, s.mime, env.abortMime)
      ensures id in store.records <==> !env.sniff.Disallowed?
      ensures r.Ok? ==>
        && WellFormed(r.value) && SameGeometry(s, r.value) && r.value.state == s.state
        && r.value.receivedIndexes == s.receivedIndexes
        && (id in store.records ==> store.records[id] == r.value)
    {
      r := Ok(s);
      Elsewhere(store.records, id, s);
      match env.sniff {
        case Unknown =>
        case Disallowed =>
          SafeRemoveTemp(env.removeOk);
          store.Delete(id);
        case Allowed(m) =>
          if m != "" && m != s.mime {
            var ok, t := PatchState(s, Protocol.Finish, Protocol.FinishMime, MimePatch(m), env.abortMime);
            r := if ok then Ok(t) else Err(Conflict);
          }
      }
    }

    /** The checks of `finish`. */
    method OpenSession(now: int, env: FinishEnv) returns (r: Result<Status>)
      requires Valid()
      modifies this`temp, store
      ensures Valid()
      ensures temp == old(temp) || temp == null
      ensures store.records - {id} == old(store.records) - {id}
      ensures r.Ok? <==>
        && id in old(store.records) && now <= old(store.records)[id].expiresAt
        && |old(store.records)[id].receivedIndexes| == old(store.records)[id].totalChunks
        && old(store.records)[id].state in {Receiving, ReadyToUpload}
      ensures r.Ok? ==> temp == old(temp) && store.records == old(store.records) && r.value == store.records[id]
    {
      var got := MustGetActive(now, env.cleanup);
      if got.Err? { return Err(got.error); }
      var s := got.value;
      var complete := AssertAllChunksReceived(s);
      if !complete { return Err(BadRequest); }
      if s.state == Uploaded { return Err(Conflict); }
      if s.state != Receiving && s.state != ReadyToUpload { return Err(Conflict); }
      r := Ok(s);
    }

    /** The CAS into `ready-to-upload`, which also stores the remote path. */
    method MarkReady(s: Status, env: FinishEnv) returns (r: Result<Status>)
      requires Valid() && WellFormed(s) && s.state in {Receiving, ReadyToUpload} && Complete(s)
      requires id in store.records ==> store.records[id] == s
      modifies store
      ensures Valid()
      ensures store.records - {id} == old(store.records) - {id}
      ensures r.Ok? <==> id in old(store.records) && !env.abortReady
      ensures r.Ok? ==>
        && var t := r.value;
           && WellFormed(t) && t.state == ReadyToUpload && t.remotePath == Some(env.path)
           && id in store.records && store.records[id] == t
           && SameGeometry(s, t) && t.receivedIndexes == s.receivedIndexes
    {
      var ok, t := PatchState(s, Protocol.Finish, Protocol.ToReady, ReadyPatch(env.path), env.abortReady);
      if !ok { return Err(Conflict); }
      r := Ok(t);
    }

    /** Everything `finish` does before it touches the storage driver. */
    method OpenForFinish(now: int, env: FinishEnv) returns (r: Result<Status>)
      requires Valid()
      modifies this`temp, store
      ensures Valid() && accepted == old(accepted) && gap == old(gap)
      ensures temp == old(temp) || temp == null
      ensures store.records - {id} == old(store.records) - {id}
      ensures r.Ok? <==> id in old(store.records) && FinishOpens(old(store.records)[id], now, env)
      ensures r.Ok? ==> temp == old(temp)
      ensures r.Ok? ==>
        && var s := r.value;
           && WellFormed(s) && s.state == ReadyToUpload && id in store.records && store.records[id] == s
           && id in old(store.records) && SameGeometry(old(store.records)[id], s)
           && s.receivedIndexes == old(store.records)[id].receivedIndexes
           && Complete(s)
    {
      var session := OpenSession(now, env);
      if session.Err? { return Err(session.error); }
      var sniffed := SniffAtFinish(session.value, env);
      if sniffed.Err? { return Err(sniffed.error); }
      r := MarkReady(sniffed.value, env);
    }

    /** The checks before the transfer, and the CAS into `uploading`. */
    method StartUpload(s: Status, env: FinishEnv) returns (ok: bool, t: Status)
      requires Valid() && WellFormed(s) && s.state == ReadyToUpload && Complete(s)
      requires id in store.records && store.records[id] == s
      modifies store
      ensures Valid()
      ensures WellFormed(t) && SameGeometry(s, t) && id in store.records && store.records[id] == t
      ensures store.records - {id} == old(store.records) - {id}
      ensures t.receivedIndexes == s.receivedIndexes
      ensures ok <==> temp != null && env.dirOk && !env.abortUploading
      ensures ok ==> t.state == Uploading
      ensures !ok ==> t == s
    {
      ok, t := false, s;
      if temp == null || temp.Length != s.size || !env.dirOk { return; }
      ok, t := PatchState(s, Protocol.Finish, Protocol.ToUploading, StatePatch(Uploading), env.abortUploading);
    }

    /** The CAS into `uploading` and the transfer itself. */
    method SendFile(s: Status, env: FinishEnv) returns (sent: bool, cur: Status)
      requires Valid() && WellFormed(s) && s.state == ReadyToUpload && Complete(s)
      requires id in store.records && store.records[id] == s
      modifies this`remote, store
      ensures Valid()
      ensures WellFormed(cur) && SameGeometry(s, cur) && cur.state in {ReadyToUpload, Uploading}
      ensures id in store.records && store.records[id] == cur
      ensures store.records - {id} == old(store.records) - {id}
      ensures sent <==> Sends(temp != null, env, cfg.maxAttempts)
      ensures sent ==> cur.state == Uploading && StoredAs(old(remote), remote, env.path, s, accepted, gap)
      ensures !sent ==> LeftBehind(old(remote), remote, env.path, env.attempts)
      ensures remote - {env.path} == old(remote) - {env.path}
    {
      var ok;
      ok, cur := StartUpload(s, env);
      sent := false;
      if !ok { return; }
      var bytes := temp[..];
      var done, _ := UploadWithRetry(bytes, env.path, env.attempts);
      sent := done;
      HoldsFrame(bytes, cur, s, accepted, gap);
      Stored(bytes, s, accepted, gap, old(remote), env.path);
    }

    /** The patch to `error`: state and version of this record, and nothing else. */
    method FlagError(s: Status, site: Protocol.Site, aborted: bool) returns (ok: bool)
      requires Valid() && WellFormed(s) && id in store.records && store.records[id] == s
      requires (site == Protocol.ToErrorMedia && s.state == Uploaded)
            || (site == Protocol.ToErrorRemote && s.state in {ReadyToUpload, Uploading})
      modifies store
      ensures Valid() && ok == !aborted
      ensures store.records - {id} == old(store.records) - {id}
      ensures store.records ==
        if ok then old(store.records)[id := s.(state := UploadState.Error, version := s.version + 1)]
        else old(store.records)
    {
      StatePatchMerge(s, UploadState.Error);
      var done, t := PatchState(s, Protocol.Finish, site, StatePatch(UploadState.Error), aborted);
      ok := done;
    }

    /** The `catch` and `finally` of a failed transfer. */
    method TransferFailed(s: Status, env: FinishEnv) returns (e: Error)
      requires Valid() && WellFormed(s) && s.state in {ReadyToUpload, Uploading}
      requires id in store.records && store.records[id] == s
      modifies this`temp, store
      ensures Valid()
      ensures temp == if cfg.keepTempOnError || !env.removeOk then old(temp) else null
      ensures e == if env.abortError then Conflict else Internal
      ensures store.records - {id} == old(store.records) - {id}
      ensures store.records ==
        if env.abortError then old(store.records)
        else old(store.records)[id := s.(state := UploadState.Error, version := s.version + 1)]
    {
      var ok := FlagError(s, Protocol.ToErrorRemote, env.abortError);
      if !cfg.keepTempOnError { SafeRemoveTemp(env.removeOk); }
      e := if ok then Internal else Conflict;
    }

    /** After the transfer: the temp file is removed, the record becomes `uploaded`. */
    method MarkUploaded(s: Status, env: FinishEnv) returns (r: Result<Status>)
      requires Valid() && WellFormed(s) && s.state == Uploading
      requires id in store.records && store.records[id] == s
      modifies this`temp, store
      ensures Valid() && temp == if env.removeOk then null else old(temp)
      ensures r.Ok? <==> !env.abortUploaded
      ensures store.records - {id} == old(store.records) - {id}
      ensures r.Ok? ==>
        && id in store.records && store.records[id] == r.value && r.value.state == Uploaded
        && WellFormed(r.value) && SameGeometry(s, r.value)
      ensures r.Err? ==> r == Err(Conflict) && store.records == old(store.records)
    {
      SafeRemoveTemp(env.removeOk);
      var ok, t := PatchState(s, Protocol.Finish, Protocol.ToUploaded, StatePatch(Uploaded), env.abortUploaded);
      if !ok { return Err(Conflict); }
      r := Ok(t);
    }

    /** From `ready-to-upload` to `uploaded`, or to `error`. The temp file ends removed
        unless its removal fails, or the upload failed and the configuration keeps it. */
    method TransferFile(s: Status, env: FinishEnv) returns (r: Result<Status>)
      requires Valid() && WellFormed(s) && s.state == ReadyToUpload && Complete(s)
      requires id in store.records && store.records[id] == s
      modifies this`temp, this`remote, store
      ensures Valid()
      ensures store.records - {id} == old(store.records) - {id} && id in store.records
      ensures var sends := Sends(old(temp) != null, env, cfg.maxAttempts);
              && (sends ==> StoredAs(old(remote), remote, env.path, s, accepted, gap))
              && (!sends ==> LeftBehind(old(remote), remote, env.path, env.attempts))
              && temp == (if env.removeOk && (sends || !cfg.keepTempOnError) then null else old(temp))
              && (r.Ok? <==> sends && !env.abortUploaded)
              && (r.Err? ==> r.error == if sends || env.abortError then Conflict else Internal)
              && (!sends && !env.abortError ==> store.records[id].state == UploadState.Error)
      ensures remote - {env.path} == old(remote) - {env.path}
      ensures r.Ok? ==>
        && store.records[id] == r.value && r.value.state == Uploaded
        && WellFormed(r.value) && SameGeometry(s, r.value)
    {
      var sent, cur := SendFile(s, env);
      if !sent {
        var e := TransferFailed(cur, env);
        return Err(e);
      }
      r := MarkUploaded(cur, env);
    }

    /** The media record could not be written: take the remote file back, flag the record. */
    method TakeBack(s: Status, env: FinishEnv) returns (e: Error)
      requires Valid() && WellFormed(s) && s.state == Uploaded
      requires id in store.records && store.records[id] == s
      modifies this`remote, store
      ensures Valid() && store.records - {id} == old(store.records) - {id}
      ensures remote == if env.remoteDeleteOk then old(remote) - {env.path} else old(remote)
      ensures e == if env.abortError then Conflict else Internal
    {
      if env.remoteDeleteOk { remote := remote - {env.path}; }
      var ok := FlagError(s, Protocol.ToErrorMedia, env.abortError);
      e := if ok then Internal else Conflict;
    }

    /** The media record, then the end of the session. */
    method Persist(s: Status, env: FinishEnv) returns (r: Result<string>)
      requires Valid() && WellFormed(s) && s.state == Uploaded
      requires id in store.records && store.records[id] == s
      modifies this`remote, this`media, store
      ensures Valid() && store.records - {id} == old(store.records) - {id}
      ensures r == if env.mediaOk then Ok(env.path) else Err(if env.abortError then Conflict else Internal)
      ensures media == if env.mediaOk then old(media) + [env.path] else old(media)
      ensures remote == if env.mediaOk || !env.remoteDeleteOk then old(remote) else old(remote) - {env.path}
      ensures env.deleteOk ==> id !in store.records
    {
      if env.mediaOk {
        media := media + [env.path];
        r := Ok(env.path);
      } else {
        var e := TakeBack(s, env);
        r := Err(e);
      }
      Elsewhere(store.records, id, s);
      if env.deleteOk { store.Delete(id); }
    }

    /** What `finish` leaves behind once the driver is called: the stored file and its media
        record; the file alone if the last CAS is lost; nothing if it was taken back; what
        a failed attempt left if the transfer failed. */
    ghost predicate Delivered(s: Status, sends: bool, env: FinishEnv, before: map<string, seq<byte>>,
                              records: seq<string>, r: Result<string>)
      reads this`remote, this`media, this`accepted, this`gap
    {
      && (r.Ok? <==> sends && !env.abortUploaded && env.mediaOk)
      && (r.Ok? ==> r.value == env.path)
      && (r.Err? ==> r.error == if env.abortError || (sends && env.abortUploaded) then Conflict else Internal)
      && media == (if r.Ok? then records + [env.path] else records)
      && (!sends ==> LeftBehind(before, remote, env.path, env.attempts))
      && (sends && (r.Ok? || env.abortUploaded || !env.remoteDeleteOk) ==>
            StoredAs(before, remote, env.path, s, accepted, gap))
      && (sends && !env.abortUploaded && !env.mediaOk && env.remoteDeleteOk ==> remote == before)
    }

    /** From a complete record to the end of the session. */
    method Deliver(s: Status, env: FinishEnv) returns (r: Result<string>)
      requires Valid() && WellFormed(s) && s.state == ReadyToUpload && Complete(s) && env.path !in remote
      requires id in store.records && store.records[id] == s
      modifies this`temp, this`remote, this`media, store
      ensures Valid() && store.records - {id} == old(store.records) - {id}
      ensures Delivered(s, Sends(old(temp) != null, env, cfg.maxAttempts), env, old(remote), old(media), r)
      ensures remote - {env.path} == old(remote) - {env.path}
      ensures r.Ok? ==> temp == (if env.removeOk then null else old(temp)) && (env.deleteOk ==> id !in store.records)
    {
      var sent := TransferFile(s, env);
      if sent.Err? { return Err(sent.error); }
      ghost var stored := remote;
      r := Persist(sent.value, env);
      TakenBack(old(remote), stored, env.path);
    }

    /** `finish`: what it hands to the storage driver, and what a media record points to,
        is the concatenation of each index's first accepted bytes exactly if no write fell
        short. `env.path` carries a fresh UUID. */
    method Finish(now: int, env: FinishEnv) returns (r: Result<string>)
      requires Valid() && env.path !in remote
      modifies this`temp, this`remote, this`media, store
      ensures Valid() && accepted == old(accepted) && gap == old(gap)
      ensures store.records - {id} == old(store.records) - {id}
      ensures r.Ok? <==>
        && id in old(store.records)
        && (var s := old(store.records)[id];
            && now <= s.expiresAt && |s.receivedIndexes| == s.totalChunks
            && (s.state == Receiving || s.state == ReadyToUpload)
            && !env.sniff.Disallowed?
            && !(env.sniff.Allowed? && env.sniff.mime != "" && env.sniff.mime != s.mime && env.abortMime))
        && !env.abortReady && old(temp) != null && env.dirOk && !env.abortUploading
        && (exists k ::
              && 0 <= k < cfg.maxAttempts && k < |env.attempts| && env.attempts[k].Sent?
              && forall j :: 0 <= j < k ==> env.attempts[j].Failed? && env.attempts[j].transient)
        && !env.abortUploaded && env.mediaOk
      ensures r.Ok? ==>
        && r.value == env.path && media == old(media) + [env.path]
        && env.path in remote && remote == old(remote)[env.path := remote[env.path]]
      ensures r.Err? ==> media == old(media)
      ensures remote - {env.path} == old(remote) - {env.path}
      ensures var opens := id in old(store.records) && FinishOpens(old(store.records)[id], now, env);
              && (!opens ==> r.Err? && remote == old(remote) && media == old(media))
              && (opens ==>
                    && Complete(old(store.records)[id])
                    && Delivered(old(store.records)[id], Sends(old(temp) != null, env, cfg.maxAttempts), env,
                                 old(remote), old(media), r))
      ensures r.Ok? ==> temp == (if env.removeOk then null else old(temp)) && (env.deleteOk ==> id !in store.records)
    {
      var ready := OpenForFinish(now, env);
      if ready.Err? { return Err(ready.error); }
      r := Deliver(ready.value, env);
      if r.Ok? || env.abortUploaded || !env.remoteDeleteOk {
        if Sends(old(temp) != null, env, cfg.maxAttempts) {
          StoredFrame(old(remote), remote, env.path, old(store.records)[id], ready.value, accepted, gap);
        }
      }
    }

    /** `abort`: the record goes, whatever the state, and the file if its removal works. */
    method Abort(removeOk: bool) returns (r: Result<bool>)
      requires Valid()
      modifies this`temp, store
      ensures Valid() && accepted == old(accepted) && gap == old(gap)
      ensures r == if id in old(store.records) then Ok(true) else Err(BadRequest)
      ensures store.records == old(store.records) - {id}
      ensures temp == if r.Ok? && removeOk then null else old(temp)
    {
      var s := store.Get(id);
      if s.None? { return Err(BadRequest); }
      SafeRemoveTemp(removeOk);
      store.Delete(id);
      r := Ok(true);
    }
  }
}
