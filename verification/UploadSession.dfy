/** A whole upload: `init`, the chunks in any order, `finish`. What the client sent is what
    the storage driver holds. */
module UploadSession {
  import opened Common
  import opened UploadFile
  import opened UploadRecord
  import opened UploadService
  import Protocol = UploadProtocol

  /** A chunk of the client's length is of the length `writeChunk` demands. */
  lemma LengthFits(size: nat, cs: nat, n: nat, k: nat, length: int)
    requires 0 < cs && k < n && (n - 1) * cs < size <= n * cs
    requires length == if size - k * cs < cs then size - k * cs else cs
    ensures 0 < length && length == if k == n - 1 then size - k * cs else cs
  {
    if k < n - 1 {
      MulMono(k + 1, n - 1, cs);
      assert (k + 1) * cs == k * cs + cs;
    } else {
      assert n * cs == (n - 1) * cs + cs;
    }
  }

  /** Byte b of a file that holds every chunk is byte b % cs of chunk b / cs. */
  lemma {:induction false} ByteOf(bytes: seq<byte>, s: Status, chunks: seq<seq<byte>>, b: nat)
    requires Geometry(s) && |bytes| == s.size && |chunks| == s.totalChunks && b < s.size
    requires forall k :: 0 <= k < |chunks| ==> HoldsChunk(bytes, s, k, chunks[k])
    ensures b / s.chunkSize < |chunks| && b % s.chunkSize < |chunks[b / s.chunkSize]|
    ensures bytes[b] == chunks[b / s.chunkSize][b % s.chunkSize]
  {
    RegionsTile(s, b);
    var k := b / s.chunkSize;
    assert HoldsChunk(bytes, s, k, chunks[k]);
    assert b == Offset(s.chunkSize, k) + b % s.chunkSize;
  }

  lemma Bytes(file: seq<byte>, s: Status, chunks: seq<seq<byte>>)
    requires Geometry(s) && |file| == s.size && |chunks| == s.totalChunks
    requires forall k :: 0 <= k < |chunks| ==> HoldsChunk(file, s, k, chunks[k])
    ensures forall b :: 0 <= b < s.size ==>
              && 0 <= b / s.chunkSize < |chunks| && b % s.chunkSize < |chunks[b / s.chunkSize]|
              && file[b] == chunks[b / s.chunkSize][b % s.chunkSize]
  {
    forall b | 0 <= b < s.size
      ensures 0 <= b / s.chunkSize < |chunks| && b % s.chunkSize < |chunks[b / s.chunkSize]|
      ensures file[b] == chunks[b / s.chunkSize][b % s.chunkSize]
    {
      ByteOf(file, s, chunks, b);
    }
  }

  /** All indexes below n, each at least once, make the record complete. */
  lemma AllSent(s: Status, order: seq<nat>)
    requires WellFormed(s) && (forall k :: k in s.receivedIndexes <==> k in order)
    requires forall k: nat :: k < s.totalChunks ==> k in order
    ensures |s.receivedIndexes| == s.totalChunks
  {
    CompleteMeansEveryChunk(s);
  }

  /** The record of a session whose indexes `sent` are in. */
  ghost predicate Progressed(s: Status, size: nat, cs: nat, n: nat, expiresAt: int, sent: seq<nat>) {
    && s.size == size && s.chunkSize == cs && s.totalChunks == n && s.expiresAt == expiresAt
    && (s.state == Receiving || (s.state == UploadState.Init && sent == []))
    && forall k :: k in s.receivedIndexes <==> k in sent
  }

  /** A session in which the chunks `sent` are in the file. */
  ghost predicate Sending(svc: UploadService, size: nat, chunks: seq<seq<byte>>, expiresAt: int, sent: seq<nat>)
    reads svc, svc.store, svc.temp
  {
    && svc.Valid() && svc.temp != null && svc.id in svc.store.records
    && Progressed(svc.store.records[svc.id], size, svc.cfg.chunkSize, |chunks|, expiresAt, sent)
    && svc.gap == {} && forall k :: k in svc.accepted ==> k < |chunks| && svc.accepted[k] == chunks[k]
  }

  /** The foreign steps of a `writeChunk` work. */
  ghost predicate Works(env: ChunkEnv, length: nat) {
    && env.openOk && env.writeOk && env.written >= length
    && !env.abortReceiving && !env.abortProgress && !env.sniff.Disallowed?
  }

  /** The foreign steps of `finish` work, the transfer after transient failures. */
  ghost predicate Carries(fin: FinishEnv, max: nat) {
    && !fin.sniff.Disallowed? && fin.dirOk && fin.mediaOk
    && !fin.abortMime && !fin.abortReady && !fin.abortUploading && !fin.abortUploaded
    && exists k ::
         && 0 <= k < max && k < |fin.attempts| && fin.attempts[k].Sent?
         && forall j :: 0 <= j < k ==> fin.attempts[j].Failed? && fin.attempts[j].transient
  }

  /** The chunks a client cuts a file of the size into. */
  ghost predicate Split(chunks: seq<seq<byte>>, size: nat, cs: nat) {
    && (|chunks| - 1) * cs < size <= |chunks| * cs
    && forall k :: 0 <= k < |chunks| ==> |chunks[k]| == if size - k * cs < cs then size - k * cs else cs
  }

  method BeginSession(svc: UploadService, user: nat, mime: string, size: nat, ghost chunks: seq<seq<byte>>, start: int)
    requires svc.Valid() && svc.id !in svc.store.records && svc.temp == null
    requires 0 < size && (svc.cfg.maxSizeBytes == 0 || size <= svc.cfg.maxSizeBytes)
    requires Split(chunks, size, svc.cfg.chunkSize)
    modifies svc`temp, svc`accepted, svc`gap, svc.store
    ensures Sending(svc, size, chunks, start + svc.cfg.ttlSeconds * 1000, []) && fresh(svc.temp)
  {
    CeilDivMeaning(size, svc.cfg.chunkSize, |chunks|);
    var _ := svc.Init(user, size, mime, true, true, true, true, start);
  }

  method SendChunk(svc: UploadService, ghost size: nat, chunks: seq<seq<byte>>, ghost expiresAt: int,
        order: seq<nat>, i: nat, now: int, env: ChunkEnv)
      returns (reply: Result<ChunkResult>)
    requires i < |order| && order[i] < |chunks| && now <= expiresAt
    requires Sending(svc, size, chunks, expiresAt, order[..i])
    requires Split(chunks, size, svc.cfg.chunkSize) && Works(env, |chunks[order[i]]|)
    modifies svc`temp, svc`accepted, svc`gap, svc.store, svc.temp
    ensures reply.Ok? && svc.temp == old(svc.temp)
    ensures Sending(svc, size, chunks, expiresAt, order[..i + 1])
  {
    var k := order[i];
    LengthFits(size, svc.cfg.chunkSize, |chunks|, k, |chunks[k]|);
    reply := svc.WriteChunk(k, chunks[k], now, env);
    assert forall x :: x in order[..i + 1] <==> x in order[..i] || x == k;
  }

  method SendChunks(svc: UploadService, ghost size: nat, chunks: seq<seq<byte>>, ghost expiresAt: int,
        order: seq<nat>, clocks: seq<int>, envs: seq<ChunkEnv>)
      returns (replies: seq<Result<ChunkResult>>)
    requires Sending(svc, size, chunks, expiresAt, []) && Split(chunks, size, svc.cfg.chunkSize)
    requires |clocks| == |order| && |envs| == |order| && forall i :: 0 <= i < |order| ==> order[i] < |chunks|
    requires forall i :: 0 <= i < |order| ==> clocks[i] <= expiresAt && Works(envs[i], |chunks[order[i]]|)
    modifies svc`temp, svc`accepted, svc`gap, svc.store, svc.temp
    ensures |replies| == |order| && forall i :: 0 <= i < |order| ==> replies[i].Ok?
    ensures Sending(svc, size, chunks, expiresAt, order) && svc.temp == old(svc.temp)
  {
    replies := [];
    for i := 0 to |order|
      invariant Sending(svc, size, chunks, expiresAt, order[..i]) && svc.temp == old(svc.temp)
      invariant |replies| == i && forall h :: 0 <= h < i ==> replies[h].Ok?
    {
      var reply := SendChunk(svc, size, chunks, expiresAt, order, i, clocks[i], envs[i]);
      replies := replies + [reply];
    }
    assert order[..|order|] == order;
  }

  method FinishSession(svc: UploadService, ghost size: nat, ghost chunks: seq<seq<byte>>, ghost expiresAt: int,
        ghost sent: seq<nat>, now: int, fin: FinishEnv)
      returns (r: Result<string>)
    requires Sending(svc, size, chunks, expiresAt, sent) && now <= expiresAt && fin.path !in svc.remote
    requires |chunks| > 0 && forall k: nat :: k < |chunks| ==> k in sent
    requires Carries(fin, svc.cfg.maxAttempts)
    modifies svc`temp, svc`remote, svc`media, svc.store
    ensures r == Ok(fin.path) && svc.media == old(svc.media) + [fin.path]
    ensures fin.path in svc.remote && svc.remote == old(svc.remote)[fin.path := svc.remote[fin.path]]
    ensures var file, cs := svc.remote[fin.path], svc.cfg.chunkSize;
            && |file| == size
            && forall b :: 0 <= b < size ==>
                 && 0 <= b / cs < |chunks| && b % cs < |chunks[b / cs]| && file[b] == chunks[b / cs][b % cs]
  {
    ghost var s := svc.store.records[svc.id];
    AllSent(s, sent);
    assert 0 in sent;
    r := svc.Finish(now, fin);
    Bytes(svc.remote[fin.path], s, chunks);
  }

  /** After `init`, take the chunks of the file in any order, repeats allowed, with no foreign
      step failing and the clock within the expiry, and a transfer that succeeds after
      transient failures only: every `writeChunk` succeeds, `finish` succeeds, and byte b of
      the stored file is byte b % chunkSize of chunk b / chunkSize. */
  method WholeUpload(svc: UploadService, user: nat, mime: string, size: nat, chunks: seq<seq<byte>>,
        order: seq<nat>, clocks: seq<int>, envs: seq<ChunkEnv>, start: int, finishAt: int, fin: FinishEnv)
      returns (replies: seq<Result<ChunkResult>>, r: Result<string>)
    requires svc.Valid() && svc.id !in svc.store.records && svc.temp == null && fin.path !in svc.remote
    requires 0 < size && (svc.cfg.maxSizeBytes == 0 || size <= svc.cfg.maxSizeBytes)
    requires (|chunks| - 1) * svc.cfg.chunkSize < size <= |chunks| * svc.cfg.chunkSize
    requires forall k :: 0 <= k < |chunks| ==>
               |chunks[k]| == if size - k * svc.cfg.chunkSize < svc.cfg.chunkSize
                              then size - k * svc.cfg.chunkSize else svc.cfg.chunkSize
    requires forall i :: 0 <= i < |order| ==> order[i] < |chunks|
    requires forall k: nat :: k < |chunks| ==> k in order
    requires |clocks| == |order| && |envs| == |order|
    requires forall i :: 0 <= i < |order| ==>
               && clocks[i] <= start + svc.cfg.ttlSeconds * 1000
               && envs[i].openOk && envs[i].writeOk && envs[i].written >= |chunks[order[i]]|
               && !envs[i].abortReceiving && !envs[i].abortProgress && !envs[i].sniff.Disallowed?
    requires finishAt <= start + svc.cfg.ttlSeconds * 1000
    requires !fin.sniff.Disallowed? && fin.dirOk && fin.mediaOk
    requires !fin.abortMime && !fin.abortReady && !fin.abortUploading && !fin.abortUploaded
    requires exists k ::
               && 0 <= k < svc.cfg.maxAttempts && k < |fin.attempts| && fin.attempts[k].Sent?
               && forall j :: 0 <= j < k ==> fin.attempts[j].Failed? && fin.attempts[j].transient
    modifies svc, svc.store
    ensures |replies| == |order| && forall i :: 0 <= i < |order| ==> replies[i].Ok?
    ensures r == Ok(fin.path) && svc.media == old(svc.media) + [fin.path]
    ensures fin.path in svc.remote && svc.remote == old(svc.remote)[fin.path := svc.remote[fin.path]]
    ensures var file, cs := svc.remote[fin.path], svc.cfg.chunkSize;
            && |file| == size
            && forall b :: 0 <= b < size ==>
                 && 0 <= b / cs < |chunks| && b % cs < |chunks[b / cs]| && file[b] == chunks[b / cs][b % cs]
  {
    ghost var expiresAt := start + svc.cfg.ttlSeconds * 1000;
    assert Split(chunks, size, svc.cfg.chunkSize) && Carries(fin, svc.cfg.maxAttempts);
    BeginSession(svc, user, mime, size, chunks, start);
    replies := SendChunks(svc, size, chunks, expiresAt, order, clocks, envs);
    r := FinishSession(svc, size, chunks, expiresAt, order, finishAt, fin);
  }
}
