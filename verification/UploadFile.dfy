/** What the `.part` file of an upload holds, and when a complete one is the
    concatenation of the accepted chunks. */
module UploadFile {
  import opened Common
  import opened UploadRecord

  newtype byte = x: int | 0 <= x < 256

  /** The accepted bytes of chunks 0 .. n-1, one after another. */
  ghost function Reassembled(acc: map<nat, seq<byte>>, n: nat): seq<byte>
    requires forall k :: 0 <= k < n ==> k in acc
  {
    if n == 0 then [] else Reassembled(acc, n - 1) + acc[n - 1]
  }

  /** One accepted byte string, of the right length, per received index. */
  ghost predicate AcceptedOk(r: Status, acc: map<nat, seq<byte>>) {
    && (forall k :: k in acc <==> k in r.receivedIndexes)
    && (forall k :: k in acc ==> |acc[k]| == ChunkLength(r, k))
  }

  /** The region of chunk k contains exactly `chunk`. */
  ghost predicate HoldsChunk(bytes: seq<byte>, r: Status, k: nat, chunk: seq<byte>) {
    && ChunkEnd(r, k) <= |bytes|
    && Offset(r.chunkSize, k) <= ChunkEnd(r, k)
    && bytes[Offset(r.chunkSize, k)..ChunkEnd(r, k)] == chunk
  }

  /** `gap` are the accepted chunks whose region holds something else. */
  ghost predicate Holds(bytes: seq<byte>, r: Status, acc: map<nat, seq<byte>>, gap: set<nat>)
    requires WellFormed(r) && AcceptedOk(r, acc)
  {
    && |bytes| == r.size && gap <= acc.Keys
    && forall k {:trigger HoldsChunk(bytes, r, k, acc[k])} ::
         k in acc ==> (HoldsChunk(bytes, r, k, acc[k]) <==> k !in gap)
  }

  /** A write of `chunk` at `offset` that stops after `written` bytes leaves other bytes
      than the chunk's behind them. */
  ghost predicate FallsShort(bytes: seq<byte>, offset: nat, chunk: seq<byte>, written: nat) {
    && written < |chunk| && offset + |chunk| <= |bytes|
    && bytes[offset + written..offset + |chunk|] != chunk[written..]
  }

  /** The region of chunk k follows what precedes it. */
  lemma AppendRegion(bytes: seq<byte>, r: Status, k: nat, chunk: seq<byte>)
    requires HoldsChunk(bytes, r, k, chunk)
    ensures bytes[..ChunkEnd(r, k)] == bytes[..Offset(r.chunkSize, k)] + chunk
  {
    var from, to := Offset(r.chunkSize, k), ChunkEnd(r, k);
    assert bytes[..to] == bytes[..from] + bytes[from..to];
  }

  lemma {:induction false} PrefixReassembled(bytes: seq<byte>, r: Status, acc: map<nat, seq<byte>>, n: nat)
    requires Geometry(r) && |bytes| == r.size && n < r.totalChunks
    requires forall k :: 0 <= k < r.totalChunks ==> k in acc && HoldsChunk(bytes, r, k, acc[k])
    ensures Offset(r.chunkSize, n) <= |bytes|
    ensures Reassembled(acc, n) == bytes[..Offset(r.chunkSize, n)]
  {
    RegionBounds(r, n);
    if n > 0 {
      PrefixReassembled(bytes, r, acc, n - 1);
      RegionBounds(r, n - 1);
      AppendRegion(bytes, r, n - 1, acc[n - 1]);
    }
  }

  lemma {:induction false} ReassembledLength(r: Status, acc: map<nat, seq<byte>>, n: nat)
    requires Geometry(r) && 0 < n <= r.totalChunks
    requires forall i :: 0 <= i < r.totalChunks ==> i in acc && |acc[i]| == ChunkLength(r, i)
    ensures |Reassembled(acc, n)| == ChunkEnd(r, n - 1)
  {
    if n > 1 {
      ReassembledLength(r, acc, n - 1);
      RegionBounds(r, n - 2);
    }
  }

  /** What follows leaves a region as it was. */
  lemma HoldsPrefix(bytes: seq<byte>, rest: seq<byte>, r: Status, k: nat, chunk: seq<byte>)
    requires HoldsChunk(bytes, r, k, chunk)
    ensures HoldsChunk(bytes + rest, r, k, chunk)
  {
    var from, to := Offset(r.chunkSize, k), ChunkEnd(r, k);
    assert (bytes + rest)[from..to] == bytes[from..to];
  }

  lemma LastChunk(r: Status, acc: map<nat, seq<byte>>, n: nat)
    requires Geometry(r) && 0 < n <= r.totalChunks
    requires forall i :: 0 <= i < r.totalChunks ==> i in acc && |acc[i]| == ChunkLength(r, i)
    ensures HoldsChunk(Reassembled(acc, n), r, n - 1, acc[n - 1])
  {
    var before := Reassembled(acc, n - 1);
    if n > 1 {
      ReassembledLength(r, acc, n - 1);
      RegionBounds(r, n - 2);
    }
    assert |before| == Offset(r.chunkSize, n - 1);
    assert (before + acc[n - 1])[|before|..|before| + |acc[n - 1]|] == acc[n - 1];
  }

  /** In the concatenation every chunk lies in its own region. */
  lemma {:induction false} ReassembledHolds(r: Status, acc: map<nat, seq<byte>>, n: nat, k: nat)
    requires Geometry(r) && k < n <= r.totalChunks
    requires forall i :: 0 <= i < r.totalChunks ==> i in acc && |acc[i]| == ChunkLength(r, i)
    ensures HoldsChunk(Reassembled(acc, n), r, k, acc[k])
  {
    if k < n - 1 {
      ReassembledHolds(r, acc, n - 1, k);
      HoldsPrefix(Reassembled(acc, n - 1), acc[n - 1], r, k, acc[k]);
    } else {
      LastChunk(r, acc, n);
    }
  }

  /** A complete upload's file is the concatenation of each index's first accepted bytes
      exactly when every one of them reached the file. */
  lemma {:induction false} FileIsReassembled(bytes: seq<byte>, r: Status, acc: map<nat, seq<byte>>, gap: set<nat>)
    requires WellFormed(r) && AcceptedOk(r, acc) && Holds(bytes, r, acc, gap) && Complete(r)
    ensures forall k :: 0 <= k < r.totalChunks ==> k in acc
    ensures bytes == Reassembled(acc, r.totalChunks) <==> gap == {}
  {
    CompleteMeansEveryChunk(r);
    var last := r.totalChunks - 1;
    forall k | 0 <= k < r.totalChunks ensures k in acc {
      assert k in r.receivedIndexes;
    }
    if gap == {} {
      PrefixReassembled(bytes, r, acc, last);
      RegionBounds(r, last);
      AppendRegion(bytes, r, last, acc[last]);
      assert bytes[..r.size] == bytes;
    } else if bytes == Reassembled(acc, r.totalChunks) {
      var k :| k in gap;
      assert k in r.receivedIndexes;
      ReassembledHolds(r, acc, r.totalChunks, k);
    }
  }

  /** Bytes written inside one chunk's region leave every other chunk as it was. */
  lemma {:induction false} WriteKeepsOthers(before: seq<byte>, after: seq<byte>, r: Status,
        acc: map<nat, seq<byte>>, gap: set<nat>, index: nat)
    requires WellFormed(r) && AcceptedOk(r, acc) && Holds(before, r, acc, gap)
    requires index < r.totalChunks && index !in acc && |after| == |before|
    requires forall b :: 0 <= b < |before| && !InRegion(r, index, b) ==> after[b] == before[b]
    ensures Holds(after, r, acc, gap)
  {
    forall k | k in acc ensures HoldsChunk(after, r, k, acc[k]) <==> HoldsChunk(before, r, k, acc[k]) {
      assert k in r.receivedIndexes;
      RegionBounds(r, k);
      if k < index { RegionsDisjoint(r, k, index); } else { RegionsDisjoint(r, index, k); }
      assert after[Offset(r.chunkSize, k)..ChunkEnd(r, k)] == before[Offset(r.chunkSize, k)..ChunkEnd(r, k)];
    }
  }

  ghost predicate SameGeometry(r: Status, m: Status) {
    m.size == r.size && m.chunkSize == r.chunkSize && m.totalChunks == r.totalChunks
  }

  lemma SameRegion(bytes: seq<byte>, r: Status, m: Status, k: nat, chunk: seq<byte>)
    requires SameGeometry(r, m)
    ensures ChunkLength(m, k) == ChunkLength(r, k)
    ensures HoldsChunk(bytes, m, k, chunk) <==> HoldsChunk(bytes, r, k, chunk)
  {
  }

  /** What the file holds depends only on the geometry and the accepted chunks. */
  lemma {:induction false} HoldsFrame(bytes: seq<byte>, r: Status, m: Status, acc: map<nat, seq<byte>>, gap: set<nat>)
    requires WellFormed(r) && AcceptedOk(r, acc) && WellFormed(m) && SameGeometry(r, m)
    requires forall k :: k in m.receivedIndexes <==> k in r.receivedIndexes
    ensures AcceptedOk(m, acc)
    ensures Holds(bytes, r, acc, gap) ==> Holds(bytes, m, acc, gap)
  {
    forall k | k in acc
      ensures |acc[k]| == ChunkLength(m, k)
      ensures HoldsChunk(bytes, m, k, acc[k]) <==> HoldsChunk(bytes, r, k, acc[k])
    {
      SameRegion(bytes, r, m, k, acc[k]);
    }
  }

  lemma {:induction false} ProgressMerge(s: Status, index: nat)
    requires WellFormed(s) && s.state == Receiving && index < s.totalChunks
    ensures 0 < ChunkLength(s, index)
    ensures var p := ProgressPatch(s, index, ChunkLength(s, index));
            && Extends(s, p)
            && WellFormed(MergeStatus(s, p)) && SameGeometry(s, MergeStatus(s, p))
            && forall k :: k in MergeStatus(s, p).receivedIndexes <==> k in s.receivedIndexes || k == index
  {
    ProgressKeepsWellFormed(s, index);
    ProgressAddsIndex(s, index, ChunkLength(s, index));
  }

  /** The bytes of an index count from the first win that records it. */
  function FirstAccepted(acc: map<nat, seq<byte>>, index: nat, chunk: seq<byte>): map<nat, seq<byte>> {
    if index in acc then acc else acc[index := chunk]
  }

  function GapAfter(gap: set<nat>, acc: map<nat, seq<byte>>, index: nat, full: bool): set<nat> {
    if index in acc || full then gap else gap + {index}
  }

  /** Recording a chunk extends what the file holds by that chunk, or by a gap there. */
  lemma {:induction false} RecordChunk(bytes: seq<byte>, r: Status, m: Status, acc: map<nat, seq<byte>>, gap: set<nat>,
        index: nat, chunk: seq<byte>, full: bool)
    requires WellFormed(r) && AcceptedOk(r, acc) && WellFormed(m) && SameGeometry(r, m)
    requires forall k :: k in m.receivedIndexes <==> k in r.receivedIndexes || k == index
    requires |chunk| == ChunkLength(r, index)
    ensures AcceptedOk(m, FirstAccepted(acc, index, chunk))
    ensures Holds(bytes, r, acc, gap) && (index !in acc ==> (HoldsChunk(bytes, r, index, chunk) <==> full)) ==>
              Holds(bytes, m, FirstAccepted(acc, index, chunk), GapAfter(gap, acc, index, full))
  {
    var acc' := FirstAccepted(acc, index, chunk);
    forall k | k in acc'
      ensures |acc'[k]| == ChunkLength(m, k)
      ensures HoldsChunk(bytes, m, k, acc'[k]) <==> HoldsChunk(bytes, r, k, acc'[k])
    {
      SameRegion(bytes, r, m, k, acc'[k]);
    }
  }

  /** The storage driver now holds, under `path`, a file of the declared size with every
      accepted chunk in its region but those in `gap`: all of them, in order, if there
      are none. */
  ghost predicate StoredAs(before: map<string, seq<byte>>, after: map<string, seq<byte>>, path: string,
                           s: Status, acc: map<nat, seq<byte>>, gap: set<nat>) {
    && path in after && after == before[path := after[path]]
    && |after[path]| == s.size
    && (forall k :: 0 <= k < s.totalChunks ==> k in acc && (HoldsChunk(after[path], s, k, acc[k]) <==> k !in gap))
    && (after[path] == Reassembled(acc, s.totalChunks) <==> gap == {})
  }

  lemma Stored(bytes: seq<byte>, s: Status, acc: map<nat, seq<byte>>, gap: set<nat>,
        before: map<string, seq<byte>>, path: string)
    requires WellFormed(s) && AcceptedOk(s, acc) && Holds(bytes, s, acc, gap) && Complete(s)
    ensures StoredAs(before, before[path := bytes], path, s, acc, gap)
  {
    FileIsReassembled(bytes, s, acc, gap);
  }

  /** The stored file of a later record of the same session is the same. */
  lemma StoredFrame(before: map<string, seq<byte>>, after: map<string, seq<byte>>, path: string,
        r: Status, s: Status, acc: map<nat, seq<byte>>, gap: set<nat>)
    requires SameGeometry(r, s) && StoredAs(before, after, path, s, acc, gap)
    ensures StoredAs(before, after, path, r, acc, gap)
  {
    forall k | 0 <= k < s.totalChunks
      ensures k in acc && (HoldsChunk(after[path], r, k, acc[k]) <==> k !in gap)
    {
      SameRegion(after[path], r, s, k, acc[k]);
    }
  }
}
