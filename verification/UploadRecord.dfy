/** The upload record kept in Redis, and the pure functions over it:
    `ensureSortedUnique`, `mergeStatus`, the snapshot update of `patchAndSync`
    and the chunk arithmetic. */
module UploadRecord {
  import opened Common

  datatype UploadState = Init | Receiving | ReadyToUpload | Uploading | Uploaded | Error

  datatype Status = Status(
    userId: nat,
    mime: string,
    size: nat,
    chunkSize: nat,
    totalChunks: nat,
    receivedBytes: nat,
    receivedIndexes: seq<nat>,
    state: UploadState,
    createdAt: int,
    expiresAt: int,
    remotePath: Option<string>,
    version: nat)

  /** `Partial<UploadStatus>`: an absent field is `None`. */
  datatype Patch = Patch(
    userId: Option<nat>,
    mime: Option<string>,
    size: Option<nat>,
    chunkSize: Option<nat>,
    totalChunks: Option<nat>,
    receivedBytes: Option<nat>,
    receivedIndexes: Option<seq<nat>>,
    state: Option<UploadState>,
    createdAt: Option<int>,
    expiresAt: Option<int>,
    remotePath: Option<string>)

  const EMPTY_PATCH := Patch(None, None, None, None, None, None, None, None, None, None, None)

  function Get<T>(o: Option<T>, default: T): T {
    if o.Some? then o.value else default
  }

  // ---------------------------------------------------------------- sorting

  ghost predicate StrictlyIncreasing(s: seq<nat>) {
    forall i, j :: 0 <= i < j < |s| ==> s[i] < s[j]
  }

  lemma Prepend(x: nat, rest: seq<nat>)
    ensures StrictlyIncreasing(rest) && (forall y :: y in rest ==> x < y) ==> StrictlyIncreasing([x] + rest)
  {
    assert forall j :: 0 <= j < |rest| ==> rest[j] in rest;
  }

  function Insert(x: nat, s: seq<nat>): (r: seq<nat>)
    ensures forall y :: y in r <==> y == x || y in s
    ensures StrictlyIncreasing(s) ==> StrictlyIncreasing(r)
  {
    if s == [] then [x]
    else
      assert forall y :: y in s <==> y == s[0] || y in s[1..];
      if x < s[0] then [x] + s
      else if x == s[0] then s
      else
        var rest := Insert(x, s[1..]);
        assert StrictlyIncreasing(s) ==> forall y :: y in s[1..] ==> s[0] < y;
        Prepend(s[0], rest);
        [s[0]] + rest
  }

  /** `Array.from(new Set(nums)).sort((a, b) => a - b)` */
  function EnsureSortedUnique(s: seq<nat>): (r: seq<nat>)
    ensures StrictlyIncreasing(r)
    ensures forall y :: y in r <==> y in s
  {
    if s == [] then []
    else
      assert forall y :: y in s <==> y == s[0] || y in s[1..];
      Insert(s[0], EnsureSortedUnique(s[1..]))
  }

  /** A strictly increasing list is determined by its elements, so the result of
      `ensureSortedUnique` does not depend on the order or repetition of its input. */
  lemma {:induction false} SortedUniqueIsCanonical(a: seq<nat>, b: seq<nat>)
    requires StrictlyIncreasing(a) && StrictlyIncreasing(b)
    requires forall y :: y in a <==> y in b
    ensures a == b
  {
    assert forall i :: 0 <= i < |a| ==> a[i] in b;
    assert forall i :: 0 <= i < |b| ==> b[i] in a;
    if a != [] && b != [] {
      forall y ensures y in a[1..] <==> y in b[1..] {
        assert y in a[1..] <==> y in a && y != a[0];
        assert y in b[1..] <==> y in b && y != b[0];
      }
      SortedUniqueIsCanonical(a[1..], b[1..]);
    }
  }

  lemma {:induction false} RoomAbove(s: seq<nat>, n: nat, i: nat)
    requires StrictlyIncreasing(s) && i < |s|
    requires forall x :: x in s ==> x < n
    ensures s[i] + |s| - i <= n
    decreases |s| - i
  {
    assert s[i] in s;
    if i + 1 < |s| { RoomAbove(s, n, i + 1); }
  }

  /** An increasing list of numbers below n leaves room for what follows each element. */
  lemma {:induction false} IndexBounds(s: seq<nat>, n: nat, i: nat)
    requires StrictlyIncreasing(s) && i < |s|
    requires forall x :: x in s ==> x < n
    ensures i <= s[i] && s[i] + |s| - i <= n
    decreases |s|
  {
    var last := |s| - 1;
    assert s[last] in s;
    if i > 0 { IndexBounds(s[..i], s[i], i - 1); }
    if i < last { RoomAbove(s, n, i); }
  }

  lemma {:induction false} AllPresent(s: seq<nat>, n: nat, i: nat)
    requires StrictlyIncreasing(s) && i <= n
    requires forall x :: x in s ==> x < n
    requires forall x :: 0 <= x < n ==> x in s
    ensures i <= |s| && forall j :: 0 <= j < i ==> s[j] == j
  {
    if i > 0 {
      AllPresent(s, n, i - 1);
      assert i - 1 in s;
      var j :| 0 <= j < |s| && s[j] == i - 1;
      IndexBounds(s, n, j);
    }
  }

  /** Pigeonhole: as many distinct indexes below n as n leaves only 0, 1, .., n-1. */
  lemma Pigeonhole(s: seq<nat>, n: nat)
    requires StrictlyIncreasing(s)
    requires forall x :: x in s ==> x < n
    ensures |s| <= n
    ensures |s| == n <==> (forall x :: 0 <= x < n ==> x in s)
    ensures |s| == n ==> forall i :: 0 <= i < n ==> s[i] == i
  {
    forall i | 0 <= i < |s| ensures i <= s[i] && s[i] + |s| - i <= n { IndexBounds(s, n, i); }
    if s != [] { IndexBounds(s, n, 0); }
    if forall x :: 0 <= x < n ==> x in s { AllPresent(s, n, n); }
    if |s| == n {
      forall x | 0 <= x < n ensures x in s { assert s[x] == x; }
    }
  }

  // ------------------------------------------------------------------ merge

  /** `mergeStatus` plus the version bump of `patchCAS`. */
  function MergeStatus(cur: Status, patch: Patch): Status {
    cur.(
      userId := Get(patch.userId, cur.userId),
      mime := Get(patch.mime, cur.mime),
      size := Get(patch.size, cur.size),
      chunkSize := Get(patch.chunkSize, cur.chunkSize),
      totalChunks := Get(patch.totalChunks, cur.totalChunks),
      receivedIndexes :=
        if patch.receivedIndexes.Some?
        then EnsureSortedUnique(cur.receivedIndexes + patch.receivedIndexes.value)
        else EnsureSortedUnique(cur.receivedIndexes),
      receivedBytes :=
        if patch.receivedBytes.Some?
        then Max(cur.receivedBytes, patch.receivedBytes.value)
        else cur.receivedBytes,
      expiresAt := Get(patch.expiresAt, cur.expiresAt),
      // createdAt is taken from the current record whatever the patch says
      state := Get(patch.state, cur.state),
      remotePath := if patch.remotePath.Some? then patch.remotePath else cur.remotePath,
      version := cur.version + 1)
  }

  /** The update `patchAndSync` makes to the caller's snapshot after a win. */
  function Sync(snap: Status, patch: Patch): Status {
    snap.(
      version := snap.version + 1,
      state := Get(patch.state, snap.state),
      receivedBytes := Get(patch.receivedBytes, snap.receivedBytes),
      receivedIndexes := Get(patch.receivedIndexes, snap.receivedIndexes),
      remotePath := if patch.remotePath.Some? then patch.remotePath else snap.remotePath,
      // a falsy mime or size in the patch is not copied
      mime := if patch.mime.Some? && patch.mime.value != "" then patch.mime.value else snap.mime,
      size := if patch.size.Some? && patch.size.value != 0 then patch.size.value else snap.size)
  }

  /** A patch whose fields `patchAndSync` copies, written by a caller whose
      progress extends its own snapshot. Every patch of the service is one. */
  ghost predicate Extends(snap: Status, patch: Patch) {
    && patch.userId.None? && patch.chunkSize.None? && patch.totalChunks.None?
    && patch.expiresAt.None? && patch.size.None?
    && (patch.mime.Some? ==> patch.mime.value != "")
    && (patch.receivedBytes.Some? ==> snap.receivedBytes <= patch.receivedBytes.value)
    && (patch.receivedIndexes.Some? ==>
          && StrictlyIncreasing(patch.receivedIndexes.value)
          && forall x :: x in snap.receivedIndexes ==> x in patch.receivedIndexes.value)
  }

  /** After a win the snapshot equals the stored record. */
  lemma SnapshotEqualsRecord(snap: Status, patch: Patch)
    requires StrictlyIncreasing(snap.receivedIndexes)
    requires Extends(snap, patch)
    ensures Sync(snap, patch) == MergeStatus(snap, patch)
  {
    var merged := MergeStatus(snap, patch).receivedIndexes;
    if patch.receivedIndexes.Some? {
      SortedUniqueIsCanonical(merged, patch.receivedIndexes.value);
    } else {
      SortedUniqueIsCanonical(merged, snap.receivedIndexes);
    }
  }

  /** A patch without progress leaves the index list as it is. */
  lemma NoProgressKeepsIndexes(s: Status, p: Patch)
    requires StrictlyIncreasing(s.receivedIndexes) && p.receivedIndexes.None?
    ensures MergeStatus(s, p).receivedIndexes == s.receivedIndexes
  {
    SortedUniqueIsCanonical(EnsureSortedUnique(s.receivedIndexes), s.receivedIndexes);
  }

  /** The merge never loses progress, whatever the patch. */
  lemma {:induction false} MergeKeepsProgress(cur: Status, patch: Patch)
    ensures var m := MergeStatus(cur, patch);
            && m.version == cur.version + 1
            && m.createdAt == cur.createdAt
            && cur.receivedBytes <= m.receivedBytes
            && StrictlyIncreasing(m.receivedIndexes)
            && forall x :: x in m.receivedIndexes <==>
                 x in cur.receivedIndexes
                 || (patch.receivedIndexes.Some? && x in patch.receivedIndexes.value)
  {
    if patch.receivedIndexes.Some? {
      assert forall x :: x in cur.receivedIndexes + patch.receivedIndexes.value <==>
          x in cur.receivedIndexes || x in patch.receivedIndexes.value;
    }
  }

  /** Field by field: what the patch has wins, what it lacks stays; progress only grows, and
      the creation time never changes. */
  lemma {:induction false} PatchWins(cur: Status, patch: Patch)
    ensures var m := MergeStatus(cur, patch);
            && m.userId == (if patch.userId.Some? then patch.userId.value else cur.userId)
            && m.mime == (if patch.mime.Some? then patch.mime.value else cur.mime)
            && m.size == (if patch.size.Some? then patch.size.value else cur.size)
            && m.chunkSize == (if patch.chunkSize.Some? then patch.chunkSize.value else cur.chunkSize)
            && m.totalChunks == (if patch.totalChunks.Some? then patch.totalChunks.value else cur.totalChunks)
            && m.state == (if patch.state.Some? then patch.state.value else cur.state)
            && m.createdAt == cur.createdAt && m.version == cur.version + 1
            && m.expiresAt == (if patch.expiresAt.Some? then patch.expiresAt.value else cur.expiresAt)
            && m.remotePath == (if patch.remotePath.Some? then patch.remotePath else cur.remotePath)
            && m.receivedBytes >= cur.receivedBytes
            && (patch.receivedBytes.Some? ==> m.receivedBytes >= patch.receivedBytes.value)
            && (m.receivedBytes == cur.receivedBytes || Some(m.receivedBytes) == patch.receivedBytes)
            && (StrictlyIncreasing(cur.receivedIndexes) && patch.receivedIndexes.None? ==>
                  m.receivedIndexes == cur.receivedIndexes)
  {
    if StrictlyIncreasing(cur.receivedIndexes) && patch.receivedIndexes.None? { NoProgressKeepsIndexes(cur, patch); }
  }

  // ------------------------------------------------------- chunk arithmetic

  /** `Math.ceil(a / b)` in exact arithmetic. */
  function CeilDiv(a: nat, b: nat): nat
    requires 0 < b
  {
    (a + b - 1) / b
  }

  lemma MulMono(a: nat, b: nat, c: nat)
    requires a <= b
    ensures a * c <= b * c
  {
  }

  /** `Math.ceil` picks the one number of chunks that just covers the file. */
  lemma {:induction false} CeilDivMeaning(a: nat, b: nat, n: nat)
    requires 0 < b
    ensures n == CeilDiv(a, b) <==> (n - 1) * b < a <= n * b
  {
    var m := CeilDiv(a, b);
    assert a + b - 1 == m * b + (a + b - 1) % b;
    assert (m - 1) * b == m * b - b;
    assert (n - 1) * b == n * b - b;
    if n < m { MulMono(n + 1, m, b); assert (n + 1) * b == n * b + b; }
    if m < n { MulMono(m + 1, n, b); assert (m + 1) * b == m * b + b; }
  }

  /** First byte of chunk k. */
  function Offset(cs: nat, k: nat): nat {
    k * cs
  }

  /** The length `assertChunkLength` demands of chunk k. */
  function ChunkLength(s: Status, k: nat): int {
    if k == s.totalChunks - 1 then s.size - Offset(s.chunkSize, k) else s.chunkSize
  }

  /** One past the last byte of chunk k. */
  function ChunkEnd(s: Status, k: nat): int {
    Offset(s.chunkSize, k) + ChunkLength(s, k)
  }

  /** `totalChunks` is the number of chunks covering the file; see `CeilDivMeaning`. */
  ghost predicate Geometry(s: Status) {
    && 0 < s.size && 0 < s.chunkSize && 0 < s.totalChunks
    && Offset(s.chunkSize, s.totalChunks - 1) < s.size <= Offset(s.chunkSize, s.totalChunks)
  }

  lemma OffsetStep(cs: nat, k: nat)
    ensures Offset(cs, k + 1) == Offset(cs, k) + cs
  {
  }

  lemma OffsetMono(cs: nat, j: nat, k: nat)
    requires j <= k
    ensures Offset(cs, j) <= Offset(cs, k)
  {
    MulMono(j, k, cs);
  }

  /** Regions lie inside the file, in order, without gap or overlap. */
  lemma {:induction false} RegionBounds(s: Status, k: nat)
    requires Geometry(s) && k < s.totalChunks
    ensures 0 < ChunkLength(s, k) <= s.chunkSize
    ensures ChunkEnd(s, k) <= s.size
    ensures k + 1 < s.totalChunks ==> ChunkEnd(s, k) == Offset(s.chunkSize, k + 1)
    ensures ChunkEnd(s, k) == s.size <==> k == s.totalChunks - 1
  {
    OffsetStep(s.chunkSize, k);
    OffsetStep(s.chunkSize, s.totalChunks - 1);
    if k < s.totalChunks - 1 { OffsetMono(s.chunkSize, k + 1, s.totalChunks - 1); }
  }

  /** Every chunk has the chunk size but the last, which has what is left. */
  lemma {:induction false} ChunkLengthMeaning(s: Status, k: nat)
    requires 0 < s.size && 0 < s.chunkSize && k < s.totalChunks
    requires (s.totalChunks - 1) * s.chunkSize < s.size <= s.totalChunks * s.chunkSize
    ensures ChunkLength(s, k)
         == if s.size - k * s.chunkSize < s.chunkSize then s.size - k * s.chunkSize else s.chunkSize
  {
    if k < s.totalChunks - 1 {
      MulMono(k + 1, s.totalChunks - 1, s.chunkSize);
      OffsetStep(s.chunkSize, k);
    } else {
      OffsetStep(s.chunkSize, s.totalChunks - 1);
    }
  }

  ghost predicate InRegion(s: Status, k: nat, b: nat) {
    Offset(s.chunkSize, k) <= b < ChunkEnd(s, k)
  }

  lemma {:induction false} RegionsDisjoint(s: Status, j: nat, k: nat)
    requires Geometry(s) && j < k < s.totalChunks
    ensures ChunkEnd(s, j) <= Offset(s.chunkSize, k) < ChunkEnd(s, k)
  {
    RegionBounds(s, j);
    RegionBounds(s, k);
    OffsetMono(s.chunkSize, j + 1, k);
  }

  /** The regions tile [0, size): every byte lies in exactly one of them. */
  lemma {:induction false} RegionsTile(s: Status, b: nat)
    requires Geometry(s) && b < s.size
    ensures b / s.chunkSize < s.totalChunks && InRegion(s, b / s.chunkSize, b)
    ensures forall k: nat :: k < s.totalChunks && InRegion(s, k, b) ==> k == b / s.chunkSize
  {
    var q, c := b / s.chunkSize, s.chunkSize;
    assert b == Offset(c, q) + b % c;
    if s.totalChunks <= q { OffsetMono(c, s.totalChunks, q); }
    RegionBounds(s, q);
    forall k: nat | k < s.totalChunks && InRegion(s, k, b) ensures k == q {
      if k < q { RegionsDisjoint(s, k, q); }
      if q < k { RegionsDisjoint(s, q, k); }
    }
  }

  // --------------------------------------------------------- record invariant

  ghost predicate Complete(s: Status) {
    |s.receivedIndexes| == s.totalChunks
  }

  /** End of the furthest received region; 0 when nothing was received. */
  ghost function ReceivedEnd(s: Status): int {
    if s.receivedIndexes == [] then 0
    else
      var last := s.receivedIndexes[|s.receivedIndexes| - 1];
      ChunkEnd(s, last)
  }

  /** What every stored record satisfies. */
  ghost predicate WellFormed(s: Status) {
    && Geometry(s)
    && 1 <= s.version
    && StrictlyIncreasing(s.receivedIndexes)
    && (forall x :: x in s.receivedIndexes ==> x < s.totalChunks)
    && s.receivedBytes == ReceivedEnd(s)
    && (s.state == Init ==> s.receivedIndexes == [])
    && (s.state !in {Init, Receiving} ==> Complete(s))
  }

  /** `receivedBytes` is the largest end of a received region, is at most `size`,
      and equals it exactly when the last chunk is in. */
  lemma {:induction false} ReceivedBytesMeaning(s: Status)
    requires WellFormed(s)
    ensures s.receivedBytes <= s.size
    ensures forall k :: k in s.receivedIndexes ==>
              ChunkEnd(s, k) <= s.receivedBytes
    ensures s.receivedIndexes != [] ==>
              exists k :: k in s.receivedIndexes
                && ChunkEnd(s, k) == s.receivedBytes
    ensures s.receivedBytes == s.size <==> s.totalChunks - 1 in s.receivedIndexes
  {
    var idx := s.receivedIndexes;
    if idx == [] { return; }
    var last := idx[|idx| - 1];
    assert last in idx;
    RegionBounds(s, last);
    forall k | k in idx ensures ChunkEnd(s, k) <= s.receivedBytes {
      if k != last { RegionsDisjoint(s, k, last); }
    }
    if s.totalChunks - 1 in idx { assert s.totalChunks - 1 <= last; }
  }

  /** Completeness is decided by the length alone. */
  lemma CompleteMeansEveryChunk(s: Status)
    requires WellFormed(s)
    ensures |s.receivedIndexes| <= s.totalChunks
    ensures Complete(s) <==> (forall k :: 0 <= k < s.totalChunks ==> k in s.receivedIndexes)
    ensures Complete(s) ==> forall i :: 0 <= i < s.totalChunks ==> s.receivedIndexes[i] == i
  {
    Pigeonhole(s.receivedIndexes, s.totalChunks);
  }

  /** `Math.floor(length / totalChunks * 100)` in exact arithmetic. */
  function Percent(s: Status): int
    requires 0 < s.totalChunks
  {
    (|s.receivedIndexes| * 100) / s.totalChunks
  }

  lemma {:induction false} PercentArithmetic(l: nat, n: nat)
    requires 0 < n && l <= n
    ensures 0 <= (l * 100) / n <= 100
    ensures (l * 100) / n == 100 <==> l == n
  {
    var q := (l * 100) / n;
    assert l * 100 == q * n + (l * 100) % n;
    if 100 < q { MulMono(101, q, n); }
    if q < 100 { MulMono(q + 1, 100, n); assert (q + 1) * n == q * n + n; }
  }

  lemma PercentFloor(l: nat, n: nat)
    requires 0 < n
    ensures var q := (l * 100) / n; q * n <= 100 * l < (q + 1) * n
  {
    var q := (l * 100) / n;
    assert l * 100 == q * n + (l * 100) % n;
    assert (q + 1) * n == q * n + n;
  }

  lemma PercentHundredIffComplete(s: Status)
    requires WellFormed(s)
    ensures 0 <= Percent(s) <= 100
    ensures Percent(s) == 100 <==> Complete(s)
    ensures Percent(s) * s.totalChunks <= 100 * |s.receivedIndexes| < (Percent(s) + 1) * s.totalChunks
  {
    CompleteMeansEveryChunk(s);
    PercentFloor(|s.receivedIndexes|, s.totalChunks);
    PercentArithmetic(|s.receivedIndexes|, s.totalChunks);
  }

  // ------------------------------------------------- the patches of the service

  const RECEIVING_PATCH := EMPTY_PATCH.(state := Some(Receiving))

  function StatePatch(st: UploadState): Patch {
    EMPTY_PATCH.(state := Some(st))
  }

  /** A patch of the state alone changes the state and the version. */
  lemma StatePatchMerge(s: Status, st: UploadState)
    requires StrictlyIncreasing(s.receivedIndexes)
    ensures MergeStatus(s, StatePatch(st)) == s.(state := st, version := s.version + 1)
  {
    NoProgressKeepsIndexes(s, StatePatch(st));
  }

  function MimePatch(m: string): Patch {
    EMPTY_PATCH.(mime := Some(m))
  }

  lemma MimePatchMerge(s: Status, m: string)
    requires StrictlyIncreasing(s.receivedIndexes)
    ensures MergeStatus(s, MimePatch(m)) == s.(mime := m, version := s.version + 1)
  {
    NoProgressKeepsIndexes(s, MimePatch(m));
  }

  function ReadyPatch(path: string): Patch {
    EMPTY_PATCH.(state := Some(ReadyToUpload), remotePath := Some(path))
  }

  lemma ReadyPatchMerge(s: Status, path: string)
    requires StrictlyIncreasing(s.receivedIndexes)
    ensures MergeStatus(s, ReadyPatch(path))
         == s.(state := ReadyToUpload, remotePath := Some(path), version := s.version + 1)
  {
    NoProgressKeepsIndexes(s, ReadyPatch(path));
  }

  /** The progress patch of `writeChunk` for an accepted chunk. */
  function ProgressPatch(s: Status, index: nat, length: nat): Patch {
    EMPTY_PATCH.(
      receivedBytes := Some(Max(s.receivedBytes, Offset(s.chunkSize, index) + length)),
      receivedIndexes := Some(
        if index in s.receivedIndexes then s.receivedIndexes
        else EnsureSortedUnique(s.receivedIndexes + [index])))
  }

  lemma ProgressAddsIndex(s: Status, index: nat, length: nat)
    requires StrictlyIncreasing(s.receivedIndexes)
    ensures var p := ProgressPatch(s, index, length);
            && Extends(s, p)
            && MergeStatus(s, p) == Sync(s, p)
            && forall x :: x in MergeStatus(s, p).receivedIndexes <==>
                 x in s.receivedIndexes || x == index
  {
    var p := ProgressPatch(s, index, length);
    assert forall x :: x in s.receivedIndexes + [index] <==> x in s.receivedIndexes || x == index;
    SnapshotEqualsRecord(s, p);
  }

  lemma {:induction false} EndsIncrease(s: Status, j: nat, k: nat)
    requires Geometry(s) && j < k < s.totalChunks
    ensures ChunkEnd(s, j) <= ChunkEnd(s, k)
  {
    RegionsDisjoint(s, j, k);
  }

  lemma LastAfterInsert(s: seq<nat>, x: nat, r: seq<nat>)
    requires StrictlyIncreasing(s) && StrictlyIncreasing(r)
    requires forall y :: y in r <==> y in s || y == x
    ensures r != []
    ensures r[|r| - 1] == if s == [] then x else Max(s[|s| - 1], x)
  {
    assert x in r;
    assert r[|r| - 1] in r;
    if s != [] { assert s[|s| - 1] in r; }
  }

  lemma EndAfterInsert(s: Status, m: Status, index: nat)
    requires WellFormed(s) && index < s.totalChunks
    requires m == s.(receivedIndexes := m.receivedIndexes,
                     receivedBytes := Max(s.receivedBytes, ChunkEnd(s, index)),
                     version := m.version)
    requires StrictlyIncreasing(m.receivedIndexes)
    requires forall x :: x in m.receivedIndexes <==> x in s.receivedIndexes || x == index
    ensures ReceivedEnd(m) == m.receivedBytes
  {
    var idx := s.receivedIndexes;
    LastAfterInsert(idx, index, m.receivedIndexes);
    if idx != [] {
      var last := idx[|idx| - 1];
      assert last in idx;
      if last < index { EndsIncrease(s, last, index); }
      if index < last { EndsIncrease(s, index, last); }
    }
  }

  lemma ProgressShape(s: Status, index: nat)
    requires 0 <= ChunkLength(s, index)
    ensures var m := MergeStatus(s, ProgressPatch(s, index, ChunkLength(s, index)));
            m == s.(receivedIndexes := m.receivedIndexes,
                    receivedBytes := Max(s.receivedBytes, ChunkEnd(s, index)),
                    version := s.version + 1)
  {
  }

  lemma StillWellFormed(s: Status, m: Status, index: nat)
    requires WellFormed(s) && s.state == Receiving && index < s.totalChunks
    requires m == s.(receivedIndexes := m.receivedIndexes,
                     receivedBytes := Max(s.receivedBytes, ChunkEnd(s, index)),
                     version := s.version + 1)
    requires StrictlyIncreasing(m.receivedIndexes)
    requires forall x :: x in m.receivedIndexes <==> x in s.receivedIndexes || x == index
    ensures WellFormed(m)
  {
    EndAfterInsert(s, m, index);
  }

  /** Recording an accepted chunk keeps the record well formed and adds exactly its index. */
  lemma {:induction false} ProgressKeepsWellFormed(s: Status, index: nat)
    requires WellFormed(s) && s.state == Receiving && index < s.totalChunks
    ensures ChunkLength(s, index) > 0
    ensures WellFormed(MergeStatus(s, ProgressPatch(s, index, ChunkLength(s, index))))
  {
    RegionBounds(s, index);
    ProgressAddsIndex(s, index, ChunkLength(s, index));
    ProgressShape(s, index);
    StillWellFormed(s, MergeStatus(s, ProgressPatch(s, index, ChunkLength(s, index))), index);
  }
}
