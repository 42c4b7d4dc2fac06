/** Sessions, their indexes and the links to their refresh tokens: `SessionService` for
    calls that run one at a time. `RefreshService` works on the same keys. */
module Sessions {
  import opened AuthTokens
  import opened Common

  datatype SessionRecord = SessionRecord(id: Id, userId: Id, createdAt: int, lastUsedAt: int)

  ghost predicate InverseRelations(reverse: map<Id, Key>, linked: set<(Key, Id)>, lapsed: set<Id>,
        signed: map<Id, Token>)
  {
    && (forall j :: j in reverse ==> (reverse[j], j) in linked)
    && (forall k, j :: (k, j) in linked ==> j in lapsed || (j in reverse && reverse[j] == k))
    && (forall k, j :: (k, j) in linked ==> j in signed && signed[j].sub == k.0 && signed[j].sid == k.1)
  }

  /** Every allow record was stored for its token, and one that names a session has its
      jti in that session's set, excepting the jtis in `loose`. */
  ghost predicate AllowLinked(allow: map<Id, AllowRecord>, linked: set<(Key, Id)>, signed: map<Id, Token>,
        loose: set<Id>)
  {
    && (forall j :: j in allow ==> j in signed && RecordFits(allow[j], signed[j]))
    && (forall j :: j in allow && allow[j].sid.Some? ==>
          ((allow[j].user, allow[j].sid.value), j) in linked || j in loose)
  }

  ghost predicate ListsKnown(allow: map<Id, AllowRecord>, black: set<Id>, signed: map<Id, Token>, delFailed: set<Id>) {
    && (forall j :: j in allow && j in black ==> j in delFailed)
    && (forall j :: j in black ==> j in signed)
    && (forall j :: j in signed ==> signed[j].jti == j)
  }

  datatype SessionKeys = SessionKeys(
    session: map<Key, SessionRecord>, index: set<Key>, zindex: map<Key, int>,
    linked: set<(Key, Id)>, reverse: map<Id, Key>, allow: map<Id, AllowRecord>)

  /** The keys the services share. `index` and `zindex` hold the members of all users'
      session SETs and ZSETs, `linked` the members of the per-session jti SETs. */
  class Redis {
    var session: map<Key, SessionRecord>   // auth:session:<user>:<sid>
    var index: set<Key>                    // auth:session:index:<user>
    var zindex: map<Key, int>              // auth:session:index:z:<user>
    var linked: set<(Key, Id)>             // auth:session:jtis:<user>:<sid>
    var reverse: map<Id, Key>              // auth:session:jti:index:<jti>
    var allow: map<Id, AllowRecord>        // auth:refresh:allow:<jti>
    var black: set<Id>                     // auth:rbl:<jti>
    ghost var signed: map<Id, Token>       // every refresh token ever signed
    ghost var lapsed: set<Id>              // jtis whose reverse entry expired
    ghost var stray: set<Id>               // jtis whose link failed
    ghost var delFailed: set<Id>           // jtis whose DEL in a token revoke failed

    constructor ()
      ensures Valid()
      ensures session == map[] && index == {} && zindex == map[] && linked == {} && reverse == map[]
      ensures allow == map[] && black == {} && signed == map[] && lapsed == {} && stray == {} && delFailed == {}
    {
      session, index, zindex, linked, reverse := map[], {}, map[], {}, map[];
      allow, black, signed, lapsed, stray, delFailed := map[], {}, map[], {}, {}, {};
    }

    /** SET and ZSET have the same members; every live record is in both, scored by lastUsedAt. */
    ghost predicate IndexesAgree()
      reads this`session, this`index, this`zindex
    {
      && index == zindex.Keys
      && (forall k :: k in session ==>
            k in index && zindex[k] == session[k].lastUsedAt
            && session[k].userId == k.0 && session[k].id == k.1)
    }

    /** The reverse map and the jti sets are inverse relations, until an entry expires. */
    ghost predicate Inverse()
      reads this`reverse, this`linked, this`lapsed, this`signed
    {
      InverseRelations(reverse, linked, lapsed, signed)
    }

    /** An allow record that names a session has its jti in that session's set, unless
        the link or a DEL failed; nothing is both allowed and blacklisted unless a DEL failed. */
    ghost predicate AllowKnown()
      reads this`allow, this`black, this`linked, this`signed, this`stray, this`delFailed
    {
      AllowLinked(allow, linked, signed, stray + delFailed) && ListsKnown(allow, black, signed, delFailed)
    }

    ghost predicate Valid()
      reads this
    {
      IndexesAgree() && Inverse() && AllowKnown()
    }

    ghost function Sessions(): SessionKeys
      reads this
    {
      SessionKeys(session, index, zindex, linked, reverse, allow)
    }

    // ------------------------------------------------------------- expiry

    method ExpireSession(k: Key)
      requires Valid()
      modifies this`session
      ensures Valid() && session == old(session) - {k}
    {
      session := session - {k};
    }

    method ExpireAllow(j: Id)
      requires Valid()
      modifies this`allow
      ensures Valid() && allow == old(allow) - {j}
    {
      allow := allow - {j};
    }

    method ExpireReverse(j: Id)
      requires Valid()
      modifies this`reverse, this`lapsed
      ensures Valid() && reverse == old(reverse) - {j} && lapsed == old(lapsed) + {j}
    {
      reverse := reverse - {j};
      lapsed := lapsed + {j};
    }

    method ExpireBlack(j: Id)
      requires Valid()
      modifies this`black
      ensures Valid() && black == old(black) - {j}
    {
      black := black - {j};
    }
  }

  // ------------------------------------------------------------------ ordering

  /** Newest first. */
  ghost predicate Desc(rs: seq<SessionRecord>) {
    forall i, j :: 0 <= i < j < |rs| ==> rs[i].lastUsedAt >= rs[j].lastUsedAt
  }

  ghost predicate Newer(r: SessionRecord, s: SessionRecord) {
    r.lastUsedAt > s.lastUsedAt || (r.lastUsedAt == s.lastUsedAt && r.id > s.id)
  }

  ghost predicate StrictlyDesc(rs: seq<SessionRecord>) {
    forall i, j :: 0 <= i < j < |rs| ==> Newer(rs[i], rs[j])
  }

  function InsertRecord(r: SessionRecord, rs: seq<SessionRecord>): seq<SessionRecord> {
    if rs == [] || r.lastUsedAt > rs[0].lastUsedAt then [r] + rs
    else [rs[0]] + InsertRecord(r, rs[1..])
  }

  /** `items.sort((a, b) => b.lastUsedAt - a.lastUsedAt)` */
  function SortRecords(rs: seq<SessionRecord>): seq<SessionRecord> {
    if rs == [] then [] else InsertRecord(rs[0], SortRecords(rs[1..]))
  }

  lemma {:induction false} InsertKeeps(r: SessionRecord, rs: seq<SessionRecord>)
    requires Desc(rs) && Distinct(rs) && r !in rs
    ensures Desc(InsertRecord(r, rs)) && Distinct(InsertRecord(r, rs))
    ensures forall x :: x in InsertRecord(r, rs) <==> x == r || x in rs
  {
    if rs != [] && r.lastUsedAt <= rs[0].lastUsedAt {
      assert forall x :: x in rs <==> x == rs[0] || x in rs[1..];
      InsertKeeps(r, rs[1..]);
      var t := InsertRecord(r, rs[1..]);
      forall i | 0 <= i < |t| ensures rs[0].lastUsedAt >= t[i].lastUsedAt && t[i] != rs[0] {
        assert t[i] in t;
        if t[i] in rs[1..] {
          var j :| 0 <= j < |rs[1..]| && rs[1..][j] == t[i];
          assert rs[0] != rs[j + 1];
        }
      }
    }
  }

  lemma {:induction false} SortKeeps(rs: seq<SessionRecord>)
    requires Distinct(rs)
    ensures Desc(SortRecords(rs)) && Distinct(SortRecords(rs))
    ensures forall x :: x in SortRecords(rs) <==> x in rs
  {
    if rs != [] {
      assert forall x :: x in rs <==> x == rs[0] || x in rs[1..];
      SortKeeps(rs[1..]);
      assert rs[0] !in rs[1..];
      InsertKeeps(rs[0], SortRecords(rs[1..]));
    }
  }

  lemma InWithout(rs: seq<SessionRecord>, k: nat, x: SessionRecord)
    requires Distinct(rs) && k < |rs|
    ensures x in rs[..k] + rs[k + 1..] <==> x in rs && x != rs[k]
  {
    var t := rs[..k] + rs[k + 1..];
    if x in rs && x != rs[k] {
      var i :| 0 <= i < |rs| && rs[i] == x;
      if i < k { assert t[i] == x; } else { assert t[i - 1] == x; }
    }
    if x in t {
      var i :| 0 <= i < |t| && t[i] == x;
      assert x == rs[if i < k then i else i + 1];
    }
  }

  lemma RemoveAt(rs: seq<SessionRecord>, k: nat)
    requires Desc(rs) && Distinct(rs) && k < |rs|
    ensures var t := rs[..k] + rs[k + 1..];
            && Desc(t) && Distinct(t)
            && forall x :: x in t <==> x in rs && x != rs[k]
  {
    var t := rs[..k] + rs[k + 1..];
    assert forall i :: 0 <= i < |t| ==> t[i] == rs[if i < k then i else i + 1];
    forall x ensures x in t <==> x in rs && x != rs[k] { InWithout(rs, k, x); }
  }

  lemma RemoveFirst(rs: seq<SessionRecord>)
    requires Desc(rs) && Distinct(rs) && rs != []
    ensures Desc(rs[1..]) && Distinct(rs[1..])
    ensures forall x :: x in rs[1..] <==> x in rs && x != rs[0]
  {
    assert forall x :: x in rs <==> x == rs[0] || x in rs[1..];
  }

  /** Up to the position of the overall newest record, all are equally new. */
  lemma TiedPrefix(b: seq<SessionRecord>, k: nat, i: nat)
    requires Desc(b) && i <= k < |b| && b[0].lastUsedAt <= b[k].lastUsedAt
    ensures b[i].lastUsedAt == b[k].lastUsedAt
  {
  }

  /** Without the record at the head of a, the two lists still hold the same records. */
  lemma TailsAgree(a: seq<SessionRecord>, b: seq<SessionRecord>) returns (k: nat)
    requires Desc(a) && Desc(b) && Distinct(a) && Distinct(b) && a != []
    requires forall x :: x in a <==> x in b
    ensures k < |b| && b[k] == a[0]
    ensures var t := b[..k] + b[k + 1..];
            Desc(a[1..]) && Desc(t) && Distinct(a[1..]) && Distinct(t) && forall x :: x in a[1..] <==> x in t
  {
    assert a[0] in b;
    k :| 0 <= k < |b| && b[k] == a[0];
    RemoveAt(b, k);
    RemoveFirst(a);
  }

  lemma SameAt(a: seq<SessionRecord>, b: seq<SessionRecord>, k: nat, i: nat)
    requires Desc(a) && Desc(b) && |a| == |b| && k < |b| && b[k] == a[0] && b[0] in a && i < |a|
    requires var t := b[..k] + b[k + 1..];
             forall h :: 0 <= h < |t| ==> a[1..][h].lastUsedAt == t[h].lastUsedAt
    ensures a[i].lastUsedAt == b[i].lastUsedAt
  {
    var t := b[..k] + b[k + 1..];
    assert a[0].lastUsedAt >= b[0].lastUsedAt;
    if i == 0 {
      TiedPrefix(b, k, 0);
    } else {
      assert a[i] == a[1..][i - 1];
      if i <= k {
        assert t[i - 1] == b[i - 1];
        TiedPrefix(b, k, i - 1);
        TiedPrefix(b, k, i);
      } else {
        assert t[i - 1] == b[i];
      }
    }
  }

  /** Two newest-first lists of the same records agree position by position, up to ties. */
  lemma {:induction false} SameUpToTies(a: seq<SessionRecord>, b: seq<SessionRecord>)
    requires Desc(a) && Desc(b) && Distinct(a) && Distinct(b)
    requires forall x :: x in a <==> x in b
    ensures |a| == |b|
    ensures forall i :: 0 <= i < |a| ==> a[i].lastUsedAt == b[i].lastUsedAt
  {
    assert b != [] ==> b[0] in a;
    if a != [] {
      var k := TailsAgree(a, b);
      SameUpToTies(a[1..], b[..k] + b[k + 1..]);
      forall i | 0 <= i < |a| ensures a[i].lastUsedAt == b[i].lastUsedAt {
        SameAt(a, b, k, i);
      }
    }
  }

  // ------------------------------------------------------------ SessionService

  /** The jtis in the sets of the sessions ks. */
  function JtisOf(linked: set<(Key, Id)>, ks: set<Key>): set<Id> {
    set l | l in linked && l.0 in ks :: l.1
  }

  predicate Covers(linked: set<(Key, Id)>, k: Key, jtis: seq<Id>) {
    && (forall j :: j in jtis ==> (k, j) in linked)
    && (forall l :: l in linked && l.0 == k ==> l.1 in jtis)
  }

  ghost predicate SameWithout<T>(m: map<Id, T>, before: map<Id, T>, gone: seq<Id>) {
    && (forall j :: j in m <==> j in before && j !in gone)
    && (forall j :: j in m ==> m[j] == before[j])
  }

  /** Deleting the jtis of a covering read deletes those of the session's set. */
  lemma WithoutCovered<T>(m: map<Id, T>, before: map<Id, T>, jtis: seq<Id>, linked: set<(Key, Id)>, k: Key)
    requires SameWithout(m, before, jtis) && Covers(linked, k, jtis)
    ensures m == before - JtisOf(linked, {k})
  {
    forall j ensures j in jtis <==> j in JtisOf(linked, {k}) {
      if j in jtis { assert (k, j) in linked; }
    }
  }

  function Unlinked(linked: set<(Key, Id)>, ks: set<Key>): set<(Key, Id)> {
    set l | l in linked && l.0 !in ks
  }

  lemma UnlinkedAgain(linked: set<(Key, Id)>, ks: set<Key>, more: set<Key>)
    requires ks !! more
    ensures Unlinked(Unlinked(linked, ks), more) == Unlinked(linked, ks + more)
    ensures JtisOf(linked, ks) + JtisOf(Unlinked(linked, ks), more) == JtisOf(linked, ks + more)
  {
    forall j | j in JtisOf(linked, ks + more) ensures j in JtisOf(linked, ks) + JtisOf(Unlinked(linked, ks), more) {
      var l :| l in linked && l.0 in ks + more && l.1 == j;
      if l.0 in more { assert l in Unlinked(linked, ks); }
    }
  }

  /** The keys without the sessions ks: no record, no index entry, no jti set, and neither
      reverse entry nor allow record of any jti those sets held. */
  function Revoked(s: SessionKeys, ks: set<Key>): SessionKeys {
    SessionKeys(s.session - ks, s.index - ks, s.zindex - ks, Unlinked(s.linked, ks),
                s.reverse - JtisOf(s.linked, ks), s.allow - JtisOf(s.linked, ks))
  }

  lemma RevokedAgain(s: SessionKeys, ks: set<Key>, more: set<Key>)
    requires ks !! more
    ensures Revoked(Revoked(s, ks), more) == Revoked(s, ks + more)
  {
    UnlinkedAgain(s.linked, ks, more);
  }

  function KeysOf(u: Id, sids: seq<Id>): set<Key> {
    set sid | sid in sids :: (u, sid)
  }

  /** Which allow records go with the sessions ks, and which of theirs stay. */
  lemma {:induction false} RevokedTokens(allow: map<Id, AllowRecord>, linked: set<(Key, Id)>, reverse: map<Id, Key>,
        lapsed: set<Id>, signed: map<Id, Token>, loose: set<Id>, ks: set<Key>)
    requires AllowLinked(allow, linked, signed, loose) && InverseRelations(reverse, linked, lapsed, signed)
    ensures forall j :: j in allow && j !in allow - JtisOf(linked, ks) ==> (signed[j].sub, signed[j].sid) in ks
    ensures forall j: Id, k: Key :: j in allow - JtisOf(linked, ks) && Names(allow[j], k) && k in ks ==> j in loose
  {
    forall j: Id, k: Key | j in allow - JtisOf(linked, ks) && Names(allow[j], k) && k in ks ensures j in loose {
      assert (k, j) in linked ==> j in JtisOf(linked, ks);
    }
  }

  predicate AllCovered(linked: set<(Key, Id)>, u: Id, sids: seq<Id>, read: seq<seq<Id>>) {
    |read| == |sids| && forall i :: 0 <= i < |sids| ==> Covers(linked, (u, sids[i]), read[i])
  }

  lemma NoneRevoked(s: SessionKeys, ks: set<Key>)
    requires forall k :: k !in ks
    ensures Revoked(s, ks) == s
  {
    assert ks == {};
  }

  lemma NextCovered(linked: set<(Key, Id)>, u: Id, sids: seq<Id>, i: nat, read: seq<seq<Id>>)
    requires Distinct(sids) && AllCovered(linked, u, sids, read) && i < |sids|
    ensures Covers(Unlinked(linked, KeysOf(u, sids[..i])), (u, sids[i]), read[i])
    ensures (u, sids[i]) !in KeysOf(u, sids[..i])
    ensures KeysOf(u, sids[..i + 1]) == KeysOf(u, sids[..i]) + {(u, sids[i])}
  {
    assert Covers(linked, (u, sids[i]), read[i]);
    assert forall x :: x in sids[..i + 1] <==> x in sids[..i] || x == sids[i];
  }

  function Indexed(index: set<Key>, u: Id): set<Key> {
    set k | k in index && k.0 == u
  }

  /** SMEMBERS of a user's session index. */
  function SidsOf(index: set<Key>, u: Id): set<Id> {
    set k | k in index && k.0 == u :: k.1
  }

  ghost predicate LiveRecord(session: map<Key, SessionRecord>, u: Id, r: SessionRecord) {
    (u, r.id) in session && session[(u, r.id)] == r
  }

  /** The pipeline of a session revoke with a read that may be stale: the two relations
      are still inverse exactly when the jtis read cover the session's reverse entries. */
  lemma {:induction false} PipelineInverse(reverse: map<Id, Key>, linked: set<(Key, Id)>, lapsed: set<Id>,
        signed: map<Id, Token>, k: Key, jtis: seq<Id>, reverse': map<Id, Key>)
    requires InverseRelations(reverse, linked, lapsed, signed)
    requires forall j :: j in jtis ==> j in signed && signed[j].sub == k.0 && signed[j].sid == k.1
    requires SameWithout(reverse', reverse, jtis)
    ensures InverseRelations(reverse', Unlinked(linked, {k}), lapsed, signed) <==>
              forall j :: j in reverse && reverse[j] == k ==> j in jtis
    ensures (forall j :: (k, j) in linked ==> j in jtis) ==> forall j :: j in reverse && reverse[j] == k ==> j in jtis
  {
    var linked' := Unlinked(linked, {k});
    assert forall j :: j in reverse && reverse[j] == k && j !in jtis ==> j in reverse' && (reverse'[j], j) !in linked';
    if !InverseRelations(reverse', linked', lapsed, signed) {
      assert exists j :: j in reverse' && (reverse'[j], j) !in linked' by {
        forall h: Key, j | (h, j) in linked' ensures j in lapsed || (j in reverse' && reverse'[j] == h) {
          assert (h, j) in linked;
        }
      }
    }
  }

  /** The same pipeline on the allow-list: no record names the session afterwards exactly
      when the jtis read cover those that did; a covering read keeps the invariant. */
  lemma {:induction false} PipelineAllow(allow: map<Id, AllowRecord>, linked: set<(Key, Id)>,
        signed: map<Id, Token>, loose: set<Id>, k: Key, jtis: seq<Id>, allow': map<Id, AllowRecord>)
    requires AllowLinked(allow, linked, signed, loose) && SameWithout(allow', allow, jtis)
    ensures (forall j :: j in allow' ==> !Names(allow'[j], k)) <==>
              forall j :: j in allow && Names(allow[j], k) ==> j in jtis
    ensures (forall j :: (k, j) in linked ==> j in jtis) ==>
              && AllowLinked(allow', Unlinked(linked, {k}), signed, loose)
              && forall j :: j in allow' && Names(allow'[j], k) ==> j in loose
  {
    if forall j :: (k, j) in linked ==> j in jtis {
      forall j | j in allow' && allow'[j].sid.Some?
        ensures ((allow'[j].user, allow'[j].sid.value), j) in Unlinked(linked, {k}) || j in loose
      {
        assert allow'[j] == allow[j];
      }
    }
  }

  /** The records of those of the sessions that are live, in order. */
  function LiveOf(session: map<Key, SessionRecord>, u: Id, sids: seq<Id>): seq<SessionRecord> {
    if sids == [] then []
    else
      var n := |sids| - 1;
      LiveOf(session, u, sids[..n]) + if (u, sids[n]) in session then [session[(u, sids[n])]] else []
  }

  lemma {:induction false} LiveOfMeaning(redis: Redis, u: Id, sids: seq<Id>)
    requires redis.Valid() && Distinct(sids)
    ensures Distinct(LiveOf(redis.session, u, sids))
    ensures forall r :: r in LiveOf(redis.session, u, sids) <==> r.id in sids && LiveRecord(redis.session, u, r)
  {
    if sids != [] {
      var n := |sids| - 1;
      LiveOfMeaning(redis, u, sids[..n]);
      assert forall x :: x in sids <==> x in sids[..n] || x == sids[n];
      assert sids[n] !in sids[..n];
      var before := LiveOf(redis.session, u, sids[..n]);
      if (u, sids[n]) in redis.session {
        var last := redis.session[(u, sids[n])];
        assert forall r :: r in before + [last] <==> r in before || r == last;
      }
    }
  }

  lemma {:induction false} AllLiveOf(session: map<Key, SessionRecord>, u: Id, sids: seq<Id>)
    requires forall sid :: sid in sids ==> (u, sid) in session
    ensures |LiveOf(session, u, sids)| == |sids|
    ensures forall i :: 0 <= i < |sids| ==> LiveOf(session, u, sids)[i] == session[(u, sids[i])]
  {
    if sids != [] {
      var n := |sids| - 1;
      assert forall sid :: sid in sids[..n] ==> sid in sids;
      AllLiveOf(session, u, sids[..n]);
      assert sids[n] in sids;
    }
  }

  /** The plain scan: all live sessions of the user, newest first. */
  ghost predicate AllLive(session: map<Key, SessionRecord>, u: Id, full: seq<SessionRecord>) {
    Desc(full) && Distinct(full) && forall r :: r in full <==> LiveRecord(session, u, r)
  }

  /** Higher scores first; equal scores by member, descending. */
  predicate Before(z: map<Key, int>, u: Id, x: Id, y: Id)
    requires (u, x) in z && (u, y) in z
  {
    z[(u, x)] > z[(u, y)] || (z[(u, x)] == z[(u, y)] && x > y)
  }

  ghost predicate ScoreDesc(z: map<Key, int>, u: Id, s: seq<Id>) {
    && (forall i :: 0 <= i < |s| ==> (u, s[i]) in z)
    && (forall i, j :: 0 <= i < j < |s| ==> Before(z, u, s[i], s[j]))
  }

  /** The members of the user's ZSET, once each, from the highest score down; equal scores
      by member, descending. */
  ghost predicate IndexOrder(z: map<Key, int>, u: Id, all: seq<Id>) {
    ScoreDesc(z, u, all) && forall sid :: sid in all <==> (u, sid) in z
  }

  function InsertSid(z: map<Key, int>, u: Id, x: Id, s: seq<Id>): seq<Id>
    requires (u, x) in z && forall i :: 0 <= i < |s| ==> (u, s[i]) in z
  {
    if s == [] || Before(z, u, x, s[0]) then [x] + s
    else [s[0]] + InsertSid(z, u, x, s[1..])
  }

  lemma {:induction false} InsertSidKeeps(z: map<Key, int>, u: Id, x: Id, s: seq<Id>)
    requires (u, x) in z && ScoreDesc(z, u, s) && x !in s
    ensures ScoreDesc(z, u, InsertSid(z, u, x, s))
    ensures forall y :: y in InsertSid(z, u, x, s) <==> y == x || y in s
  {
    if s != [] && !Before(z, u, x, s[0]) {
      assert forall y :: y in s <==> y == s[0] || y in s[1..];
      InsertSidKeeps(z, u, x, s[1..]);
      var t := InsertSid(z, u, x, s[1..]);
      forall i | 0 <= i < |t|
        ensures (u, t[i]) in z && Before(z, u, s[0], t[i])
      {
        assert t[i] in t;
        if t[i] in s[1..] {
          var j :| 0 <= j < |s[1..]| && s[1..][j] == t[i];
          assert s[j + 1] == t[i];
        }
      }
    }
  }

  ghost predicate NoneStale(index: set<Key>, session: map<Key, SessionRecord>, u: Id) {
    forall sid: Id :: (u, sid) in index ==> (u, sid) in session
  }

  function Min(a: int, b: int): int {
    if a < b then a else b
  }

  ghost predicate SliceUpToTies(items: seq<SessionRecord>, full: seq<SessionRecord>, lo: nat, n: nat) {
    && |items| == Min(lo + n, |full|) - Min(lo, |full|)
    && forall i :: 0 <= i < |items| ==> items[i].lastUsedAt == full[lo + i].lastUsedAt
  }

  /** The ids from `start` to `stop` of ZREVRANGE, for stop = lo + n - 1. */
  function PageOf(all: seq<Id>, lo: nat, n: nat): seq<Id> {
    all[Min(lo, |all|)..Min(lo + n, |all|)]
  }

  lemma PageAt(all: seq<Id>, lo: nat, n: nat)
    ensures |PageOf(all, lo, n)| == if lo >= |all| then 0 else if lo + n > |all| then |all| - lo else n
    ensures forall i :: 0 <= i < |PageOf(all, lo, n)| ==> PageOf(all, lo, n)[i] == all[lo + i]
  {
  }

  lemma PageDesc(z: map<Key, int>, u: Id, all: seq<Id>, lo: nat, n: nat)
    requires ScoreDesc(z, u, all)
    ensures ScoreDesc(z, u, PageOf(all, lo, n)) && Distinct(PageOf(all, lo, n))
  {
    PageAt(all, lo, n);
  }

  /** The ZSET order of a user without stale entries is the newest-first list, up to ties. */
  lemma IndexIsScan(redis: Redis, u: Id, all: seq<Id>, full: seq<SessionRecord>)
    requires redis.Valid() && NoneStale(redis.index, redis.session, u)
    requires IndexOrder(redis.zindex, u, all)
    requires AllLive(redis.session, u, full)
    ensures |all| == |full|
    ensures forall i :: 0 <= i < |all| ==>
              (u, all[i]) in redis.session && redis.session[(u, all[i])].lastUsedAt == full[i].lastUsedAt
  {
    assert forall i :: 0 <= i < |all| ==> all[i] in all;
    var session := redis.session;
    var rs := seq(|all|, i requires 0 <= i < |all| && (u, all[i]) in session => session[(u, all[i])]);
    forall r ensures r in rs <==> r in full {
      if LiveRecord(redis.session, u, r) {
        assert r.id in all;
        var i :| 0 <= i < |all| && all[i] == r.id;
        assert rs[i] == r;
      }
    }
    SameUpToTies(rs, full);
  }

  lemma PageOfIndex(redis: Redis, u: Id, all: seq<Id>, lo: nat, n: nat)
    requires redis.Valid() && IndexOrder(redis.zindex, u, all)
    ensures Distinct(PageOf(all, lo, n))
    ensures NoneStale(redis.index, redis.session, u) ==>
              forall full :: AllLive(redis.session, u, full) ==>
                SliceUpToTies(LiveOf(redis.session, u, PageOf(all, lo, n)), full, lo, n)
  {
    var sids := PageOf(all, lo, n);
    assert forall i :: 0 <= i < |sids| ==> sids[i] == all[lo + i];
    if NoneStale(redis.index, redis.session, u) {
      assert forall sid :: sid in sids ==> sid in all;
      AllLiveOf(redis.session, u, sids);
      forall full | AllLive(redis.session, u, full)
        ensures SliceUpToTies(LiveOf(redis.session, u, sids), full, lo, n)
      {
        IndexIsScan(redis, u, all, full);
      }
    }
  }

  /** The records of a stretch of the ZSET order come newest first, ties by id. */
  lemma {:induction false} LiveOfDesc(redis: Redis, u: Id, sids: seq<Id>)
    requires redis.Valid() && ScoreDesc(redis.zindex, u, sids)
    ensures StrictlyDesc(LiveOf(redis.session, u, sids))
  {
    if sids != [] {
      var n := |sids| - 1;
      LiveOfDesc(redis, u, sids[..n]);
      LiveOfMeaning(redis, u, sids[..n]);
      var before := LiveOf(redis.session, u, sids[..n]);
      if (u, sids[n]) in redis.session {
        var last := redis.session[(u, sids[n])];
        forall i | 0 <= i < |before| ensures Newer(before[i], last) {
          assert before[i] in before;
          var j :| 0 <= j < n && sids[j] == before[i].id;
          assert redis.zindex[(u, sids[j])] == before[i].lastUsedAt;
        }
      }
    }
  }

  // ----------------------------------------------------------------- page after page

  /** The pages at offsets lo, lo + n, lo + 2n, .. of an index that does not change. */
  function Pages(session: map<Key, SessionRecord>, u: Id, all: seq<Id>, lo: nat, n: nat): seq<SessionRecord>
    requires n >= 1
    decreases |all| - lo
  {
    if lo >= |all| then []
    else LiveOf(session, u, PageOf(all, lo, n)) + Pages(session, u, all, lo + n, n)
  }

  lemma {:induction false} LiveOfAppend(session: map<Key, SessionRecord>, u: Id, a: seq<Id>, b: seq<Id>)
    ensures LiveOf(session, u, a + b) == LiveOf(session, u, a) + LiveOf(session, u, b)
  {
    if b == [] {
      assert a + b == a;
    } else {
      assert (a + b)[..|a + b| - 1] == a + b[..|b| - 1];
      LiveOfAppend(session, u, a, b[..|b| - 1]);
    }
  }

  lemma {:induction false} PagesJoin(session: map<Key, SessionRecord>, u: Id, all: seq<Id>, lo: nat, n: nat)
    requires n >= 1 && lo <= |all|
    ensures Pages(session, u, all, lo, n) == LiveOf(session, u, all[lo..])
    decreases |all| - lo
  {
    if lo < |all| {
      var to := Min(lo + n, |all|);
      assert PageOf(all, lo, n) == all[lo..to];
      assert all[lo..] == all[lo..to] + all[to..];
      LiveOfAppend(session, u, all[lo..to], all[to..]);
      if lo + n <= |all| { PagesJoin(session, u, all, lo + n, n); }
    }
  }

  /** Page after page of an unchanged index lists every live session exactly once, newest first. */
  lemma PagesListEverySession(redis: Redis, u: Id, all: seq<Id>, n: nat)
    requires redis.Valid() && IndexOrder(redis.zindex, u, all) && n >= 1
    ensures var items := Pages(redis.session, u, all, 0, n);
            && (forall r :: r in items <==> (u, r.id) in redis.session && redis.session[(u, r.id)] == r)
            && forall i, j :: 0 <= i < j < |items| ==>
                 || items[i].lastUsedAt > items[j].lastUsedAt
                 || (items[i].lastUsedAt == items[j].lastUsedAt && items[i].id > items[j].id)
  {
    PagesJoin(redis.session, u, all, 0, n);
    assert all[0..] == all;
    LiveOfMeaning(redis, u, all);
    LiveOfDesc(redis, u, all);
  }

  /** The ids among sids that have a key. */
  function Kept(keys: set<Key>, u: Id, sids: seq<Id>): seq<Id> {
    if sids == [] then []
    else
      var n := |sids| - 1;
      Kept(keys, u, sids[..n]) + if (u, sids[n]) in keys then [sids[n]] else []
  }

  lemma {:induction false} KeptIn(keys: set<Key>, u: Id, sids: seq<Id>)
    ensures |Kept(keys, u, sids)| <= |sids|
    ensures forall sid :: sid in Kept(keys, u, sids) <==> sid in sids && (u, sid) in keys
  {
    if sids != [] {
      var n := |sids| - 1;
      KeptIn(keys, u, sids[..n]);
      assert forall x :: x in sids <==> x in sids[..n] || x == sids[n];
    }
  }

  lemma {:induction false} KeptDesc(z: map<Key, int>, keys: set<Key>, u: Id, sids: seq<Id>)
    requires ScoreDesc(z, u, sids)
    ensures ScoreDesc(z, u, Kept(keys, u, sids))
  {
    if sids != [] {
      var n := |sids| - 1;
      KeptDesc(z, keys, u, sids[..n]);
      KeptIn(keys, u, sids[..n]);
      var before := Kept(keys, u, sids[..n]);
      forall i | 0 <= i < |before| ensures Before(z, u, before[i], sids[n]) {
        assert before[i] in before;
        var j :| 0 <= j < n && sids[j] == before[i];
      }
    }
  }

  lemma {:induction false} KeptAppend(keys: set<Key>, u: Id, a: seq<Id>, b: seq<Id>)
    ensures Kept(keys, u, a + b) == Kept(keys, u, a) + Kept(keys, u, b)
  {
    if b == [] {
      assert a + b == a;
    } else {
      assert (a + b)[..|a + b| - 1] == a + b[..|b| - 1];
      KeptAppend(keys, u, a, b[..|b| - 1]);
    }
  }

  lemma {:induction false} KeptAll(keys: set<Key>, u: Id, sids: seq<Id>)
    requires forall sid :: sid in sids ==> (u, sid) in keys
    ensures Kept(keys, u, sids) == sids
  {
    if sids != [] {
      var n := |sids| - 1;
      assert sids[n] in sids && forall sid :: sid in sids[..n] ==> sid in sids;
      KeptAll(keys, u, sids[..n]);
      assert sids == sids[..n] + [sids[n]];
    }
  }

  lemma {:induction false} KeptLive(keys: set<Key>, session: map<Key, SessionRecord>, u: Id, sids: seq<Id>)
    requires forall sid :: sid in sids ==> ((u, sid) in keys <==> (u, sid) in session)
    ensures |Kept(keys, u, sids)| == |LiveOf(session, u, sids)|
  {
    if sids != [] {
      var n := |sids| - 1;
      assert sids[n] in sids && forall sid :: sid in sids[..n] ==> sid in sids;
      KeptLive(keys, session, u, sids[..n]);
    }
  }

  /** The scores and members fix the order. */
  lemma {:induction false} OrderUnique(z: map<Key, int>, u: Id, a: seq<Id>, b: seq<Id>)
    requires ScoreDesc(z, u, a) && ScoreDesc(z, u, b) && forall sid :: sid in a <==> sid in b
    ensures a == b
  {
    assert a != [] ==> a[0] in b;
    assert b != [] ==> b[0] in a;
    if a != [] {
      var i :| 0 <= i < |a| && a[i] == b[0];
      var j :| 0 <= j < |b| && b[j] == a[0];
      assert i == 0;
      assert forall sid :: sid in a <==> sid == a[0] || sid in a[1..];
      assert forall sid :: sid in b <==> sid == b[0] || sid in b[1..];
      OrderUnique(z, u, a[1..], b[1..]);
    }
  }

  lemma SkippedSlice(all: seq<Id>, all': seq<Id>, lo: nat, n: nat, kept: seq<Id>, m: nat)
    requires |kept| <= |PageOf(all, lo, n)|
    requires all' == all[..Min(lo, |all|)] + kept + all[Min(lo + n, |all|)..]
    ensures PageOf(all', lo + n, m) == PageOf(all, lo + n + (|PageOf(all, lo, n)| - |kept|), m)
  {
    PageAt(all, lo, n);
    var s := |PageOf(all, lo, n)| - |kept|;
    PageAt(all', lo + n, m);
    PageAt(all, lo + n + s, m);
    var a, b := PageOf(all', lo + n, m), PageOf(all, lo + n + s, m);
    assert |a| == |b|;
    forall i | 0 <= i < |a| ensures a[i] == b[i] {
      assert all'[lo + n + i] == all[lo + n + i + s];
    }
  }

  lemma Outside(z: map<Key, int>, u: Id, all: seq<Id>, from: nat, to: nat, sid: Id)
    requires ScoreDesc(z, u, all) && from <= to <= |all| && (sid in all[..from] || sid in all[to..])
    ensures (u, sid) in z && sid in all && sid !in all[from..to]
  {
    var j: nat;
    if sid in all[..from] {
      j :| 0 <= j < from && all[..from][j] == sid;
    } else {
      var h :| 0 <= h < |all[to..]| && all[to..][h] == sid;
      j := to + h;
    }
    assert all[j] == sid;
  }

  /** Outside the healed page every member stays. */
  lemma KeptAround(z: map<Key, int>, z': map<Key, int>, session: map<Key, SessionRecord>, u: Id,
        all: seq<Id>, from: nat, to: nat)
    requires IndexOrder(z, u, all) && from <= to <= |all|
    requires forall sid: Id :: (u, sid) in z' <==> (u, sid) in z && !(sid in all[from..to] && (u, sid) !in session)
    ensures Kept(z'.Keys, u, all) == all[..from] + Kept(z'.Keys, u, all[from..to]) + all[to..]
  {
    var a, b, c := all[..from], all[from..to], all[to..];
    assert all == a + b + c;
    KeptAppend(z'.Keys, u, a + b, c);
    KeptAppend(z'.Keys, u, a, b);
    forall sid | sid in a || sid in c ensures (u, sid) in z' { Outside(z, u, all, from, to, sid); }
    KeptAll(z'.Keys, u, a);
    KeptAll(z'.Keys, u, c);
  }

  lemma Healed(z: map<Key, int>, z': map<Key, int>, session: map<Key, SessionRecord>, u: Id,
        all: seq<Id>, all': seq<Id>, from: nat, to: nat) returns (kept: seq<Id>)
    requires IndexOrder(z, u, all) && IndexOrder(z', u, all') && (forall k :: k in z' ==> k in z && z'[k] == z[k])
    requires from <= to <= |all|
    requires forall sid: Id :: (u, sid) in z' <==> (u, sid) in z && !(sid in all[from..to] && (u, sid) !in session)
    ensures |kept| == |LiveOf(session, u, all[from..to])| <= to - from
    ensures all' == all[..from] + kept + all[to..]
  {
    kept := Kept(z'.Keys, u, all[from..to]);
    KeptIn(z'.Keys, u, all[from..to]);
    forall sid | sid in all[from..to] ensures (u, sid) in z' <==> (u, sid) in session { assert sid in all; }
    KeptLive(z'.Keys, session, u, all[from..to]);
    KeptIn(z'.Keys, u, all);
    KeptDesc(z, z'.Keys, u, all);
    OrderUnique(z', u, all', Kept(z'.Keys, u, all));
    KeptAround(z, z', session, u, all, from, to);
  }

  /** A page that drops s stale members moves the members behind it s places forward: the
      next page starts s places too late, and those s members are on neither page. */
  lemma NextPageSkips(z: map<Key, int>, z': map<Key, int>, session: map<Key, SessionRecord>, u: Id,
        all: seq<Id>, all': seq<Id>, lo: nat, n: nat, m: nat)
    requires IndexOrder(z, u, all) && IndexOrder(z', u, all') && (forall k :: k in z' ==> k in z && z'[k] == z[k])
    requires forall sid: Id :: (u, sid) in z' <==> (u, sid) in z && !(sid in PageOf(all, lo, n) && (u, sid) !in session)
    ensures var s := |PageOf(all, lo, n)| - |LiveOf(session, u, PageOf(all, lo, n))|;
            s >= 0 && PageOf(all', lo + n, m) == PageOf(all, lo + n + s, m)
  {
    var from, to := Min(lo, |all|), Min(lo + n, |all|);
    assert PageOf(all, lo, n) == all[from..to];
    var kept := Healed(z, z', session, u, all, all', from, to);
    SkippedSlice(all, all', lo, n, kept, m);
  }

  class SessionService {
    const redis: Redis

    constructor (redis: Redis)
      ensures this.redis == redis
    {
      this.redis := redis;
    }

    /** `create`: one MULTI writes the record and both indexes. The session id is a fresh UUID. */
    method Create(u: Id, sid: Id, now: int) returns (r: SessionRecord)
      requires redis.Valid() && (u, sid) !in redis.index
      modifies redis`session, redis`index, redis`zindex
      ensures redis.Valid() && r == SessionRecord(sid, u, now, now)
      ensures redis.session == old(redis.session)[(u, sid) := r]
      ensures redis.index == old(redis.index) + {(u, sid)}
      ensures redis.zindex == old(redis.zindex)[(u, sid) := now]
    {
      r := SessionRecord(sid, u, now, now);
      redis.session := redis.session[(u, sid) := r];
      redis.index := redis.index + {(u, sid)};
      redis.zindex := redis.zindex[(u, sid) := now];
    }

    /** `touch`: moves lastUsedAt and the score together. */
    method Touch(u: Id, sid: Id, now: int) returns (r: Result<SessionRecord>)
      requires redis.Valid()
      modifies redis`session, redis`zindex
      ensures redis.Valid()
      ensures r.Ok? <==> (u, sid) in old(redis.session)
      ensures r.Ok? ==>
        && r.value == old(redis.session)[(u, sid)].(lastUsedAt := now)
        && redis.session == old(redis.session)[(u, sid) := r.value]
        && redis.zindex == old(redis.zindex)[(u, sid) := now]
      ensures r.Err? ==> redis.session == old(redis.session) && redis.zindex == old(redis.zindex)
    {
      if (u, sid) !in redis.session { return Err(NotFound); }
      var rec := redis.session[(u, sid)].(lastUsedAt := now);
      redis.session := redis.session[(u, sid) := rec];
      redis.zindex := redis.zindex[(u, sid) := now];
      r := Ok(rec);
    }

    /** SREM and ZREM of stale members. */
    method DropStale(u: Id, stale: seq<Id>)
      requires redis.Valid()
      requires forall sid :: sid in stale ==> (u, sid) !in redis.session
      modifies redis`index, redis`zindex
      ensures redis.Valid()
      ensures forall k: Key :: k in redis.index <==> k in old(redis.index) && !(k.0 == u && k.1 in stale)
      ensures forall k: Key :: k in redis.zindex ==> k in old(redis.zindex) && redis.zindex[k] == old(redis.zindex)[k]
    {
      for i := 0 to |stale|
        invariant redis.IndexesAgree()
        invariant forall k: Key :: k in redis.index <==> k in old(redis.index) && !(k.0 == u && k.1 in stale[..i])
        invariant forall k: Key :: k in redis.zindex ==>
                    k in old(redis.zindex) && redis.zindex[k] == old(redis.zindex)[k]
      {
        assert forall sid :: sid in stale[..i + 1] <==> sid in stale[..i] || sid == stale[i];
        assert (u, stale[i]) !in redis.session;
        redis.index := redis.index - {(u, stale[i])};
        redis.zindex := redis.zindex - {(u, stale[i])};
      }
      assert stale[..|stale|] == stale;
    }

    /** The read loop shared by `list` and `listPage`: splits ids into records and stale ids. */
    method ReadSessions(u: Id, sids: seq<Id>) returns (items: seq<SessionRecord>, stale: seq<Id>)
      requires redis.Valid() && Distinct(sids)
      ensures items == LiveOf(redis.session, u, sids)
      ensures forall sid :: sid in stale <==> sid in sids && (u, sid) !in redis.session
    {
      items, stale := [], [];
      for i := 0 to |sids|
        invariant items == LiveOf(redis.session, u, sids[..i])
        invariant forall sid :: sid in stale <==> sid in sids[..i] && (u, sid) !in redis.session
      {
        var sid := sids[i];
        assert sids[..i + 1][..i] == sids[..i];
        assert forall x :: x in sids[..i + 1] <==> x in sids[..i] || x == sid;
        if (u, sid) in redis.session {
          items := items + [redis.session[(u, sid)]];
        } else {
          stale := stale + [sid];
        }
      }
      assert sids[..|sids|] == sids;
    }

    /** SMEMBERS: some enumeration of a set. */
    method Members(s: set<Id>) returns (r: seq<Id>)
      ensures Distinct(r) && forall x :: x in r <==> x in s
    {
      r := [];
      var rest := s;
      while rest != {}
        invariant rest <= s && Distinct(r)
        invariant forall x :: x in r <==> x in s && x !in rest
        decreases rest
      {
        var x :| x in rest;
        rest := rest - {x};
        r := r + [x];
      }
    }

    /** `list`: the live sessions, newest first; both indexes are healed to exactly those. */
    method List(u: Id) returns (items: seq<SessionRecord>)
      requires redis.Valid()
      modifies redis`index, redis`zindex
      ensures redis.Valid()
      ensures AllLive(redis.session, u, items)
      ensures forall r :: r in items <==> (u, r.id) in redis.session && redis.session[(u, r.id)] == r
      ensures forall i, j :: 0 <= i < j < |items| ==>
                items[i] != items[j] && items[i].lastUsedAt >= items[j].lastUsedAt
      ensures forall sid :: (u, sid) in redis.index <==> (u, sid) in redis.session
      ensures forall k: Key :: k.0 != u ==> (k in redis.index <==> k in old(redis.index))
      ensures forall k :: k in redis.zindex ==> k in old(redis.zindex) && redis.zindex[k] == old(redis.zindex)[k]
    {
      var sids := Members(SidsOf(redis.index, u));
      if |sids| == 0 {
        assert forall sid: Id :: (u, sid) in redis.index ==> sid in SidsOf(redis.index, u);
        return [];
      }
      var read, stale := ReadSessions(u, sids);
      LiveOfMeaning(redis, u, sids);
      DropStale(u, stale);
      SortKeeps(read);
      items := SortRecords(read);
    }

    /** The user's ZSET from the highest score down. */
    method ZRevAll(u: Id) returns (all: seq<Id>)
      ensures IndexOrder(redis.zindex, u, all)
    {
      all := [];
      var rest := SidsOf(redis.zindex.Keys, u);
      while rest != {}
        invariant rest <= SidsOf(redis.zindex.Keys, u)
        invariant ScoreDesc(redis.zindex, u, all)
        invariant forall sid :: sid in all <==> (u, sid) in redis.zindex && sid !in rest
        decreases rest
      {
        var sid :| sid in rest;
        rest := rest - {sid};
        InsertSidKeeps(redis.zindex, u, sid, all);
        all := InsertSid(redis.zindex, u, sid, all);
      }
    }

    /** ZREVRANGE from position lo, n members. */
    method ZRevRange(u: Id, lo: nat, n: nat) returns (page: seq<Id>, ghost all: seq<Id>)
      requires redis.Valid()
      ensures IndexOrder(redis.zindex, u, all) && page == PageOf(all, lo, n)
      ensures |page| == if lo >= |all| then 0 else if lo + n > |all| then |all| - lo else n
      ensures forall i :: 0 <= i < |page| ==> page[i] == all[lo + i]
      ensures ScoreDesc(redis.zindex, u, page)
      ensures NoneStale(redis.index, redis.session, u) ==>
                forall full :: AllLive(redis.session, u, full) ==>
                  SliceUpToTies(LiveOf(redis.session, u, page), full, lo, n)
    {
      var order := ZRevAll(u);
      page := PageOf(order, lo, n);
      all := order;
      PageAt(order, lo, n);
      PageDesc(redis.zindex, u, order, lo, n);
      PageOfIndex(redis, u, order, lo, n);
    }

    /** The reads of one page and the removal of its stale members. */
    method ReadPage(u: Id, sids: seq<Id>) returns (items: seq<SessionRecord>)
      requires redis.Valid() && ScoreDesc(redis.zindex, u, sids)
      modifies redis`index, redis`zindex
      ensures redis.Valid() && items == LiveOf(redis.session, u, sids)
      ensures forall r :: r in items <==> r.id in sids && (u, r.id) in redis.session && redis.session[(u, r.id)] == r
      ensures StrictlyDesc(items)
      ensures forall k: Key :: k in redis.index <==>
                k in old(redis.index) && !(k.0 == u && k.1 in sids && k !in redis.session)
      ensures forall k: Key :: k in redis.zindex ==> k in old(redis.zindex) && redis.zindex[k] == old(redis.zindex)[k]
    {
      var stale;
      items, stale := ReadSessions(u, sids);
      LiveOfMeaning(redis, u, sids);
      LiveOfDesc(redis, u, sids);
      DropStale(u, stale);
    }

    /** `listPage`: the live sessions of one slice of the ZSET order, whose stale members are
        dropped. An absent offset is 0 and an absent limit 20; smaller values are 0 and 1.
        When none is stale the page has the length of that slice of the full newest-first
        list and agrees with it position by position, up to ties. */
    method ListPage(u: Id, offsetOpt: Option<int>, limitOpt: Option<int>)
        returns (items: seq<SessionRecord>, ghost all: seq<Id>, ghost lo: nat, ghost n: nat, ghost page: seq<Id>)
      requires redis.Valid()
      modifies redis`index, redis`zindex
      ensures redis.Valid()
      ensures forall sid :: sid in all <==> (u, sid) in old(redis.zindex)
      ensures forall i, j :: 0 <= i < j < |all| ==>
                || old(redis.zindex)[(u, all[i])] > old(redis.zindex)[(u, all[j])]
                || (old(redis.zindex)[(u, all[i])] == old(redis.zindex)[(u, all[j])] && all[i] > all[j])
      ensures lo == if offsetOpt.Some? && offsetOpt.value > 0 then offsetOpt.value else 0
      ensures n == if limitOpt.None? then 20 else if limitOpt.value < 1 then 1 else limitOpt.value
      ensures |page| == if lo >= |all| then 0 else if lo + n > |all| then |all| - lo else n
      ensures forall i :: 0 <= i < |page| ==> page[i] == all[lo + i]
      ensures forall r :: r in items <==> r.id in page && (u, r.id) in redis.session && redis.session[(u, r.id)] == r
      ensures forall i, j :: 0 <= i < j < |items| ==>
                || items[i].lastUsedAt > items[j].lastUsedAt
                || (items[i].lastUsedAt == items[j].lastUsedAt && items[i].id > items[j].id)
      ensures forall k: Key :: k in redis.index <==>
                k in old(redis.index) && !(k.0 == u && k.1 in page && k !in redis.session)
      ensures forall k: Key :: k in redis.zindex ==> k in old(redis.zindex) && redis.zindex[k] == old(redis.zindex)[k]
      ensures IndexOrder(old(redis.zindex), u, all) && items == LiveOf(redis.session, u, PageOf(all, lo, n))
      ensures NoneStale(old(redis.index), redis.session, u) ==>
                forall full :: AllLive(redis.session, u, full) ==> SliceUpToTies(items, full, lo, n)
    {
      var offset: nat, limit: nat := 0, 20;
      if offsetOpt.Some? && offsetOpt.value > 0 { offset := offsetOpt.value; }
      if limitOpt.Some? { limit := if limitOpt.value < 1 then 1 else limitOpt.value; }
      var sids;
      sids, all := ZRevRange(u, offset, limit);
      lo, n, page := offset, limit, sids;
      if |sids| == 0 {
        items := [];
        return;
      }
      items := ReadPage(u, sids);
    }

    /** `linkRefreshJti`: one MULTI adds to the session's set and writes the reverse entry. */
    method LinkRefreshJti(u: Id, sid: Id, jti: Id)
      requires redis.Inverse() && jti in redis.signed && redis.signed[jti] == Token(jti, u, sid)
      modifies redis`linked, redis`reverse
      ensures redis.Inverse()
      ensures redis.linked == old(redis.linked) + {((u, sid), jti)}
      ensures redis.reverse == old(redis.reverse)[jti := (u, sid)]
    {
      redis.linked := redis.linked + {((u, sid), jti)};
      redis.reverse := redis.reverse[jti := (u, sid)];
    }

    /** `unlinkRefreshJti`: removes both directions in one MULTI. */
    method UnlinkRefreshJti(u: Id, sid: Id, jti: Id)
      requires redis.Inverse() && jti in redis.signed && redis.signed[jti] == Token(jti, u, sid)
      modifies redis`linked, redis`reverse
      ensures redis.Inverse()
      ensures redis.linked == old(redis.linked) - {((u, sid), jti)}
      ensures redis.reverse == old(redis.reverse) - {jti}
    {
      redis.linked := redis.linked - {((u, sid), jti)};
      redis.reverse := redis.reverse - {jti};
    }

    /** `findSessionByJti`: the session whose set holds the jti; none only if no set
        holds it or its entry expired. */
    method FindSessionByJti(jti: Id) returns (r: Option<Key>)
      requires redis.Valid()
      ensures r.Some? ==> (r.value, jti) in redis.linked && forall k: Key :: (k, jti) in redis.linked ==> k == r.value
      ensures r.None? ==> forall k: Key :: (k, jti) in redis.linked ==> jti in redis.lapsed
    {
      r := if jti in redis.reverse then Some(redis.reverse[jti]) else None;
    }

    /** DEL of the reverse entry and the allow record of each jti. */
    method DeleteTokens(jtis: seq<Id>)
      modifies redis`reverse, redis`allow
      ensures SameWithout(redis.reverse, old(redis.reverse), jtis)
      ensures SameWithout(redis.allow, old(redis.allow), jtis)
    {
      for i := 0 to |jtis|
        invariant SameWithout(redis.reverse, old(redis.reverse), jtis[..i])
        invariant SameWithout(redis.allow, old(redis.allow), jtis[..i])
      {
        assert forall j :: j in jtis[..i + 1] <==> j in jtis[..i] || j == jtis[i];
        redis.reverse := redis.reverse - {jtis[i]};
        redis.allow := redis.allow - {jtis[i]};
      }
      assert jtis[..|jtis|] == jtis;
    }

    /** The pipeline of `revoke`, for the jtis an earlier SMEMBERS returned. */
    method RevokePipeline(k: Key, jtis: seq<Id>)
      requires redis.IndexesAgree()
      modifies redis`reverse, redis`allow, redis`linked, redis`session, redis`index, redis`zindex
      ensures redis.IndexesAgree()
      ensures redis.session == old(redis.session) - {k}
      ensures redis.index == old(redis.index) - {k}
      ensures redis.zindex == old(redis.zindex) - {k}
      ensures redis.linked == Unlinked(old(redis.linked), {k})
      ensures SameWithout(redis.reverse, old(redis.reverse), jtis)
      ensures SameWithout(redis.allow, old(redis.allow), jtis)
    {
      DeleteTokens(jtis);
      redis.linked := Unlinked(redis.linked, {k});
      redis.session := redis.session - {k};
      redis.index := redis.index - {k};
      redis.zindex := redis.zindex - {k};
    }

    /** The pipeline after a read that nothing overtook: the session and all its refresh
        tokens are gone, and nothing else is. An allow record that names the session
        survives exactly if its jti was not in the session's set. */
    method RevokeRead(k: Key, jtis: seq<Id>)
      requires redis.Valid() && Covers(redis.linked, k, jtis)
      modifies redis`reverse, redis`allow, redis`linked, redis`session, redis`index, redis`zindex
      ensures redis.Valid()
      ensures redis.Sessions() == Revoked(old(redis.Sessions()), {k})
      ensures forall j :: j in redis.allow && Names(redis.allow[j], k) ==> j in redis.stray || j in redis.delFailed
    {
      RevokePipeline(k, jtis);
      WithoutCovered(redis.reverse, old(redis.reverse), jtis, old(redis.linked), k);
      WithoutCovered(redis.allow, old(redis.allow), jtis, old(redis.linked), k);
      PipelineInverse(old(redis.reverse), old(redis.linked), redis.lapsed, redis.signed, k, jtis, redis.reverse);
      PipelineAllow(old(redis.allow), old(redis.linked), redis.signed, redis.stray + redis.delFailed,
                    k, jtis, redis.allow);
    }

    /** `revoke` */
    method Revoke(u: Id, sid: Id)
      requires redis.Valid()
      modifies redis`reverse, redis`allow, redis`linked, redis`session, redis`index, redis`zindex
      ensures redis.Valid()
      ensures redis.Sessions() == Revoked(old(redis.Sessions()), {(u, sid)})
      ensures redis.session == old(redis.session) - {(u, sid)}
      ensures redis.index == old(redis.index) - {(u, sid)} && redis.zindex == old(redis.zindex) - {(u, sid)}
      ensures forall l :: l in redis.linked <==> l in old(redis.linked) && l.0 != (u, sid)
      ensures forall j :: j in redis.allow <==> j in old(redis.allow) && ((u, sid), j) !in old(redis.linked)
      ensures forall j :: j in redis.reverse <==> j in old(redis.reverse) && ((u, sid), j) !in old(redis.linked)
      ensures forall j :: j in old(redis.allow) && j !in redis.allow ==>
                redis.signed[j].sub == u && redis.signed[j].sid == sid
      ensures forall j :: j in redis.allow && Names(redis.allow[j], (u, sid)) ==>
                j in redis.stray || j in redis.delFailed
    {
      var jtis := Members(JtisOf(redis.linked, {(u, sid)}));
      RevokeRead((u, sid), jtis);
    }

    /** The read pipeline of `revokeAll`. */
    method ReadJtis(u: Id, sids: seq<Id>) returns (read: seq<seq<Id>>)
      ensures AllCovered(redis.linked, u, sids, read)
    {
      read := [];
      for i := 0 to |sids|
        invariant |read| == i
        invariant forall h :: 0 <= h < i ==> Covers(redis.linked, (u, sids[h]), read[h])
      {
        var jtis := Members(JtisOf(redis.linked, {(u, sids[i])}));
        read := read + [jtis];
      }
    }

    /** The delete pipeline of `revokeAll`. */
    method RevokeEach(u: Id, sids: seq<Id>, read: seq<seq<Id>>)
      requires redis.Valid() && Distinct(sids) && AllCovered(redis.linked, u, sids, read)
      modifies redis`reverse, redis`allow, redis`linked, redis`session, redis`index, redis`zindex
      ensures redis.Valid()
      ensures redis.Sessions() == Revoked(old(redis.Sessions()), KeysOf(u, sids))
    {
      NoneRevoked(redis.Sessions(), KeysOf(u, sids[..0]));
      for i := 0 to |sids|
        invariant redis.Valid()
        invariant redis.Sessions() == Revoked(old(redis.Sessions()), KeysOf(u, sids[..i]))
      {
        NextCovered(old(redis.linked), u, sids, i, read);
        RevokeRead((u, sids[i]), read[i]);
        RevokedAgain(old(redis.Sessions()), KeysOf(u, sids[..i]), {(u, sids[i])});
      }
      assert sids[..|sids|] == sids;
    }

    /** `revokeAll`: every indexed session of the user, hence every live one, and nothing else. */
    method RevokeAll(u: Id)
      requires redis.Valid()
      modifies redis`reverse, redis`allow, redis`linked, redis`session, redis`index, redis`zindex
      ensures redis.Valid()
      ensures redis.Sessions() == Revoked(old(redis.Sessions()), Indexed(old(redis.index), u))
      ensures forall k: Key :: k in redis.session <==> k in old(redis.session) && k.0 != u
      ensures forall k: Key :: k in redis.index <==> k in old(redis.index) && k.0 != u
      ensures forall k: Key :: k in redis.zindex <==> k in old(redis.zindex) && k.0 != u
      ensures forall l :: l in redis.linked <==> l in old(redis.linked) && !(l.0.0 == u && l.0 in old(redis.index))
      ensures forall j :: j in redis.allow <==>
                && j in old(redis.allow)
                && forall sid: Id :: (u, sid) in old(redis.index) ==> ((u, sid), j) !in old(redis.linked)
      ensures forall sid: Id :: (u, sid) !in redis.session
      ensures forall j :: j in old(redis.allow) && j !in redis.allow ==> redis.signed[j].sub == u
      ensures forall j: Id, sid: Id ::
                j in redis.allow && Names(redis.allow[j], (u, sid)) && (u, sid) in old(redis.index) ==>
                j in redis.stray || j in redis.delFailed
    {
      var sids := Members(SidsOf(redis.index, u));
      if |sids| == 0 {
        assert forall sid: Id :: (u, sid) in redis.index ==> sid in SidsOf(redis.index, u);
        NoneRevoked(redis.Sessions(), Indexed(redis.index, u));
        return;
      }
      var read := ReadJtis(u, sids);
      RevokeEach(u, sids, read);
      assert KeysOf(u, sids) == Indexed(old(redis.index), u);
      RevokedTokens(old(redis.allow), old(redis.linked), old(redis.reverse), redis.lapsed, redis.signed,
                    redis.stray + redis.delFailed, Indexed(old(redis.index), u));
    }
  }
}
