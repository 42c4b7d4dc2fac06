/** Interleaved `refresh`, `revoke`, login issues and session revokes over the refresh
    allow-list, the blacklist, the per-session jti sets and the reverse jti map, one Redis
    command at a time. Any command may fail where the service tolerates it; keys may expire
    at any time. */
module RefreshProtocol {
  import opened AuthTokens
  import opened Common

  datatype Worker =
    | Idle
    | Verified(t: Token)                        // refresh, before GETDEL
    | Accepted(t: Token, sid: Id)               // GETDEL hit, before the blacklisting
    | Unlinking(t: Token, sid: Id)              // before the unlink
    | Rotating(t: Token, sid: Id)               // before buildPair
    | Issuing(user: Id, session: Option<Id>)    // login, before buildPair
    | Linking(t: Token)                         // buildPair, between SET and link
    | RevokeDel(t: Token)
    | RevokeBlack(t: Token)
    | RevokeUnlink(t: Token)
    | Closing(k: Key, read: seq<Id>, at: nat)   // session revoke: `at` commands of its pipeline done

  datatype Sys = Sys(
    allow: map<Id, AllowRecord>,
    black: set<Id>,
    links: set<(Key, Id)>,         // members of the per-session jti sets
    reverse: map<Id, Key>,         // the reverse jti map
    signed: map<Id, Token>,        // every token ever signed
    stored: map<Id, AllowRecord>,  // every allow record ever stored
    gone: set<Id>,                 // jtis whose allow record was consumed, deleted or expired
    linked: set<Id>,               // jtis ever linked
    workers: seq<Worker>,
    consumed: set<Id>,             // jtis a GETDEL returned
    succeeded: seq<Id>,            // jtis whose refresh returned a new pair
    issues: map<Id, nat>,          // logins per session
    delFailed: set<Id>)            // jtis whose DEL in `revoke` failed

  datatype Event =
    | StartRefresh(i: nat, t: Token, ok: bool)        // verifyRefresh; ok: signature and expiry
    | GetDel(i: nat)
    | Blacklist(i: nat, ok: bool)                     // safeBlacklist of refresh
    | Unlink(i: nat, ok: bool)                        // unlink of refresh
    | LoadUser(i: nat, active: bool)                  // ensureActiveWithRoles of refresh
    | StartIssue(i: nat, user: Id, session: Option<Id>)
    | Mint(i: nat, jti: Id, ok: bool)                 // buildPair: fresh jti, SET of its record
    | Link(i: nat, ok: bool)                          // buildPair: linkRefreshJti
    | StartRevoke(i: nat, t: Token)
    | RevokeDelete(i: nat, ok: bool)
    | RevokeBlacklist(i: nat, ok: bool)
    | RevokeUnlinks(i: nat, ok: bool)
    | CloseRead(i: nat, k: Key, read: seq<Id>)        // session revoke: SMEMBERS
    | CloseNext(i: nat)                               // the next command of its pipeline
    | DropAllow(jti: Id)                              // expiry
    | DropBlack(jti: Id)
    | DropReverse(jti: Id)

  function Set(s: Sys, i: nat, w: Worker): Sys
    requires i < |s.workers|
  {
    s.(workers := s.workers[i := w])
  }

  /** DEL, GETDEL or expiry of an allow record. */
  function Withdraw(s: Sys, on: bool, j: Id): Sys {
    var js := if on then {j} else {};
    s.(allow := s.allow - js, gone := s.gone + js * s.allow.Keys)
  }

  /** One MULTI removes both directions. */
  function Sever(s: Sys, on: bool, t: Token): Sys {
    s.(links := s.links - (if on then {(KeyOf(t), t.jti)} else {}), reverse := s.reverse - (if on then {t.jti} else {}))
  }

  function Blacken(s: Sys, on: bool, j: Id): Sys {
    s.(black := s.black + if on then {j} else {})
  }

  function AddIssue(issues: map<Id, nat>, sid: Id): map<Id, nat> {
    issues[sid := (if sid in issues then issues[sid] else 0) + 1]
  }

  /** `buildPair` up to the SET: the token's sid falls back to the jti. */
  function MintPair(s: Sys, i: nat, jti: Id, user: Id, session: Option<Id>, ok: bool): Sys
    requires i < |s.workers|
  {
    var t := Token(jti, user, if session.Some? then session.value else jti);
    Set(s, i, if session.Some? then Linking(t) else Idle).(
      allow := if ok then s.allow[jti := AllowRecord(user, session)] else s.allow,
      stored := if ok then s.stored[jti := AllowRecord(user, session)] else s.stored,
      signed := s.signed[jti := t])
  }

  /** The pipeline of a session revoke: per jti DEL of the reverse entry and DEL of the allow
      record, then DEL of the set. */
  function ClosePipeline(s: Sys, i: nat): Sys
    requires i < |s.workers| && s.workers[i].Closing?
  {
    var w := s.workers[i];
    if w.at < 2 * |w.read| then
      var j := w.read[w.at / 2];
      Set(Withdraw(s, w.at % 2 == 1, j).(reverse := if w.at % 2 == 0 then s.reverse - {j} else s.reverse), i,
          w.(at := w.at + 1))
    else
      Set(s.(links := set l | l in s.links && l.0 != w.k), i, Idle)
  }

  predicate Members(links: set<(Key, Id)>, k: Key, read: seq<Id>) {
    && (forall j :: j in read ==> (k, j) in links)
    && (forall l :: l in links && l.0 == k ==> l.1 in read)
  }

  function Step(s: Sys, e: Event): Sys {
    match e
    case StartRefresh(i, t, ok) =>
      if i < |s.workers| && s.workers[i].Idle? && ok
         && t.jti in s.signed && s.signed[t.jti] == t && t.jti !in s.black
      then Set(s, i, Verified(t)) else s
    case GetDel(i) =>
      if i < |s.workers| && s.workers[i].Verified? then
        var t := s.workers[i].t;
        var hit := t.jti in s.allow;
        Set(Withdraw(s, true, t.jti).(consumed := s.consumed + if hit then {t.jti} else {}), i,
            if hit && RecordFits(s.allow[t.jti], t)
            then Accepted(t, if s.allow[t.jti].sid.Some? then s.allow[t.jti].sid.value else t.sid)
            else Idle)
      else s
    case Blacklist(i, ok) =>
      if i < |s.workers| && s.workers[i].Accepted? then
        var w := s.workers[i];
        Set(Blacken(s, ok, w.t.jti), i, Unlinking(w.t, w.sid))
      else s
    case Unlink(i, ok) =>
      if i < |s.workers| && s.workers[i].Unlinking? then
        var w := s.workers[i];
        Set(Sever(s, ok, w.t), i, Rotating(w.t, w.sid))
      else s
    case LoadUser(i, active) =>
      if i < |s.workers| && s.workers[i].Rotating? && !active then Set(s, i, Idle) else s
    case StartIssue(i, user, session) =>
      if i < |s.workers| && s.workers[i].Idle? then Set(s, i, Issuing(user, session)) else s
    case Mint(i, jti, ok) =>
      if i < |s.workers| && jti !in s.signed then
        match s.workers[i]
        case Rotating(t, sid) =>
          MintPair(s, i, jti, t.sub, Some(sid), ok).(succeeded := s.succeeded + [t.jti])
        case Issuing(user, session) =>
          MintPair(s, i, jti, user, session, ok).(
            issues := AddIssue(s.issues, if session.Some? then session.value else jti))
        case _ => s
      else s
    case Link(i, ok) =>
      if i < |s.workers| && s.workers[i].Linking? then
        var t := s.workers[i].t;
        Set(s.(links := if ok then s.links + {(KeyOf(t), t.jti)} else s.links,
               reverse := if ok then s.reverse[t.jti := KeyOf(t)] else s.reverse,
               linked := if ok then s.linked + {t.jti} else s.linked), i, Idle)
      else s
    case StartRevoke(i, t) =>
      if i < |s.workers| && s.workers[i].Idle? && t.jti in s.signed && s.signed[t.jti] == t
      then Set(s, i, RevokeDel(t)) else s
    case RevokeDelete(i, ok) =>
      if i < |s.workers| && s.workers[i].RevokeDel? then
        var t := s.workers[i].t;
        Set(Withdraw(s, ok, t.jti).(delFailed := s.delFailed + if ok then {} else {t.jti}), i, RevokeBlack(t))
      else s
    case RevokeBlacklist(i, ok) =>
      if i < |s.workers| && s.workers[i].RevokeBlack? then
        var t := s.workers[i].t;
        Set(Blacken(s, ok, t.jti), i, RevokeUnlink(t))
      else s
    case RevokeUnlinks(i, ok) =>
      if i < |s.workers| && s.workers[i].RevokeUnlink? then
        Set(Sever(s, ok, s.workers[i].t), i, Idle)
      else s
    case CloseRead(i, k, read) =>
      if i < |s.workers| && s.workers[i].Idle? && Members(s.links, k, read) then Set(s, i, Closing(k, read, 0)) else s
    case CloseNext(i) => if i < |s.workers| && s.workers[i].Closing? then ClosePipeline(s, i) else s
    case DropAllow(jti) => Withdraw(s, true, jti)
    case DropBlack(jti) => s.(black := s.black - {jti})
    case DropReverse(jti) => s.(reverse := s.reverse - {jti})
  }

  function Run(s: Sys, es: seq<Event>): Sys {
    if es == [] then s else Step(Run(s, es[..|es| - 1]), es[|es| - 1])
  }

  /** One more event after a run. */
  lemma Then(s: Sys, es: seq<Event>, t: Sys, e: Event) returns (es': seq<Event>, t': Sys)
    requires t == Run(s, es)
    ensures es' == es + [e] && t' == Step(t, e) && t' == Run(s, es')
  {
    es', t' := es + [e], Step(t, e);
    assert es'[..|es|] == es;
  }

  lemma {:induction false} RunAppend(s: Sys, a: seq<Event>, b: seq<Event>)
    ensures Run(s, a + b) == Run(Run(s, a), b)
  {
    if b == [] {
      assert a + b == a;
    } else {
      assert (a + b)[..|a + b| - 1] == a + b[..|b| - 1];
      RunAppend(s, a, b[..|b| - 1]);
    }
  }

  ghost predicate Initial(s: Sys) {
    && s == Sys(map[], {}, {}, map[], map[], map[], {}, {}, s.workers, {}, [], map[], {})
    && forall i :: 0 <= i < |s.workers| ==> s.workers[i] == Idle
  }

  // ------------------------------------------------------------------ invariant

  /** A rotation between GETDEL and the new SET. */
  predicate InFlight(w: Worker) {
    w.Accepted? || w.Unlinking? || w.Rotating?
  }

  ghost predicate Authentic(s: Sys, t: Token) {
    t.jti in s.signed && s.signed[t.jti] == t
  }

  ghost predicate WorkerOk(s: Sys, w: Worker) {
    && (w.Verified? ==> Authentic(s, w.t))
    && (InFlight(w) ==> Authentic(s, w.t) && w.sid == w.t.sid && w.t.jti in s.consumed && w.t.jti !in s.succeeded)
    && (w.RevokeDel? || w.RevokeUnlink? ==> Authentic(s, w.t))
    && (w.RevokeBlack? ==> Authentic(s, w.t) && (w.t.jti !in s.allow || w.t.jti in s.delFailed))
  }

  /** The stored record matches the token it was stored for. */
  ghost predicate AllowOk(s: Sys, j: Id)
    requires j in s.allow
  {
    && j in s.signed && j !in s.consumed
    && s.signed[j].jti == j && RecordFits(s.allow[j], s.signed[j])
  }

  ghost predicate Apart(v: Worker, w: Worker) {
    InFlight(v) && InFlight(w) ==> v.t.jti != w.t.jti
  }

  ghost predicate Inv(s: Sys) {
    && (forall j :: j in s.allow ==> AllowOk(s, j))
    && (forall j :: j in s.black ==> j in s.signed)
    && (forall j :: j in s.consumed ==> j in s.signed)
    && (forall j :: j in s.succeeded ==> j in s.consumed)
    && (forall i :: 0 <= i < |s.workers| ==> WorkerOk(s, s.workers[i]))
    && (forall i, k :: 0 <= i < k < |s.workers| ==> Apart(s.workers[i], s.workers[k]))
    && (forall i, k :: 0 <= i < k < |s.succeeded| ==> s.succeeded[i] != s.succeeded[k])
  }

  /** What holds for the other workers and keys when worker i takes a step that signs nothing. */
  lemma OtherWorkers(s: Sys, s': Sys, i: nat)
    requires Inv(s) && i < |s.workers| && |s'.workers| == |s.workers|
    requires s'.workers == s.workers[i := s'.workers[i]]
    requires s'.signed == s.signed && s'.succeeded == s.succeeded
    requires s'.allow.Keys <= s.allow.Keys && forall j :: j in s'.allow ==> s'.allow[j] == s.allow[j]
    requires s.consumed <= s'.consumed <= s.consumed + (s.allow.Keys - s'.allow.Keys)
    requires s.delFailed <= s'.delFailed
    requires forall j :: j in s'.black ==> j in s.black || j in s.signed
    requires WorkerOk(s', s'.workers[i])
    requires InFlight(s'.workers[i]) ==>
               (InFlight(s.workers[i]) && s.workers[i].t == s'.workers[i].t) || s'.workers[i].t.jti !in s.consumed
    ensures Inv(s')
  {
    forall j | j in s'.allow ensures AllowOk(s', j) { assert AllowOk(s, j); }
    forall j | j in s'.consumed ensures j in s'.signed {
      if j !in s.consumed { assert AllowOk(s, j); }
    }
    forall k | 0 <= k < |s'.workers| ensures WorkerOk(s', s'.workers[k]) {
      assert WorkerOk(s, s.workers[k]);
    }
    forall h, k | 0 <= h < k < |s'.workers| ensures Apart(s'.workers[h], s'.workers[k]) {
      assert WorkerOk(s, s.workers[h]) && WorkerOk(s, s.workers[k]) && Apart(s.workers[h], s.workers[k]);
    }
  }

  lemma {:induction false} GetDelKeeps(s: Sys, e: Event)
    requires Inv(s) && e.GetDel?
    ensures Inv(Step(s, e))
  {
    if e.i < |s.workers| && s.workers[e.i].Verified? {
      assert WorkerOk(s, s.workers[e.i]);
      if s.workers[e.i].t.jti in s.allow { assert AllowOk(s, s.workers[e.i].t.jti); }
      OtherWorkers(s, Step(s, e), e.i);
    }
  }

  lemma {:induction false} StartRefreshKeeps(s: Sys, e: Event)
    requires Inv(s) && e.StartRefresh? && e.i < |s.workers|
    ensures Inv(Step(s, e))
  {
    assert WorkerOk(s, s.workers[e.i]);
    OtherWorkers(s, Step(s, e), e.i);
  }

  lemma {:induction false} BlacklistKeeps(s: Sys, e: Event)
    requires Inv(s) && e.Blacklist? && e.i < |s.workers|
    ensures Inv(Step(s, e))
  {
    assert WorkerOk(s, s.workers[e.i]);
    OtherWorkers(s, Step(s, e), e.i);
  }

  lemma {:induction false} UnlinkKeeps(s: Sys, e: Event)
    requires Inv(s) && e.Unlink? && e.i < |s.workers|
    ensures Inv(Step(s, e))
  {
    assert WorkerOk(s, s.workers[e.i]);
    OtherWorkers(s, Step(s, e), e.i);
  }

  lemma {:induction false} LoadUserKeeps(s: Sys, e: Event)
    requires Inv(s) && e.LoadUser? && e.i < |s.workers|
    ensures Inv(Step(s, e))
  {
    assert WorkerOk(s, s.workers[e.i]);
    OtherWorkers(s, Step(s, e), e.i);
  }

  lemma {:induction false} StartIssueKeeps(s: Sys, e: Event)
    requires Inv(s) && e.StartIssue? && e.i < |s.workers|
    ensures Inv(Step(s, e))
  {
    assert WorkerOk(s, s.workers[e.i]);
    OtherWorkers(s, Step(s, e), e.i);
  }

  lemma {:induction false} LinkKeeps(s: Sys, e: Event)
    requires Inv(s) && e.Link? && e.i < |s.workers|
    ensures Inv(Step(s, e))
  {
    assert WorkerOk(s, s.workers[e.i]);
    OtherWorkers(s, Step(s, e), e.i);
  }

  lemma {:induction false} StartRevokeKeeps(s: Sys, e: Event)
    requires Inv(s) && e.StartRevoke? && e.i < |s.workers|
    ensures Inv(Step(s, e))
  {
    assert WorkerOk(s, s.workers[e.i]);
    OtherWorkers(s, Step(s, e), e.i);
  }

  lemma {:induction false} RevokeDeleteKeeps(s: Sys, e: Event)
    requires Inv(s) && e.RevokeDelete? && e.i < |s.workers|
    ensures Inv(Step(s, e))
  {
    assert WorkerOk(s, s.workers[e.i]);
    OtherWorkers(s, Step(s, e), e.i);
  }

  lemma {:induction false} RevokeBlacklistKeeps(s: Sys, e: Event)
    requires Inv(s) && e.RevokeBlacklist? && e.i < |s.workers|
    ensures Inv(Step(s, e))
  {
    assert WorkerOk(s, s.workers[e.i]);
    OtherWorkers(s, Step(s, e), e.i);
  }

  lemma {:induction false} RevokeUnlinksKeeps(s: Sys, e: Event)
    requires Inv(s) && e.RevokeUnlinks? && e.i < |s.workers|
    ensures Inv(Step(s, e))
  {
    assert WorkerOk(s, s.workers[e.i]);
    OtherWorkers(s, Step(s, e), e.i);
  }

  lemma {:induction false} CloseReadKeeps(s: Sys, e: Event)
    requires Inv(s) && e.CloseRead? && e.i < |s.workers|
    ensures Inv(Step(s, e))
  {
    assert WorkerOk(s, s.workers[e.i]);
    OtherWorkers(s, Step(s, e), e.i);
  }

  lemma {:induction false} CloseTokenKeeps(s: Sys, i: nat)
    requires Inv(s) && i < |s.workers| && s.workers[i].Closing? && s.workers[i].at < 2 * |s.workers[i].read|
    ensures Inv(ClosePipeline(s, i))
  {
    var w, s' := s.workers[i], ClosePipeline(s, i);
    assert s'.workers[i] == w.(at := w.at + 1);
    OtherWorkers(s, s', i);
  }

  lemma {:induction false} CloseNextKeeps(s: Sys, e: Event)
    requires Inv(s) && e.CloseNext? && e.i < |s.workers|
    ensures Inv(Step(s, e))
  {
    if s.workers[e.i].Closing? {
      if s.workers[e.i].at < 2 * |s.workers[e.i].read| {
        CloseTokenKeeps(s, e.i);
      } else {
        OtherWorkers(s, ClosePipeline(s, e.i), e.i);
      }
    }
  }

  lemma {:induction false} DropKeeps(s: Sys, e: Event)
    requires Inv(s) && (e.DropAllow? || e.DropBlack? || e.DropReverse?)
    ensures Inv(Step(s, e))
  {
    var s' := Step(s, e);
    forall j | j in s'.allow ensures AllowOk(s', j) { assert AllowOk(s, j); }
    forall i | 0 <= i < |s'.workers| ensures WorkerOk(s', s'.workers[i]) {
      assert WorkerOk(s, s.workers[i]);
    }
  }

  /** Signing and storing a fresh token, for a worker that stays where it is. */
  lemma MintFrame(s: Sys, s': Sys, jti: Id, w: Worker)
    requires jti !in s.signed && forall j :: j in s.signed ==> j in s'.signed && s'.signed[j] == s.signed[j]
    requires forall j :: j in s'.allow && j != jti ==> j in s.allow
    requires s'.consumed == s.consumed && s'.delFailed == s.delFailed
    requires WorkerOk(s, w) && (InFlight(w) ==> w.t.jti !in s'.succeeded)
    ensures WorkerOk(s', w)
  {
  }

  ghost predicate Minted(s: Sys, s': Sys, i: nat, jti: Id) {
    && i < |s.workers| && |s'.workers| == |s.workers| && s'.workers == s.workers[i := s'.workers[i]]
    && (s'.workers[i].Idle? || s'.workers[i].Linking?)
    && jti !in s.signed && s'.consumed == s.consumed && s'.black == s.black && s'.delFailed == s.delFailed
    && jti in s'.signed && s'.signed[jti].jti == jti
    && (forall j :: j in s.signed ==> j in s'.signed && s'.signed[j] == s.signed[j])
    && (forall j :: j in s'.allow && j != jti ==> j in s.allow && s'.allow[j] == s.allow[j])
    && (jti in s'.allow ==> jti in s.allow || RecordFits(s'.allow[jti], s'.signed[jti]))
    && s'.succeeded == if s.workers[i].Rotating? then s.succeeded + [s.workers[i].t.jti] else s.succeeded
  }

  lemma {:induction false} MintIsMinted(s: Sys, e: Event)
    requires e.Mint? && Step(s, e) != s
    ensures Minted(s, Step(s, e), e.i, e.jti)
  {
  }

  lemma MintedAllow(s: Sys, s': Sys, i: nat, jti: Id, j: Id)
    requires Inv(s) && Minted(s, s', i, jti) && j in s'.allow
    ensures AllowOk(s', j)
  {
    if j in s.allow { assert AllowOk(s, j); }
  }

  lemma MintedWorker(s: Sys, s': Sys, i: nat, jti: Id, k: nat)
    requires Inv(s) && Minted(s, s', i, jti) && k < |s'.workers|
    ensures WorkerOk(s', s'.workers[k])
  {
    if k != i {
      var w := s.workers[i];
      assert WorkerOk(s, s.workers[k]);
      assert if k < i then Apart(s.workers[k], w) else Apart(w, s.workers[k]);
      MintFrame(s, s', jti, s.workers[k]);
    }
  }

  lemma MintedKeeps(s: Sys, s': Sys, i: nat, jti: Id)
    requires Inv(s) && Minted(s, s', i, jti)
    ensures Inv(s')
  {
    assert WorkerOk(s, s.workers[i]);
    forall j | j in s'.allow ensures AllowOk(s', j) { MintedAllow(s, s', i, jti, j); }
    forall k | 0 <= k < |s'.workers| ensures WorkerOk(s', s'.workers[k]) { MintedWorker(s, s', i, jti, k); }
    forall h, k | 0 <= h < k < |s'.workers| ensures Apart(s'.workers[h], s'.workers[k]) {
      assert Apart(s.workers[h], s.workers[k]);
    }
  }

  lemma {:induction false} MintKeeps(s: Sys, e: Event)
    requires Inv(s) && e.Mint?
    ensures Inv(Step(s, e))
  {
    if Step(s, e) != s {
      MintIsMinted(s, e);
      MintedKeeps(s, Step(s, e), e.i, e.jti);
    }
  }

  lemma {:induction false} StepKeeps(s: Sys, e: Event)
    requires Inv(s)
    ensures Inv(Step(s, e))
  {
    match e
    case Mint(_, _, _) => MintKeeps(s, e);
    case GetDel(_) => GetDelKeeps(s, e);
    case DropAllow(_) => DropKeeps(s, e);
    case DropBlack(_) => DropKeeps(s, e);
    case DropReverse(_) => DropKeeps(s, e);
    case StartRefresh(_, _, _) => if e.i < |s.workers| { StartRefreshKeeps(s, e); }
    case Blacklist(_, _) => if e.i < |s.workers| { BlacklistKeeps(s, e); }
    case Unlink(_, _) => if e.i < |s.workers| { UnlinkKeeps(s, e); }
    case LoadUser(_, _) => if e.i < |s.workers| { LoadUserKeeps(s, e); }
    case StartIssue(_, _, _) => if e.i < |s.workers| { StartIssueKeeps(s, e); }
    case Link(_, _) => if e.i < |s.workers| { LinkKeeps(s, e); }
    case StartRevoke(_, _) => if e.i < |s.workers| { StartRevokeKeeps(s, e); }
    case RevokeDelete(_, _) => if e.i < |s.workers| { RevokeDeleteKeeps(s, e); }
    case RevokeBlacklist(_, _) => if e.i < |s.workers| { RevokeBlacklistKeeps(s, e); }
    case RevokeUnlinks(_, _) => if e.i < |s.workers| { RevokeUnlinksKeeps(s, e); }
    case CloseRead(_, _, _) => if e.i < |s.workers| { CloseReadKeeps(s, e); }
    case CloseNext(_) => if e.i < |s.workers| { CloseNextKeeps(s, e); }
  }

  lemma {:induction false} RunKeeps(s: Sys, es: seq<Event>)
    requires Inv(s)
    ensures Inv(Run(s, es))
  {
    if es != [] {
      RunKeeps(s, es[..|es| - 1]);
      StepKeeps(Run(s, es[..|es| - 1]), es[|es| - 1]);
    }
  }

  lemma InitialInv(s: Sys)
    requires Initial(s)
    ensures Inv(s)
  {
  }
}
