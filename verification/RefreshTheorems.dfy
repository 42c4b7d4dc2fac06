/** What holds over every interleaving of refresh, revoke, login and session revoke: single
    use, when the two lists overlap, and when a revoked session stays revoked. */
module RefreshTheorems {
  import opened AuthTokens
  import opened Common
  import opened RefreshProtocol

  /** Single use: over every interleaving, each refresh token yields at most one new pair. */
  lemma {:induction false} SingleUse(s: Sys, es: seq<Event>, i: nat, k: nat)
    requires Initial(s)
    requires i < k < |Run(s, es).succeeded|
    ensures Run(s, es).succeeded[i] != Run(s, es).succeeded[k]
  {
    RunKeeps(s, es);
  }

  /** An allow-list hit never fails the record tests: the token is authentic. */
  lemma {:induction false} HitsAlwaysFit(s: Sys, es: seq<Event>, i: nat)
    requires Initial(s) && i < |Run(s, es).workers| && Run(s, es).workers[i].Verified?
    ensures var t := Run(s, es); var tok := t.workers[i].t;
            tok.jti in t.allow ==> RecordFits(t.allow[tok.jti], tok)
  {
    RunKeeps(s, es);
    var t := Run(s, es);
    assert WorkerOk(t, t.workers[i]);
    if t.workers[i].t.jti in t.allow { assert AllowOk(t, t.workers[i].t.jti); }
  }

  // ------------------------------------------------ what a step does to the lists

  /** The jti a step puts on the blacklist. */
  function Blackened(s: Sys, e: Event): set<Id> {
    if e.Blacklist? && e.ok && e.i < |s.workers| && s.workers[e.i].Accepted? then {s.workers[e.i].t.jti}
    else if e.RevokeBlacklist? && e.ok && e.i < |s.workers| && s.workers[e.i].RevokeBlack? then {s.workers[e.i].t.jti}
    else {}
  }

  ghost predicate Lands(w: Worker, w': Worker) {
    InFlight(w') ==> InFlight(w) && w'.sid == w.sid
  }

  /** Nothing is signed or allowed, `added` alone is blacklisted, no rotation takes off. */
  ghost predicate Shrinks(s: Sys, s': Sys, added: set<Id>) {
    && s'.issues == s.issues && s'.signed == s.signed && s'.allow.Keys <= s.allow.Keys
    && s.delFailed <= s'.delFailed && s'.black <= s.black + added
    && |s'.workers| == |s.workers|
    && forall i :: 0 <= i < |s.workers| ==> Lands(s.workers[i], s'.workers[i])
  }

  lemma {:induction false} StartRefreshShrinks(s: Sys, e: Event)
    requires e.StartRefresh?
    ensures Shrinks(s, Step(s, e), Blackened(s, e))
  {
  }

  lemma {:induction false} LoadUserShrinks(s: Sys, e: Event)
    requires e.LoadUser?
    ensures Shrinks(s, Step(s, e), Blackened(s, e))
  {
  }

  lemma {:induction false} StartIssueShrinks(s: Sys, e: Event)
    requires e.StartIssue?
    ensures Shrinks(s, Step(s, e), Blackened(s, e))
  {
  }

  lemma {:induction false} StartRevokeShrinks(s: Sys, e: Event)
    requires e.StartRevoke?
    ensures Shrinks(s, Step(s, e), Blackened(s, e))
  {
  }

  lemma {:induction false} CloseReadShrinks(s: Sys, e: Event)
    requires e.CloseRead?
    ensures Shrinks(s, Step(s, e), Blackened(s, e))
  {
  }

  lemma {:induction false} BlacklistShrinks(s: Sys, e: Event)
    requires e.Blacklist?
    ensures Shrinks(s, Step(s, e), Blackened(s, e))
  {
  }

  lemma {:induction false} RevokeBlacklistShrinks(s: Sys, e: Event)
    requires e.RevokeBlacklist?
    ensures Shrinks(s, Step(s, e), Blackened(s, e))
  {
  }

  lemma {:induction false} UnlinkShrinks(s: Sys, e: Event)
    requires e.Unlink?
    ensures Shrinks(s, Step(s, e), Blackened(s, e))
  {
  }

  lemma {:induction false} LinkShrinks(s: Sys, e: Event)
    requires e.Link?
    ensures Shrinks(s, Step(s, e), Blackened(s, e))
  {
  }

  lemma {:induction false} RevokeUnlinksShrinks(s: Sys, e: Event)
    requires e.RevokeUnlinks?
    ensures Shrinks(s, Step(s, e), Blackened(s, e))
  {
  }

  lemma {:induction false} RevokeDeleteShrinks(s: Sys, e: Event)
    requires e.RevokeDelete?
    ensures Shrinks(s, Step(s, e), Blackened(s, e))
  {
  }

  lemma {:induction false} DropAllowShrinks(s: Sys, e: Event)
    requires e.DropAllow?
    ensures Shrinks(s, Step(s, e), Blackened(s, e))
  {
  }

  lemma {:induction false} DropBlackShrinks(s: Sys, e: Event)
    requires e.DropBlack?
    ensures Shrinks(s, Step(s, e), Blackened(s, e))
  {
  }

  lemma {:induction false} DropReverseShrinks(s: Sys, e: Event)
    requires e.DropReverse?
    ensures Shrinks(s, Step(s, e), Blackened(s, e))
  {
  }

  lemma {:induction false} BlacklistsAdd(s: Sys, e: Event)
    requires e.Blacklist? || e.RevokeBlacklist?
    ensures Step(s, e).allow == s.allow && Step(s, e).black == s.black + Blackened(s, e)
  {
  }

  lemma {:induction false} ClosesShrink(s: Sys, e: Event)
    requires e.CloseNext?
    ensures Shrinks(s, Step(s, e), Blackened(s, e))
  {
    if e.i < |s.workers| && s.workers[e.i].Closing? {
      var w := s.workers[e.i];
      if w.at < 2 * |w.read| {
        assert ClosePipeline(s, e.i).workers == s.workers[e.i := w.(at := w.at + 1)];
      } else {
        assert ClosePipeline(s, e.i).workers == s.workers[e.i := Idle];
      }
    }
  }

  lemma {:induction false} OthersShrink(s: Sys, e: Event)
    requires !e.Mint? && !e.GetDel?
    ensures Shrinks(s, Step(s, e), Blackened(s, e))
  {
    match e
    case CloseNext(_) => ClosesShrink(s, e);
    case StartRefresh(_, _, _) => StartRefreshShrinks(s, e);
    case LoadUser(_, _) => LoadUserShrinks(s, e);
    case StartIssue(_, _, _) => StartIssueShrinks(s, e);
    case StartRevoke(_, _) => StartRevokeShrinks(s, e);
    case CloseRead(_, _, _) => CloseReadShrinks(s, e);
    case Blacklist(_, _) => BlacklistShrinks(s, e);
    case RevokeBlacklist(_, _) => RevokeBlacklistShrinks(s, e);
    case Unlink(_, _) => UnlinkShrinks(s, e);
    case Link(_, _) => LinkShrinks(s, e);
    case RevokeUnlinks(_, _) => RevokeUnlinksShrinks(s, e);
    case RevokeDelete(_, _) => RevokeDeleteShrinks(s, e);
    case DropAllow(_) => DropAllowShrinks(s, e);
    case DropBlack(_) => DropBlackShrinks(s, e);
    case DropReverse(_) => DropReverseShrinks(s, e);
  }

  lemma {:induction false} GetDelLists(s: Sys, e: Event)
    requires e.GetDel?
    ensures Step(s, e).allow.Keys <= s.allow.Keys && Step(s, e).black == s.black && Step(s, e).delFailed == s.delFailed
  {
  }

  lemma {:induction false} MintLists(s: Sys, e: Event)
    requires Inv(s) && e.Mint?
    ensures Step(s, e).black == s.black && Step(s, e).delFailed == s.delFailed
    ensures forall j :: j in Step(s, e).allow && j in s.black ==> j in s.allow
  {
    if Step(s, e) != s { MintIsMinted(s, e); }
  }

  // ------------------------------------------------------------ the two lists

  ghost predicate Disjoint(s: Sys) {
    forall j :: j in s.allow ==> j !in s.black
  }

  /** A token revoke blacklists while the record it failed to delete is still there. */
  predicate Overlaps(s: Sys, e: Event) {
    && e.RevokeBlacklist? && e.ok && e.i < |s.workers|
    && s.workers[e.i].RevokeBlack? && s.workers[e.i].t.jti in s.allow
  }

  lemma NoneConsumed(s: Sys)
    requires Inv(s)
    ensures forall j :: j in s.allow ==> j !in s.consumed
  {
    forall j | j in s.allow ensures j !in s.consumed { assert AllowOk(s, j); }
  }

  lemma {:induction false} BlackenedAllowed(s: Sys, e: Event)
    requires Inv(s)
    ensures Overlaps(s, e) <==> exists j :: j in Blackened(s, e) && j in s.allow
    ensures Overlaps(s, e) ==> s.workers[e.i].t.jti in s.delFailed
  {
    NoneConsumed(s);
    if (e.Blacklist? || e.RevokeBlacklist?) && e.i < |s.workers| { assert WorkerOk(s, s.workers[e.i]); }
    if Overlaps(s, e) { assert s.workers[e.i].t.jti in Blackened(s, e); }
  }

  /** A step brings a jti into both lists if and only if it is such a blacklisting. */
  lemma {:induction false} OverlapStepIff(s: Sys, e: Event)
    requires Inv(s) && Disjoint(s)
    ensures Disjoint(Step(s, e)) <==> !Overlaps(s, e)
    ensures Overlaps(s, e) ==> s.workers[e.i].t.jti in s.delFailed
  {
    BlackenedAllowed(s, e);
    if e.Mint? {
      MintLists(s, e);
    } else if e.GetDel? {
      GetDelLists(s, e);
    } else {
      OthersShrink(s, e);
      if Overlaps(s, e) { BlacklistsAdd(s, e); }
    }
  }

  ghost predicate DisjointThroughout(s: Sys, es: seq<Event>) {
    Disjoint(Run(s, es)) && (es != [] ==> DisjointThroughout(s, es[..|es| - 1]))
  }

  predicate NeverOverlaps(s: Sys, es: seq<Event>) {
    es == [] || (NeverOverlaps(s, es[..|es| - 1]) && !Overlaps(Run(s, es[..|es| - 1]), es[|es| - 1]))
  }

  /** Over runs: no jti is ever in both lists if and only if no revoke blacklists a token
      whose record its own DEL left in place. */
  lemma {:induction false} ListsDisjointIff(s: Sys, es: seq<Event>)
    requires Initial(s)
    ensures DisjointThroughout(s, es) <==> NeverOverlaps(s, es)
  {
    if es != [] {
      var p, e := es[..|es| - 1], es[|es| - 1];
      ListsDisjointIff(s, p);
      RunKeeps(s, p);
      if Disjoint(Run(s, p)) { OverlapStepIff(Run(s, p), e); }
    }
  }

  lemma {:induction false} FailedDelStep(s: Sys, e: Event, j: Id)
    requires Inv(s) && (j in s.allow && j in s.black ==> j in s.delFailed)
    requires j in Step(s, e).allow && j in Step(s, e).black
    ensures j in Step(s, e).delFailed
  {
    if e.Mint? {
      MintLists(s, e);
    } else if e.GetDel? {
      GetDelLists(s, e);
    } else {
      OthersShrink(s, e);
      BlackenedAllowed(s, e);
      assert j in Blackened(s, e) ==> Overlaps(s, e) && j == s.workers[e.i].t.jti;
    }
  }

  /** A jti is in both lists only if the DEL of a `revoke` for it failed. */
  lemma {:induction false} ListsDisjoint(s: Sys, es: seq<Event>, j: Id)
    requires Initial(s) && j in Run(s, es).allow && j in Run(s, es).black
    ensures j in Run(s, es).delFailed
  {
    if es != [] {
      var p, e := es[..|es| - 1], es[|es| - 1];
      RunKeeps(s, p);
      if j in Run(s, p).allow && j in Run(s, p).black { ListsDisjoint(s, p, j); }
      FailedDelStep(Run(s, p), e, j);
    }
  }

  // ------------------------------------------------- live entries per session

  /** Live allow entries of session sid. */
  ghost function Live(s: Sys, sid: Id): set<Id> {
    set j | j in s.allow && j in s.signed && s.signed[j].sid == sid
  }

  /** Rotations of session sid in flight. */
  function Flying(ws: seq<Worker>, sid: Id): nat {
    if ws == [] then 0
    else
      var w := ws[|ws| - 1];
      Flying(ws[..|ws| - 1], sid) + if InFlight(w) && w.sid == sid then 1 else 0
  }

  function Issues(s: Sys, sid: Id): nat {
    if sid in s.issues then s.issues[sid] else 0
  }

  lemma {:induction false} FlyingUpdate(ws: seq<Worker>, i: nat, w: Worker, sid: Id)
    requires i < |ws|
    ensures Flying(ws[i := w], sid) == Flying(ws, sid)
              - (if InFlight(ws[i]) && ws[i].sid == sid then 1 else 0)
              + (if InFlight(w) && w.sid == sid then 1 else 0)
  {
    var n := |ws| - 1;
    if i < n {
      assert ws[i := w][..n] == ws[..n][i := w];
      FlyingUpdate(ws[..n], i, w, sid);
    } else {
      assert ws[i := w][..n] == ws[..n];
    }
  }

  ghost predicate WithinBudget(s: Sys, sid: Id) {
    |Live(s, sid)| + Flying(s.workers, sid) <= Issues(s, sid)
  }

  lemma {:induction false} MintLive(s: Sys, e: Event, sid: Id)
    requires Inv(s) && e.Mint? && Step(s, e) != s
    ensures var s' := Step(s, e);
            Live(s', sid) == Live(s, sid) + if e.ok && s'.signed[e.jti].sid == sid then {e.jti} else {}
  {
    var s' := Step(s, e);
    MintIsMinted(s, e);
    forall j | j in s.allow ensures j != e.jti && j in s.signed { assert AllowOk(s, j); }
    assert s'.allow == (if e.ok then s.allow[e.jti := s'.allow[e.jti]] else s.allow);
  }

  lemma {:induction false} MintFlying(s: Sys, e: Event, sid: Id)
    requires e.Mint? && Step(s, e) != s
    ensures var w := s.workers[e.i];
            Flying(Step(s, e).workers, sid) == Flying(s.workers, sid) - if w.Rotating? && w.sid == sid then 1 else 0
  {
    MintIsMinted(s, e);
    FlyingUpdate(s.workers, e.i, Step(s, e).workers[e.i], sid);
  }

  lemma MintSize(a: set<Id>, x: Id)
    ensures |a + {x}| <= |a| + 1
  {
    if x in a { assert a + {x} == a; }
  }

  /** A login for the session stores a token. */
  predicate LoginMint(s: Sys, e: Event, sid: Id) {
    && e.Mint? && e.ok && e.i < |s.workers| && e.jti !in s.signed && s.workers[e.i].Issuing?
    && (if s.workers[e.i].session.Some? then s.workers[e.i].session.value else e.jti) == sid
  }

  lemma {:induction false} LoginMintStep(s: Sys, e: Event, sid: Id)
    requires e.Mint? && Step(s, e) != s
    ensures LoginMint(s, e, sid) <==> e.ok && s.workers[e.i].Issuing? && Step(s, e).signed[e.jti].sid == sid
    ensures s.workers[e.i].Rotating? || s.workers[e.i].Issuing?
    ensures s.workers[e.i].Rotating? ==>
              Step(s, e).signed[e.jti].sid == s.workers[e.i].sid && Step(s, e).issues == s.issues
    ensures s.workers[e.i].Issuing? ==> Step(s, e).issues == AddIssue(s.issues, Step(s, e).signed[e.jti].sid)
  {
  }

  lemma {:induction false} MintWithinBudget(s: Sys, e: Event, sid: Id)
    requires Inv(s) && WithinBudget(s, sid) && e.Mint? && Step(s, e) != s
    ensures WithinBudget(Step(s, e), sid)
  {
    MintLive(s, e, sid);
    MintFlying(s, e, sid);
    LoginMintStep(s, e, sid);
    MintSize(Live(s, sid), e.jti);
  }

  /** A GETDEL that hits takes the token's record and puts its rotation in flight. */
  lemma {:induction false} GetDelHit(s: Sys, e: Event)
    requires Inv(s) && e.GetDel? && e.i < |s.workers| && s.workers[e.i].Verified?
    ensures var s', t := Step(s, e), s.workers[e.i].t;
            && Authentic(s, t) && s'.signed == s.signed && s'.issues == s.issues && s'.allow == s.allow - {t.jti}
            && s'.workers == s.workers[e.i := if t.jti in s.allow then Accepted(t, t.sid) else Idle]
  {
    assert WorkerOk(s, s.workers[e.i]);
    if s.workers[e.i].t.jti in s.allow { assert AllowOk(s, s.workers[e.i].t.jti); }
  }

  lemma {:induction false} GetDelLive(s: Sys, e: Event, sid: Id)
    requires Inv(s) && e.GetDel? && e.i < |s.workers| && s.workers[e.i].Verified?
    ensures var s', t := Step(s, e), s.workers[e.i].t;
            && s'.issues == s.issues
            && Live(s', sid) == Live(s, sid) - {t.jti}
            && Flying(s'.workers, sid) == Flying(s.workers, sid) + (if t.jti in s.allow && t.sid == sid then 1 else 0)
            && (t.jti in s.allow && t.sid == sid ==> t.jti in Live(s, sid))
  {
    GetDelHit(s, e);
    FlyingUpdate(s.workers, e.i, Step(s, e).workers[e.i], sid);
  }

  lemma {:induction false} FlyingShrinks(ws: seq<Worker>, ws': seq<Worker>, sid: Id)
    requires |ws'| == |ws| && forall i :: 0 <= i < |ws| ==> Lands(ws[i], ws'[i])
    ensures Flying(ws', sid) <= Flying(ws, sid)
  {
    if ws != [] { FlyingShrinks(ws[..|ws| - 1], ws'[..|ws| - 1], sid); }
  }

  lemma ShrinkLive(s: Sys, s': Sys, added: set<Id>, sid: Id)
    requires Shrinks(s, s', added)
    ensures Live(s', sid) <= Live(s, sid) && Flying(s'.workers, sid) <= Flying(s.workers, sid)
  {
    FlyingShrinks(s.workers, s'.workers, sid);
  }

  lemma {:induction false} IdleGetDel(s: Sys, e: Event)
    requires e.GetDel? && !(e.i < |s.workers| && s.workers[e.i].Verified?)
    ensures Step(s, e) == s
  {
  }

  /** Neither a mint nor a GETDEL by a verified refresh. */
  lemma {:induction false} OtherLive(s: Sys, e: Event, sid: Id)
    requires !e.Mint? && !(e.GetDel? && e.i < |s.workers| && s.workers[e.i].Verified?)
    ensures var s' := Step(s, e);
            s'.issues == s.issues && Live(s', sid) <= Live(s, sid) && Flying(s'.workers, sid) <= Flying(s.workers, sid)
  {
    if e.GetDel? {
      IdleGetDel(s, e);
    } else {
      OthersShrink(s, e);
      ShrinkLive(s, Step(s, e), Blackened(s, e), sid);
    }
  }

  lemma {:induction false} StepWithinBudget(s: Sys, e: Event, sid: Id)
    requires Inv(s) && WithinBudget(s, sid)
    ensures WithinBudget(Step(s, e), sid)
  {
    if e.Mint? {
      if Step(s, e) != s { MintWithinBudget(s, e, sid); }
    } else if e.GetDel? && e.i < |s.workers| && s.workers[e.i].Verified? {
      GetDelLive(s, e, sid);
    } else {
      OtherLive(s, e, sid);
      SubsetSize(Live(Step(s, e), sid), Live(s, sid));
    }
  }

  lemma {:induction false} NoneFlying(ws: seq<Worker>, sid: Id)
    requires forall i :: 0 <= i < |ws| ==> !InFlight(ws[i])
    ensures Flying(ws, sid) == 0
  {
    if ws != [] { NoneFlying(ws[..|ws| - 1], sid); }
  }

  /** Per session, live allow entries plus rotations in flight never exceed the issues
      for it: one per login, so rotation never multiplies a session's tokens. */
  lemma {:induction false} RotationNeverMultiplies(s: Sys, es: seq<Event>, sid: Id)
    requires Initial(s)
    ensures WithinBudget(Run(s, es), sid)
  {
    if es == [] {
      NoneFlying(s.workers, sid);
      assert Live(s, sid) == {};
    } else {
      RunKeeps(s, es[..|es| - 1]);
      RotationNeverMultiplies(s, es[..|es| - 1], sid);
      StepWithinBudget(Run(s, es[..|es| - 1]), es[|es| - 1], sid);
    }
  }

  // ------------------------------------------------------- revoked sessions

  /** No live token of the session, and none on its way. */
  ghost predicate Quiet(s: Sys, sid: Id) {
    Live(s, sid) == {} && Flying(s.workers, sid) == 0
  }

  lemma {:induction false} IdleMint(s: Sys, e: Event, sid: Id)
    requires e.Mint? && LoginMint(s, e, sid)
    ensures Step(s, e) != s
  {
    assert e.jti in Step(s, e).signed;
  }

  lemma RotatesNot(s: Sys, i: nat, sid: Id)
    requires Flying(s.workers, sid) == 0 && i < |s.workers|
    ensures InFlight(s.workers[i]) ==> s.workers[i].sid != sid
  {
    FlyingUpdate(s.workers, i, Idle, sid);
  }

  lemma {:induction false} QuietMintIff(s: Sys, e: Event, sid: Id)
    requires Inv(s) && Quiet(s, sid) && e.Mint?
    ensures Quiet(Step(s, e), sid) <==> !LoginMint(s, e, sid)
  {
    if Step(s, e) != s {
      LoginMintStep(s, e, sid);
      MintLive(s, e, sid);
      MintFlying(s, e, sid);
      RotatesNot(s, e.i, sid);
    } else if LoginMint(s, e, sid) {
      IdleMint(s, e, sid);
    }
  }

  /** A quiet session stays quiet in every step but a login for it. */
  lemma {:induction false} QuietStepIff(s: Sys, e: Event, sid: Id)
    requires Inv(s) && Quiet(s, sid)
    ensures Quiet(Step(s, e), sid) <==> !LoginMint(s, e, sid)
  {
    if e.Mint? {
      QuietMintIff(s, e, sid);
    } else if e.GetDel? && e.i < |s.workers| && s.workers[e.i].Verified? {
      GetDelLive(s, e, sid);
    } else {
      OtherLive(s, e, sid);
    }
  }

  /** The run holds no login for the session. */
  predicate NoLogin(s: Sys, es: seq<Event>, sid: Id) {
    es == [] || (NoLogin(s, es[..|es| - 1], sid) && !LoginMint(Run(s, es[..|es| - 1]), es[|es| - 1], sid))
  }

  lemma {:induction false} QuietRun(s: Sys, es: seq<Event>, sid: Id)
    requires Inv(s) && Quiet(s, sid) && NoLogin(s, es, sid)
    ensures Quiet(Run(s, es), sid)
  {
    if es != [] {
      var p := es[..|es| - 1];
      QuietRun(s, p, sid);
      RunKeeps(s, p);
      QuietStepIff(Run(s, p), es[|es| - 1], sid);
    }
  }

  lemma {:induction false} FlyingWitness(ws: seq<Worker>, sid: Id) returns (i: nat)
    requires Flying(ws, sid) > 0
    ensures i < |ws| && InFlight(ws[i]) && ws[i].sid == sid
  {
    var n := |ws| - 1;
    if InFlight(ws[n]) && ws[n].sid == sid { i := n; } else { i := FlyingWitness(ws[..n], sid); }
  }

  lemma {:induction false} Above(a: set<Id>) returns (n: Id)
    ensures forall x :: x in a ==> x < n
  {
    n := 0;
    if a != {} {
      var x :| x in a;
      var m := Above(a - {x});
      n := Max(m, x + 1);
      assert forall y :: y in a ==> y == x || y in a - {x};
    }
  }

  /** The rotation at its last step: the new token is live. */
  lemma {:induction false} MintRevives(s: Sys, i: nat, jti: Id, sid: Id)
    requires i < |s.workers| && s.workers[i].Rotating? && s.workers[i].sid == sid && jti !in s.signed
    ensures jti in Live(Step(s, Mint(i, jti, true)), sid)
    ensures !LoginMint(s, Mint(i, jti, true), sid)
  {
  }

  lemma {:induction false} Onward(s: Sys, es: seq<Event>, t: Sys, e: Event, sid: Id) returns (es': seq<Event>, t': Sys)
    requires t == Run(s, es) && NoLogin(s, es, sid) && !LoginMint(t, e, sid)
    ensures t' == Run(s, es') == Step(t, e) && NoLogin(s, es', sid)
  {
    es', t' := Then(s, es, t, e);
    assert es'[..|es|] == es;
  }

  /** The steps that bring a rotation in flight before its mint. */
  lemma {:induction false} Advance(s: Sys, i: nat, sid: Id) returns (es: seq<Event>, t: Sys)
    requires i < |s.workers| && InFlight(s.workers[i]) && s.workers[i].sid == sid
    ensures t == Run(s, es) && NoLogin(s, es, sid)
    ensures i < |t.workers| && t.workers[i].Rotating? && t.workers[i].sid == sid && t.signed == s.signed
  {
    es, t := [], s;
    if t.workers[i].Accepted? { es, t := Onward(s, es, t, Blacklist(i, true), sid); }
    if t.workers[i].Unlinking? { es, t := Onward(s, es, t, Unlink(i, true), sid); }
  }

  /** A rotation in flight can bring a live token of the session back, without any login. */
  lemma {:induction false} FlyingRevives(s: Sys, sid: Id) returns (es: seq<Event>)
    requires Flying(s.workers, sid) > 0
    ensures NoLogin(s, es, sid) && Live(Run(s, es), sid) != {}
  {
    var i := FlyingWitness(s.workers, sid);
    var jti := Above(s.signed.Keys);
    var t;
    es, t := Advance(s, i, sid);
    MintRevives(t, i, jti, sid);
    es, t := Onward(s, es, t, Mint(i, jti, true), sid);
  }

  ghost predicate StaysRevoked(s: Sys, es: seq<Event>, sid: Id) {
    NoLogin(s, es, sid) ==> Live(Run(s, es), sid) == {}
  }

  /** A session is revoked for good, over every continuation without a new login for it, if
      and only if it has no live token and no rotation in flight. */
  lemma {:induction false} RevokedForGoodIff(s: Sys, sid: Id)
    requires Inv(s)
    ensures (forall es :: StaysRevoked(s, es, sid)) <==> Quiet(s, sid)
  {
    if Quiet(s, sid) {
      forall es ensures StaysRevoked(s, es, sid) {
        if NoLogin(s, es, sid) { QuietRun(s, es, sid); }
      }
    } else {
      var es: seq<Event> := [];
      if Live(s, sid) == {} { es := FlyingRevives(s, sid); }
      assert !StaysRevoked(s, es, sid);
    }
  }

  // ------------------------------------------------------------ the blacklist bars

  predicate Carries(w: Worker, j: Id) {
    (w.Verified? || w.Accepted? || w.Unlinking? || w.Rotating?) && w.t.jti == j
  }

  /** Blacklisted, and no refresh of it past its verification. */
  ghost predicate Barred(s: Sys, j: Id) {
    j in s.black && forall i :: 0 <= i < |s.workers| ==> !Carries(s.workers[i], j)
  }

  /** The token stays blacklisted, no worker takes it up, and no pair comes of it. */
  ghost predicate StillBarred(s: Sys, s': Sys, j: Id) {
    && Barred(s', j)
    && var n := |s'.succeeded| - 1;
       || s'.succeeded == s.succeeded
       || (n >= 0 && s'.succeeded == s.succeeded + [s'.succeeded[n]] && s'.succeeded[n] != j)
  }

  lemma {:induction false} StartBarred(s: Sys, e: Event, j: Id)
    requires Barred(s, j) && e.StartRefresh?
    ensures StillBarred(s, Step(s, e), j)
  {
    if e.i < |s.workers| { assert !Carries(s.workers[e.i], j); }
  }

  lemma {:induction false} GetDelBarred(s: Sys, e: Event, j: Id)
    requires Barred(s, j) && e.GetDel?
    ensures StillBarred(s, Step(s, e), j)
  {
    if e.i < |s.workers| { assert !Carries(s.workers[e.i], j); }
  }

  lemma {:induction false} RotateBarred(s: Sys, e: Event, j: Id)
    requires Barred(s, j) && (e.Blacklist? || e.Unlink? || e.LoadUser?)
    ensures StillBarred(s, Step(s, e), j)
  {
    if e.i < |s.workers| { assert !Carries(s.workers[e.i], j); }
  }

  lemma {:induction false} IssueBarred(s: Sys, e: Event, j: Id)
    requires Barred(s, j) && (e.StartIssue? || e.Link?)
    ensures StillBarred(s, Step(s, e), j)
  {
    if e.i < |s.workers| { assert !Carries(s.workers[e.i], j); }
  }

  lemma {:induction false} RotationBarred(s: Sys, e: Event, j: Id)
    requires Barred(s, j) && e.Mint? && e.i < |s.workers| && s.workers[e.i].Rotating?
    ensures StillBarred(s, Step(s, e), j)
  {
    assert !Carries(s.workers[e.i], j);
  }

  lemma {:induction false} LoginBarred(s: Sys, e: Event, j: Id)
    requires Barred(s, j) && e.Mint? && (e.i < |s.workers| ==> !s.workers[e.i].Rotating?)
    ensures StillBarred(s, Step(s, e), j)
  {
  }

  lemma {:induction false} RevokeBarred(s: Sys, e: Event, j: Id)
    requires Barred(s, j) && (e.StartRevoke? || e.RevokeDelete?)
    ensures StillBarred(s, Step(s, e), j)
  {
    if e.i < |s.workers| { assert !Carries(s.workers[e.i], j); }
  }

  lemma {:induction false} WithdrawBarred(s: Sys, e: Event, j: Id)
    requires Barred(s, j) && (e.RevokeBlacklist? || e.RevokeUnlinks?)
    ensures StillBarred(s, Step(s, e), j)
  {
    if e.i < |s.workers| { assert !Carries(s.workers[e.i], j); }
  }

  lemma {:induction false} CloseReadBarred(s: Sys, e: Event, j: Id)
    requires Barred(s, j) && e.CloseRead?
    ensures StillBarred(s, Step(s, e), j)
  {
  }

  lemma {:induction false} CloseNextBarred(s: Sys, e: Event, j: Id)
    requires Barred(s, j) && e.CloseNext?
    ensures StillBarred(s, Step(s, e), j)
  {
    if e.i < |s.workers| { assert !Carries(s.workers[e.i], j); }
  }

  lemma {:induction false} DropAllowBarred(s: Sys, e: Event, j: Id)
    requires Barred(s, j) && e.DropAllow?
    ensures StillBarred(s, Step(s, e), j)
  {
  }

  lemma {:induction false} DropBlackBarred(s: Sys, e: Event, j: Id)
    requires Barred(s, j) && e.DropBlack? && e.jti != j
    ensures StillBarred(s, Step(s, e), j)
  {
  }

  lemma {:induction false} BarredStep(s: Sys, e: Event, j: Id)
    requires Barred(s, j) && e != DropBlack(j)
    ensures StillBarred(s, Step(s, e), j)
  {
    if e.StartRefresh? { StartBarred(s, e, j); }
    else if e.GetDel? { GetDelBarred(s, e, j); }
    else if e.Blacklist? || e.Unlink? || e.LoadUser? { RotateBarred(s, e, j); }
    else if e.StartIssue? || e.Link? { IssueBarred(s, e, j); }
    else if e.Mint? {
      if e.i < |s.workers| && s.workers[e.i].Rotating? { RotationBarred(s, e, j); } else { LoginBarred(s, e, j); }
    }
    else if e.StartRevoke? || e.RevokeDelete? { RevokeBarred(s, e, j); }
    else if e.RevokeBlacklist? || e.RevokeUnlinks? { WithdrawBarred(s, e, j); }
    else if e.CloseRead? { CloseReadBarred(s, e, j); }
    else if e.CloseNext? { CloseNextBarred(s, e, j); }
    else if e.DropAllow? { DropAllowBarred(s, e, j); }
    else if e.DropBlack? { DropBlackBarred(s, e, j); }
  }

  lemma CountStays(a: seq<Id>, b: seq<Id>, j: Id)
    requires a == b || (b != [] && b == a + [b[|b| - 1]] && b[|b| - 1] != j)
    ensures multiset(b)[j] == multiset(a)[j]
  {
  }

  /** A blacklisted token yields no pair in any continuation in which its entry lasts, unless
      a refresh was past the test of the blacklist before. */
  lemma {:induction false} BlacklistBars(s: Sys, es: seq<Event>, j: Id)
    requires Barred(s, j) && DropBlack(j) !in es
    ensures Barred(Run(s, es), j) && multiset(Run(s, es).succeeded)[j] == multiset(s.succeeded)[j]
  {
    if es != [] {
      var n := |es| - 1;
      assert es == es[..n] + [es[n]];
      BlacklistBars(s, es[..n], j);
      var m := Run(s, es[..n]);
      BarredStep(m, es[n], j);
      CountStays(m.succeeded, Step(m, es[n]).succeeded, j);
    }
  }
}
