/** A session revoke reads the session's jtis and then runs a plain pipeline. What it leaves
    behind, over every interleaving, in terms of what happened since the read. */
module SessionRevocation {
  import opened AuthTokens
  import opened Common
  import opened RefreshProtocol
  import opened RefreshTheorems

  // ------------------------------------------------------------------ invariant

  /** A record is allowed exactly if it was stored and has not been withdrawn. */
  ghost predicate Booked(s: Sys, j: Id) {
    && (j in s.allow <==> j in s.stored && j !in s.gone)
    && (j in s.allow ==> s.allow[j] == s.stored[j])
    && (j in s.stored ==> j in s.signed)
  }

  ghost predicate LinkOk(s: Sys, k: Key, j: Id) {
    j in s.linked && j in s.signed && KeyOf(s.signed[j]) == k
  }

  /** The m-th jti a pipeline works on was linked before; what has been deleted stays deleted. */
  ghost predicate ReadOk(s: Sys, w: Worker, m: nat)
    requires w.Closing? && m < |w.read|
  {
    && LinkOk(s, w.k, w.read[m])
    && (2 * m < w.at ==> w.read[m] !in s.reverse)
    && (2 * m + 1 < w.at ==> w.read[m] !in s.allow)
  }

  ghost predicate TaskOk(s: Sys, w: Worker) {
    && (w.Linking? ==> Authentic(s, w.t) && w.t.jti !in s.linked)
    && (w.Closing? ==> w.at <= 2 * |w.read| && forall m: nat :: m < |w.read| ==> ReadOk(s, w, m))
  }

  ghost predicate LinksApart(v: Worker, w: Worker) {
    v.Linking? && w.Linking? ==> v.t.jti != w.t.jti
  }

  ghost predicate LinkInv(s: Sys) {
    && (forall j: Id :: Booked(s, j))
    && (forall l :: l in s.links ==> LinkOk(s, l.0, l.1))
    && (forall j :: j in s.reverse ==> LinkOk(s, s.reverse[j], j))
    && (forall j :: j in s.linked ==> j in s.signed)
    && (forall i :: 0 <= i < |s.workers| ==> TaskOk(s, s.workers[i]))
    && (forall i, h :: 0 <= i < h < |s.workers| ==> LinksApart(s.workers[i], s.workers[h]))
  }

  // ---------------------------------------------------- steps that only take away

  /** Nothing is signed, stored or linked; keys only go. */
  ghost predicate Trims(s: Sys, s': Sys) {
    && s'.signed == s.signed && s'.stored == s.stored && s'.linked == s.linked
    && s'.allow == s.allow - (s.allow.Keys - s'.allow.Keys) && s'.gone == s.gone + (s.allow.Keys - s'.allow.Keys)
    && s'.links <= s.links
    && (forall j :: j in s'.reverse ==> j in s.reverse && s'.reverse[j] == s.reverse[j])
  }

  ghost predicate KeepsTask(w: Worker, w': Worker) {
    w'.Linking? || w'.Closing? ==> w' == w
  }

  ghost predicate TasksStay(s: Sys, s': Sys) {
    |s'.workers| == |s.workers| && forall i :: 0 <= i < |s.workers| ==> KeepsTask(s.workers[i], s'.workers[i])
  }

  lemma TrimmedTask(s: Sys, s': Sys, w: Worker)
    requires Trims(s, s') && TaskOk(s, w)
    ensures TaskOk(s', w)
  {
    if w.Closing? {
      forall m: nat | m < |w.read| ensures ReadOk(s', w, m) { assert ReadOk(s, w, m); }
    }
  }

  lemma TrimKeeps(s: Sys, s': Sys)
    requires LinkInv(s) && Trims(s, s') && |s'.workers| == |s.workers|
    requires forall i :: 0 <= i < |s.workers| ==>
               TaskOk(s', s'.workers[i]) && (s'.workers[i].Linking? ==> s'.workers[i] == s.workers[i])
    ensures LinkInv(s')
  {
    forall j: Id ensures Booked(s', j) { assert Booked(s, j); }
    forall l | l in s'.links ensures LinkOk(s', l.0, l.1) { assert LinkOk(s, l.0, l.1); }
    forall j | j in s'.reverse ensures LinkOk(s', s'.reverse[j], j) { assert LinkOk(s, s.reverse[j], j); }
    forall i, h | 0 <= i < h < |s'.workers| ensures LinksApart(s'.workers[i], s'.workers[h]) {
      assert LinksApart(s.workers[i], s.workers[h]);
    }
  }

  lemma TasksStayKeeps(s: Sys, s': Sys)
    requires LinkInv(s) && Trims(s, s') && TasksStay(s, s')
    ensures LinkInv(s')
  {
    forall i | 0 <= i < |s.workers| ensures TaskOk(s', s'.workers[i]) {
      assert TaskOk(s, s.workers[i]) && KeepsTask(s.workers[i], s'.workers[i]);
      TrimmedTask(s, s', s.workers[i]);
    }
    TrimKeeps(s, s');
  }

  lemma {:induction false} StartRefreshTrims(s: Sys, e: Event)
    requires e.StartRefresh?
    ensures Trims(s, Step(s, e)) && TasksStay(s, Step(s, e))
  {
  }

  lemma {:induction false} GetDelTrims(s: Sys, e: Event)
    requires e.GetDel?
    ensures Trims(s, Step(s, e)) && TasksStay(s, Step(s, e))
  {
  }

  lemma {:induction false} BlacklistTrims(s: Sys, e: Event)
    requires e.Blacklist?
    ensures Trims(s, Step(s, e)) && TasksStay(s, Step(s, e))
  {
  }

  lemma {:induction false} UnlinkTrims(s: Sys, e: Event)
    requires e.Unlink?
    ensures Trims(s, Step(s, e)) && TasksStay(s, Step(s, e))
  {
  }

  lemma {:induction false} LoadUserTrims(s: Sys, e: Event)
    requires e.LoadUser?
    ensures Trims(s, Step(s, e)) && TasksStay(s, Step(s, e))
  {
  }

  lemma {:induction false} StartIssueTrims(s: Sys, e: Event)
    requires e.StartIssue?
    ensures Trims(s, Step(s, e)) && TasksStay(s, Step(s, e))
  {
  }

  lemma {:induction false} StartRevokeTrims(s: Sys, e: Event)
    requires e.StartRevoke?
    ensures Trims(s, Step(s, e)) && TasksStay(s, Step(s, e))
  {
  }

  lemma {:induction false} RevokeDeleteTrims(s: Sys, e: Event)
    requires e.RevokeDelete?
    ensures Trims(s, Step(s, e)) && TasksStay(s, Step(s, e))
  {
  }

  lemma {:induction false} RevokeBlacklistTrims(s: Sys, e: Event)
    requires e.RevokeBlacklist?
    ensures Trims(s, Step(s, e)) && TasksStay(s, Step(s, e))
  {
  }

  lemma {:induction false} RevokeUnlinksTrims(s: Sys, e: Event)
    requires e.RevokeUnlinks?
    ensures Trims(s, Step(s, e)) && TasksStay(s, Step(s, e))
  {
  }

  lemma {:induction false} DropAllowTrims(s: Sys, e: Event)
    requires e.DropAllow?
    ensures Trims(s, Step(s, e)) && TasksStay(s, Step(s, e))
  {
  }

  lemma {:induction false} DropBlackTrims(s: Sys, e: Event)
    requires e.DropBlack?
    ensures Trims(s, Step(s, e)) && TasksStay(s, Step(s, e))
  {
  }

  lemma {:induction false} DropReverseTrims(s: Sys, e: Event)
    requires e.DropReverse?
    ensures Trims(s, Step(s, e)) && TasksStay(s, Step(s, e))
  {
  }

  lemma {:induction false} OthersTrim(s: Sys, e: Event)
    requires !e.Mint? && !e.Link? && !e.CloseRead? && !e.CloseNext?
    ensures Trims(s, Step(s, e)) && TasksStay(s, Step(s, e))
  {
    match e
    case StartRefresh(_, _, _) => StartRefreshTrims(s, e);
    case GetDel(_) => GetDelTrims(s, e);
    case Blacklist(_, _) => BlacklistTrims(s, e);
    case Unlink(_, _) => UnlinkTrims(s, e);
    case LoadUser(_, _) => LoadUserTrims(s, e);
    case StartIssue(_, _, _) => StartIssueTrims(s, e);
    case StartRevoke(_, _) => StartRevokeTrims(s, e);
    case RevokeDelete(_, _) => RevokeDeleteTrims(s, e);
    case RevokeBlacklist(_, _) => RevokeBlacklistTrims(s, e);
    case RevokeUnlinks(_, _) => RevokeUnlinksTrims(s, e);
    case DropAllow(_) => DropAllowTrims(s, e);
    case DropBlack(_) => DropBlackTrims(s, e);
    case DropReverse(_) => DropReverseTrims(s, e);
  }

  // ------------------------------------------------------- the session revoke

  /** A step of worker i that takes away, and leaves its own task in order. */
  lemma OneTaskKeeps(s: Sys, s': Sys, i: nat)
    requires LinkInv(s) && Trims(s, s') && i < |s.workers| && |s'.workers| == |s.workers|
    requires s'.workers == s.workers[i := s'.workers[i]] && TaskOk(s', s'.workers[i]) && !s'.workers[i].Linking?
    ensures LinkInv(s')
  {
    forall h | 0 <= h < |s.workers| ensures TaskOk(s', s'.workers[h]) {
      if h != i {
        assert TaskOk(s, s.workers[h]);
        TrimmedTask(s, s', s.workers[h]);
      }
    }
    TrimKeeps(s, s');
  }

  lemma {:induction false} CloseReadKeepsLinks(s: Sys, e: Event)
    requires LinkInv(s) && e.CloseRead?
    ensures LinkInv(Step(s, e))
  {
    var s' := Step(s, e);
    if s' != s {
      var w := Closing(e.k, e.read, 0);
      assert s' == Set(s, e.i, w);
      forall m: nat | m < |e.read| ensures ReadOk(s', w, m) { assert (e.k, e.read[m]) in s.links; }
      OneTaskKeeps(s, s', e.i);
    }
  }

  /** One command of the pipeline on the jti at hand. */
  lemma {:induction false} CloseTokenTrims(s: Sys, i: nat)
    requires i < |s.workers| && s.workers[i].Closing? && s.workers[i].at < 2 * |s.workers[i].read|
    ensures var s', w := ClosePipeline(s, i), s.workers[i];
            && Trims(s, s') && s'.workers == s.workers[i := w.(at := w.at + 1)]
            && (w.at % 2 == 0 ==> w.read[w.at / 2] !in s'.reverse)
            && (w.at % 2 == 1 ==> w.read[w.at / 2] !in s'.allow)
  {
  }

  lemma ReadAdvances(s: Sys, s': Sys, w: Worker, m: nat)
    requires w.Closing? && w.at < 2 * |w.read| && m < |w.read| && ReadOk(s, w, m) && Trims(s, s')
    requires w.at % 2 == 0 ==> w.read[w.at / 2] !in s'.reverse
    requires w.at % 2 == 1 ==> w.read[w.at / 2] !in s'.allow
    ensures ReadOk(s', w.(at := w.at + 1), m)
  {
    assert 2 * m == w.at ==> m == w.at / 2 && w.at % 2 == 0;
    assert 2 * m + 1 == w.at ==> m == w.at / 2 && w.at % 2 == 1;
  }

  lemma {:induction false} CloseTokenKeepsLinks(s: Sys, i: nat)
    requires LinkInv(s) && i < |s.workers| && s.workers[i].Closing? && s.workers[i].at < 2 * |s.workers[i].read|
    ensures LinkInv(ClosePipeline(s, i))
  {
    var s', w := ClosePipeline(s, i), s.workers[i];
    var w' := w.(at := w.at + 1);
    CloseTokenTrims(s, i);
    assert TaskOk(s, w);
    forall m: nat | m < |w.read| ensures ReadOk(s', w', m) { ReadAdvances(s, s', w, m); }
    OneTaskKeeps(s, s', i);
  }

  lemma {:induction false} CloseSetTrims(s: Sys, i: nat)
    requires i < |s.workers| && s.workers[i].Closing? && s.workers[i].at >= 2 * |s.workers[i].read|
    ensures var s', w := ClosePipeline(s, i), s.workers[i];
            && Trims(s, s') && s'.workers == s.workers[i := Idle]
            && s'.allow == s.allow && s'.reverse == s.reverse && s'.links == set l | l in s.links && l.0 != w.k
  {
  }

  lemma {:induction false} CloseNextKeepsLinks(s: Sys, e: Event)
    requires LinkInv(s) && e.CloseNext?
    ensures LinkInv(Step(s, e))
  {
    if e.i < |s.workers| && s.workers[e.i].Closing? {
      if s.workers[e.i].at < 2 * |s.workers[e.i].read| {
        CloseTokenKeepsLinks(s, e.i);
      } else {
        CloseSetTrims(s, e.i);
        OneTaskKeeps(s, ClosePipeline(s, e.i), e.i);
      }
    }
  }

  // ------------------------------------------------------------ signing and linking

  ghost predicate Stores(s: Sys, s': Sys, jti: Id) {
    || (s'.allow == s.allow && s'.stored == s.stored)
    || (jti in s'.stored && s'.allow == s.allow[jti := s'.stored[jti]] && s'.stored == s.stored[jti := s'.stored[jti]])
  }

  /** A fresh token signed by worker i, its record stored or not. */
  ghost predicate Signs(s: Sys, s': Sys, i: nat, jti: Id) {
    && i < |s.workers| && |s'.workers| == |s.workers| && s'.workers == s.workers[i := s'.workers[i]]
    && jti !in s.signed && jti in s'.signed && s'.signed == s.signed[jti := s'.signed[jti]]
    && s'.linked == s.linked && s'.links == s.links && s'.reverse == s.reverse && s'.gone == s.gone
    && (s'.workers[i].Idle? || s'.workers[i] == Linking(s'.signed[jti])) && s'.signed[jti].jti == jti
    && Stores(s, s', jti)
  }

  lemma {:induction false} PairSigns(s: Sys, i: nat, jti: Id, user: Id, session: Option<Id>, ok: bool)
    requires i < |s.workers| && jti !in s.signed
    ensures Signs(s, MintPair(s, i, jti, user, session, ok), i, jti)
  {
  }

  lemma {:induction false} MintSigns(s: Sys, e: Event)
    requires e.Mint? && Step(s, e) != s
    ensures Signs(s, Step(s, e), e.i, e.jti)
  {
    var w := s.workers[e.i];
    if w.Rotating? {
      PairSigns(s, e.i, e.jti, w.t.sub, Some(w.sid), e.ok);
    } else {
      PairSigns(s, e.i, e.jti, w.user, w.session, e.ok);
    }
  }

  lemma SignedTask(s: Sys, s': Sys, i: nat, jti: Id, w: Worker)
    requires Signs(s, s', i, jti) && TaskOk(s, w) && forall j :: j in s.linked ==> j in s.signed
    ensures TaskOk(s', w)
  {
    if w.Closing? {
      forall m: nat | m < |w.read| ensures ReadOk(s', w, m) { assert ReadOk(s, w, m); }
    }
  }

  lemma SignsBooked(s: Sys, s': Sys, i: nat, jti: Id, j: Id)
    requires LinkInv(s) && Signs(s, s', i, jti) && jti !in s.gone
    ensures Booked(s', j)
  {
    assert Booked(s, j) && Booked(s, jti);
  }

  /** Only what was signed has been withdrawn. */
  ghost predicate GoneKnown(s: Sys) {
    forall j :: j in s.gone ==> j in s.signed
  }

  lemma SignsKeeps(s: Sys, s': Sys, i: nat, jti: Id)
    requires LinkInv(s) && GoneKnown(s) && Signs(s, s', i, jti)
    ensures LinkInv(s')
  {
    forall j: Id ensures Booked(s', j) { SignsBooked(s, s', i, jti, j); }
    forall l | l in s'.links ensures LinkOk(s', l.0, l.1) { assert LinkOk(s, l.0, l.1); }
    forall j | j in s'.reverse ensures LinkOk(s', s'.reverse[j], j) { assert LinkOk(s, s.reverse[j], j); }
    forall h | 0 <= h < |s'.workers| ensures TaskOk(s', s'.workers[h]) {
      if h != i {
        assert TaskOk(s, s.workers[h]);
        SignedTask(s, s', i, jti, s.workers[h]);
      }
    }
    forall h, g | 0 <= h < g < |s'.workers| ensures LinksApart(s'.workers[h], s'.workers[g]) {
      assert LinksApart(s.workers[h], s.workers[g]) && TaskOk(s, s.workers[h]) && TaskOk(s, s.workers[g]);
    }
  }

  /** The link MULTI of a pair under construction. */
  ghost predicate Links(s: Sys, s': Sys, i: nat, t: Token) {
    && i < |s.workers| && s.workers[i] == Linking(t) && s'.workers == s.workers[i := Idle]
    && s'.signed == s.signed && s'.stored == s.stored && s'.allow == s.allow && s'.gone == s.gone
    && s'.linked == s.linked + {t.jti} && s'.links == s.links + {(KeyOf(t), t.jti)}
    && s'.reverse == s.reverse[t.jti := KeyOf(t)]
  }

  lemma {:induction false} LinkLinks(s: Sys, e: Event)
    requires e.Link? && e.i < |s.workers| && s.workers[e.i].Linking?
    ensures if e.ok then Links(s, Step(s, e), e.i, s.workers[e.i].t)
            else Trims(s, Step(s, e)) && Step(s, e).workers == s.workers[e.i := Idle]
  {
  }

  lemma LinkedTask(s: Sys, s': Sys, i: nat, t: Token, h: nat)
    requires LinkInv(s) && Links(s, s', i, t) && h < |s.workers| && h != i
    ensures TaskOk(s', s.workers[h])
  {
    var w := s.workers[h];
    assert TaskOk(s, w) && TaskOk(s, s.workers[i]);
    assert if h < i then LinksApart(w, s.workers[i]) else LinksApart(s.workers[i], w);
    if w.Closing? {
      forall m: nat | m < |w.read| ensures ReadOk(s', w, m) { assert ReadOk(s, w, m); }
    }
  }

  lemma LinksKeeps(s: Sys, s': Sys, i: nat, t: Token)
    requires LinkInv(s) && Links(s, s', i, t)
    ensures LinkInv(s')
  {
    assert TaskOk(s, s.workers[i]);
    forall j: Id ensures Booked(s', j) { assert Booked(s, j); }
    forall l | l in s'.links ensures LinkOk(s', l.0, l.1) { assert l in s.links ==> LinkOk(s, l.0, l.1); }
    forall j | j in s'.reverse ensures LinkOk(s', s'.reverse[j], j) {
      assert j in s.reverse ==> LinkOk(s, s.reverse[j], j);
    }
    forall h | 0 <= h < |s'.workers| ensures TaskOk(s', s'.workers[h]) {
      if h != i { LinkedTask(s, s', i, t, h); }
    }
    forall h, g | 0 <= h < g < |s'.workers| ensures LinksApart(s'.workers[h], s'.workers[g]) {
      assert LinksApart(s.workers[h], s.workers[g]);
    }
  }

  ghost predicate Full(s: Sys) {
    LinkInv(s) && GoneKnown(s)
  }

  lemma {:induction false} GoneKeeps(s: Sys, e: Event)
    requires Full(s)
    ensures GoneKnown(Step(s, e))
  {
    if e.Mint? {
      if Step(s, e) != s { MintSigns(s, e); }
    } else if e.Link? {
      if e.i < |s.workers| && s.workers[e.i].Linking? { LinkLinks(s, e); }
    } else if e.CloseNext? {
      if e.i < |s.workers| && s.workers[e.i].Closing? {
        if s.workers[e.i].at < 2 * |s.workers[e.i].read| { CloseTokenTrims(s, e.i); } else { CloseSetTrims(s, e.i); }
      }
    } else if e.CloseRead? {
    } else {
      OthersTrim(s, e);
    }
    forall j | j in s.allow ensures j in s.signed { assert Booked(s, j); }
  }

  lemma {:induction false} LinkStepKeeps(s: Sys, e: Event)
    requires Full(s)
    ensures Full(Step(s, e))
  {
    GoneKeeps(s, e);
    if e.Mint? {
      if Step(s, e) != s {
        MintSigns(s, e);
        SignsKeeps(s, Step(s, e), e.i, e.jti);
      }
    } else if e.Link? {
      if e.i < |s.workers| && s.workers[e.i].Linking? {
        LinkLinks(s, e);
        if e.ok { LinksKeeps(s, Step(s, e), e.i, s.workers[e.i].t); } else { OneTaskKeeps(s, Step(s, e), e.i); }
      }
    } else if e.CloseRead? {
      CloseReadKeepsLinks(s, e);
    } else if e.CloseNext? {
      CloseNextKeepsLinks(s, e);
    } else {
      OthersTrim(s, e);
      TasksStayKeeps(s, Step(s, e));
    }
  }

  lemma InitialFull(s: Sys)
    requires Initial(s)
    ensures Full(s)
  {
  }

  lemma {:induction false} LinkRunKeeps(s: Sys, es: seq<Event>)
    requires Full(s)
    ensures Full(Run(s, es))
  {
    if es != [] {
      LinkRunKeeps(s, es[..|es| - 1]);
      LinkStepKeeps(Run(s, es[..|es| - 1]), es[|es| - 1]);
    }
  }

  // ------------------------------------------------ what a session revoke leaves

  /** An allow record that names the session. */
  predicate Standing(s: Sys, k: Key, j: Id) {
    j in s.allow && Names(s.allow[j], k)
  }

  /** What happens between two points of a run only adds to these. */
  ghost predicate Grown(s: Sys, t: Sys) {
    && s.gone <= t.gone && s.linked <= t.linked
    && (forall j :: j in s.stored ==> j in t.stored && t.stored[j] == s.stored[j])
  }

  lemma {:induction false} StepGrows(s: Sys, e: Event)
    requires Full(s)
    ensures Grown(s, Step(s, e))
  {
    if e.Mint? {
      if Step(s, e) != s {
        MintSigns(s, e);
        assert Booked(s, e.jti);
      }
    } else if e.Link? {
      if e.i < |s.workers| && s.workers[e.i].Linking? { LinkLinks(s, e); }
    } else if e.CloseNext? {
      if e.i < |s.workers| && s.workers[e.i].Closing? {
        if s.workers[e.i].at < 2 * |s.workers[e.i].read| { CloseTokenTrims(s, e.i); } else { CloseSetTrims(s, e.i); }
      }
    } else if e.CloseRead? {
    } else {
      OthersTrim(s, e);
    }
  }

  lemma {:induction false} RunGrows(s: Sys, es: seq<Event>)
    requires Full(s)
    ensures Grown(s, Run(s, es))
  {
    if es != [] {
      var p := es[..|es| - 1];
      RunGrows(s, p);
      LinkRunKeeps(s, p);
      StepGrows(Run(s, p), es[|es| - 1]);
    }
  }

  /** Worker i has run its pipeline up to the DEL of the jti set. */
  ghost predicate Through(s: Sys, i: nat, k: Key, read: seq<Id>) {
    i < |s.workers| && s.workers[i] == Closing(k, read, 2 * |read|)
  }

  /** The jtis a pipeline has worked through are neither allowed nor mapped. */
  lemma ReadIsGone(s: Sys, i: nat, k: Key, read: seq<Id>, j: Id)
    requires LinkInv(s) && Through(s, i, k, read) && j in read
    ensures j !in s.allow && j !in s.reverse
  {
    var m :| 0 <= m < |read| && read[m] == j;
    assert TaskOk(s, s.workers[i]) && ReadOk(s, s.workers[i], m);
  }

  /** What a read at s misses of session k: tokens not linked by then, and tokens stored since. */
  predicate Missed(s: Sys, t: Sys, k: Key, j: Id) {
    || (Standing(s, k, j) && (k, j) !in s.links)
    || (j !in s.stored && j in t.stored && Names(t.stored[j], k))
  }

  /** A revoke of session k read its set at s and is through at t. A record that names the session
      stands at t if and only if the read missed it and it has not been withdrawn since. */
  lemma {:induction false} RevokeLeavesIff(s: Sys, es: seq<Event>, i: nat, k: Key, read: seq<Id>, j: Id)
    requires Full(s) && Members(s.links, k, read) && Through(Run(s, es), i, k, read)
    ensures var t := Run(s, es); Standing(t, k, j) <==> Missed(s, t, k, j) && j !in t.gone
  {
    var t := Run(s, es);
    LinkRunKeeps(s, es);
    RunGrows(s, es);
    assert Booked(s, j) && Booked(t, j);
    if j in read { ReadIsGone(t, i, k, read, j); }
  }

  /** With every link in place at the read, it leaves a record of the session exactly if a login
      or a rotation stored one since, and that one still stands. */
  lemma {:induction false} RevokeIncompleteIff(s: Sys, es: seq<Event>, i: nat, k: Key, read: seq<Id>)
    requires Full(s) && Members(s.links, k, read) && Through(Run(s, es), i, k, read)
    requires forall j: Id :: Standing(s, k, j) ==> (k, j) in s.links
    ensures var t := Run(s, es);
            (exists j: Id :: Standing(t, k, j))
            <==> exists j: Id :: j !in s.stored && j in t.stored && Names(t.stored[j], k) && j !in t.gone
  {
    var t := Run(s, es);
    if j: Id :| Standing(t, k, j) {
      RevokeLeavesIff(s, es, i, k, read, j);
      assert j !in s.stored && j in t.stored && Names(t.stored[j], k) && j !in t.gone;
    }
    if j: Id :| j !in s.stored && j in t.stored && Names(t.stored[j], k) && j !in t.gone {
      RevokeLeavesIff(s, es, i, k, read, j);
      assert Standing(t, k, j);
    }
  }

  // ----------------------------------------------------- the two relations

  /** Every reverse entry has its jti in the set of its session. */
  ghost predicate Paired(s: Sys) {
    forall j :: j in s.reverse ==> (s.reverse[j], j) in s.links
  }

  /** A pipeline deletes the set of a session with a link made since its read. */
  ghost predicate Orphans(s: Sys, e: Event) {
    && e.CloseNext? && e.i < |s.workers| && s.workers[e.i].Closing? && s.workers[e.i].at >= 2 * |s.workers[e.i].read|
    && exists j :: j in s.reverse && s.reverse[j] == s.workers[e.i].k && j !in s.workers[e.i].read
  }

  lemma {:induction false} UnlinkPaired(s: Sys, e: Event)
    requires LinkInv(s) && Paired(s) && (e.Unlink? || e.RevokeUnlinks?)
    ensures Paired(Step(s, e))
  {
    var s' := Step(s, e);
    forall j | j in s'.reverse ensures (s'.reverse[j], j) in s'.links { assert (s.reverse[j], j) in s.links; }
  }

  ghost predicate KeepsPairs(s: Sys, s': Sys) {
    s'.links == s.links && forall j :: j in s'.reverse ==> j in s.reverse && s'.reverse[j] == s.reverse[j]
  }

  lemma {:induction false} RefreshKeepsPairs(s: Sys, e: Event)
    requires e.StartRefresh? || e.GetDel? || e.Blacklist? || e.LoadUser? || e.StartIssue? || e.Mint?
    ensures KeepsPairs(s, Step(s, e))
  {
  }

  lemma {:induction false} RevokeKeepsPairs(s: Sys, e: Event)
    requires || e.StartRevoke? || e.RevokeDelete? || e.RevokeBlacklist? || e.CloseRead?
             || e.DropAllow? || e.DropBlack? || e.DropReverse?
    ensures KeepsPairs(s, Step(s, e))
  {
  }

  lemma {:induction false} CloseSetPairedIff(s: Sys, e: Event)
    requires LinkInv(s) && Paired(s) && e.CloseNext? && e.i < |s.workers| && s.workers[e.i].Closing?
    requires s.workers[e.i].at >= 2 * |s.workers[e.i].read|
    ensures Paired(Step(s, e)) <==> !Orphans(s, e)
  {
    var s', w := ClosePipeline(s, e.i), s.workers[e.i];
    CloseSetTrims(s, e.i);
    assert TaskOk(s, w);
    forall j | j in s.reverse && j in w.read ensures false {
      assert w == Closing(w.k, w.read, 2 * |w.read|);
      ReadIsGone(s, e.i, w.k, w.read, j);
    }
    assert Paired(s') <==> forall j :: j in s.reverse ==> s.reverse[j] != w.k;
  }

  lemma {:induction false} CloseTokenPairs(s: Sys, i: nat)
    requires i < |s.workers| && s.workers[i].Closing? && s.workers[i].at < 2 * |s.workers[i].read|
    ensures KeepsPairs(s, ClosePipeline(s, i))
  {
  }

  lemma {:induction false} LinkPaired(s: Sys, e: Event)
    requires Paired(s) && e.Link? && e.i < |s.workers| && s.workers[e.i].Linking?
    ensures Paired(Step(s, e))
  {
    LinkLinks(s, e);
  }

  /** A step breaks the pairing if and only if it deletes a set that was linked to since the read. */
  lemma {:induction false} PairedStepIff(s: Sys, e: Event)
    requires Full(s) && Paired(s)
    ensures Paired(Step(s, e)) <==> !Orphans(s, e)
  {
    if e.CloseNext? {
      if e.i < |s.workers| && s.workers[e.i].Closing? {
        if s.workers[e.i].at < 2 * |s.workers[e.i].read| { CloseTokenPairs(s, e.i); } else { CloseSetPairedIff(s, e); }
      }
    } else if e.Link? {
      if e.i < |s.workers| && s.workers[e.i].Linking? { LinkPaired(s, e); }
    } else if e.Unlink? || e.RevokeUnlinks? {
      UnlinkPaired(s, e);
    } else if e.StartRefresh? || e.GetDel? || e.Blacklist? || e.LoadUser? || e.StartIssue? || e.Mint? {
      RefreshKeepsPairs(s, e);
    } else {
      RevokeKeepsPairs(s, e);
    }
  }

  ghost predicate PairedThroughout(s: Sys, es: seq<Event>) {
    Paired(Run(s, es)) && (es != [] ==> PairedThroughout(s, es[..|es| - 1]))
  }

  ghost predicate NeverOrphans(s: Sys, es: seq<Event>) {
    es == [] || (NeverOrphans(s, es[..|es| - 1]) && !Orphans(Run(s, es[..|es| - 1]), es[|es| - 1]))
  }

  /** Over runs: every reverse entry has its jti in its session's set if and only if no session
      revoke deletes a set that was linked to since its read. */
  lemma {:induction false} PairedIff(s: Sys, es: seq<Event>)
    requires Initial(s)
    ensures PairedThroughout(s, es) <==> NeverOrphans(s, es)
  {
    if es != [] {
      var p, e := es[..|es| - 1], es[|es| - 1];
      PairedIff(s, p);
      InitialFull(s);
      LinkRunKeeps(s, p);
      if Paired(Run(s, p)) { PairedStepIff(Run(s, p), e); }
    }
  }
}
