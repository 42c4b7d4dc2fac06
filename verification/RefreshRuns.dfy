/** Reachable runs in which the lists overlap, a session revoke leaves a token behind, and a
    refresh in flight outlives one. */
module RefreshRuns {
  import opened AuthTokens
  import opened Common
  import opened RefreshProtocol
  import opened RefreshTheorems
  import opened SessionRevocation

  lemma {:induction false} LoginPair(s: Sys, i: nat, k: Key, jti: Id)
    requires i < |s.workers| && s.workers[i] == Issuing(k.0, Some(k.1)) && jti !in s.signed
    ensures var t, token := Step(s, Mint(i, jti, true)), Token(jti, k.0, k.1);
            && t.workers == s.workers[i := Linking(token)] && t.links == s.links && t.black == s.black
            && t.allow == s.allow[jti := AllowRecord(k.0, Some(k.1))] && t.signed == s.signed[jti := token]
  {
  }

  /** A login for session k by worker i: its record stands and is linked. */
  lemma {:induction false} Login(s0: Sys, es0: seq<Event>, s: Sys, i: nat, k: Key, jti: Id)
      returns (es: seq<Event>, t: Sys)
    requires s == Run(s0, es0) && i < |s.workers| && s.workers[i] == Idle && jti !in s.signed
    ensures t == Run(s0, es) && Standing(t, k, jti) && jti in t.reverse && t.reverse[jti] == k
    ensures t.workers == s.workers && t.links == s.links + {(k, jti)} && t.black == s.black
    ensures t.allow == s.allow[jti := AllowRecord(k.0, Some(k.1))] && t.signed == s.signed[jti := Token(jti, k.0, k.1)]
  {
    es, t := Then(s0, es0, s, StartIssue(i, k.0, Some(k.1)));
    LoginPair(t, i, k, jti);
    es, t := Then(s0, es, t, Mint(i, jti, true));
    LinkLinks(t, Link(i, true));
    es, t := Then(s0, es, t, Link(i, true));
    assert t.workers == s.workers;
  }

  lemma {:induction false} ReadStep(s: Sys, i: nat, k: Key, read: seq<Id>)
    requires i < |s.workers| && s.workers[i] == Idle && Members(s.links, k, read)
    ensures Step(s, CloseRead(i, k, read)) == Set(s, i, Closing(k, read, 0))
  {
  }

  /** A revoke reads the set of a session, a login for it links its token, the pipeline runs: the
      token's record still names the session, and its reverse entry has lost its partner. */
  lemma {:induction false} StaleRevoke(s: Sys, k: Key) returns (es: seq<Event>)
    requires Initial(s) && |s.workers| == 2
    ensures Standing(Run(s, es), k, 7) && !Paired(Run(s, es))
  {
    ReadStep(s, 1, k, []);
    var t;
    es, t := Then(s, [], s, CloseRead(1, k, []));
    es, t := Login(s, es, t, 0, k, 7);
    assert t.workers[1] == Closing(k, [], 0);
    CloseSetTrims(t, 1);
    es, t := Then(s, es, t, CloseNext(1));
    assert (t.reverse[7], 7) !in t.links;
  }

  /** The two DELs of a jti in the pipeline, when nothing is allowed. */
  lemma {:induction false} CloseToken(s: Sys, i: nat, k: Key, jti: Id, at: nat)
    requires i < |s.workers| && s.workers[i] == Closing(k, [jti], at) && at < 2 && s.allow == map[]
    ensures var t := Step(s, CloseNext(i));
            t.workers == s.workers[i := Closing(k, [jti], at + 1)] && t.links == s.links && t.allow == map[]
  {
    CloseTokenTrims(s, i);
  }

  lemma {:induction false} CloseLast(s: Sys, i: nat, k: Key, jti: Id)
    requires i < |s.workers| && s.workers[i] == Closing(k, [jti], 2) && s.allow == map[] && s.links == {(k, jti)}
    ensures var t := Step(s, CloseNext(i)); t.workers == s.workers[i := Idle] && t.links == {} && t.allow == map[]
  {
    CloseSetTrims(s, i);
  }

  /** A whole session revoke by worker i, of a set with one jti. */
  lemma {:induction false} RevokeOne(s0: Sys, es0: seq<Event>, s: Sys, i: nat, k: Key, jti: Id)
      returns (es: seq<Event>, t: Sys)
    requires s == Run(s0, es0) && i < |s.workers| && s.workers[i] == Idle && s.links == {(k, jti)} && s.allow == map[]
    ensures t == Run(s0, es) && t.workers == s.workers && t.links == {} && t.allow == map[]
  {
    ReadStep(s, i, k, [jti]);
    es, t := Then(s0, es0, s, CloseRead(i, k, [jti]));
    CloseToken(t, i, k, jti, 0);
    es, t := Then(s0, es, t, CloseNext(i));
    CloseToken(t, i, k, jti, 1);
    es, t := Then(s0, es, t, CloseNext(i));
    CloseLast(t, i, k, jti);
    es, t := Then(s0, es, t, CloseNext(i));
    assert t.workers == s.workers;
  }

  lemma {:induction false} RefreshTakes(s: Sys, i: nat, t: Token)
    requires i < |s.workers| && s.workers[i] == Verified(t) && s.allow == map[t.jti := AllowRecord(t.sub, Some(t.sid))]
    ensures var s' := Step(s, GetDel(i));
            s'.allow == map[] && s'.workers == s.workers[i := Accepted(t, t.sid)] && s'.links == s.links
  {
  }

  /** A login, and a refresh of its token up to the GETDEL. */
  lemma {:induction false} RefreshUnderWay(s: Sys, k: Key) returns (es: seq<Event>, t: Sys)
    requires Initial(s) && |s.workers| == 2
    ensures t == Run(s, es) && t.workers == [Accepted(Token(7, k.0, k.1), k.1), Idle]
    ensures t.links == {(k, 7)} && t.allow == map[]
  {
    var token := Token(7, k.0, k.1);
    es, t := Login(s, [], s, 0, k, 7);
    es, t := Then(s, es, t, StartRefresh(0, token, true));
    RefreshTakes(t, 0, token);
    es, t := Then(s, es, t, GetDel(0));
  }

  /** A refresh in flight outlives a session revoke that misses nothing: after the whole pipeline
      the session has no live token and no link, and the rotation then stores a token again. */
  lemma {:induction false} RefreshOutlivesRevoke(s: Sys, k: Key) returns (pre: seq<Event>, es: seq<Event>)
    requires Initial(s) && |s.workers| == 2
    ensures var t := Run(s, pre);
            && Live(t, k.1) == {} && t.links == {} && |t.workers| == 2 && t.workers[1] == Idle
            && NoLogin(t, es, k.1) && Live(Run(t, es), k.1) != {}
  {
    var t;
    pre, t := RefreshUnderWay(s, k);
    pre, t := RevokeOne(s, pre, t, 1, k, 7);
    FlyingUpdate(t.workers, 0, Idle, k.1);
    es := FlyingRevives(t, k.1);
  }

  lemma {:induction false} RevokeWithFailedDel(s: Sys, i: nat, t: Token)
    requires i < |s.workers| && s.workers[i] == RevokeDel(t) && t.jti in s.allow
    ensures var u := Step(s, RevokeDelete(i, false)); var v := Step(u, RevokeBlacklist(i, true));
            u.workers == s.workers[i := RevokeBlack(t)] && t.jti in v.allow && t.jti in v.black
  {
  }

  /** A token revoke whose DEL fails blacklists a token that stays allowed. */
  lemma {:induction false} FailedDelLeavesBoth(s: Sys, k: Key) returns (es: seq<Event>)
    requires Initial(s) && |s.workers| == 1
    ensures 7 in Run(s, es).allow && 7 in Run(s, es).black && !Disjoint(Run(s, es))
  {
    var t, token := s, Token(7, k.0, k.1);
    es, t := Login(s, [], s, 0, k, 7);
    es, t := Then(s, es, t, StartRevoke(0, token));
    RevokeWithFailedDel(t, 0, token);
    es, t := Then(s, es, t, RevokeDelete(0, false));
    es, t := Then(s, es, t, RevokeBlacklist(0, true));
  }

  /** GETDEL, blacklisting and unlink of a token in good standing. */
  lemma {:induction false} LoneConsume(s: Sys, i: nat, t: Token) returns (es: seq<Event>, u: Sys)
    requires i < |s.workers| && s.workers[i] == Idle && t.jti in s.signed && s.signed[t.jti] == t
    requires t.jti !in s.black && t.jti in s.allow && s.allow[t.jti] == AllowRecord(t.sub, Some(t.sid))
    ensures u == Run(s, es) && u.workers == s.workers[i := Rotating(t, t.sid)]
    ensures u.signed == s.signed && u.succeeded == s.succeeded
    ensures u.allow == s.allow - {t.jti} && u.black == s.black + {t.jti}
    ensures u.links == s.links - {((t.sub, t.sid), t.jti)} && u.reverse == s.reverse - {t.jti}
  {
    es, u := Then(s, [], s, StartRefresh(i, t, true));
    es, u := Then(s, es, u, GetDel(i));
    assert u.workers == s.workers[i := Accepted(t, t.sid)];
    es, u := Then(s, es, u, Blacklist(i, true));
    es, u := Then(s, es, u, Unlink(i, true));
  }

  lemma {:induction false} LoneMint(s: Sys, i: nat, t: Token, jti: Id)
    requires i < |s.workers| && s.workers[i] == Rotating(t, t.sid) && jti !in s.signed
    ensures var u, token := Step(s, Mint(i, jti, true)), Token(jti, t.sub, t.sid);
            && u.workers == s.workers[i := Linking(token)] && u.links == s.links && u.reverse == s.reverse
            && u.allow == s.allow[jti := AllowRecord(t.sub, Some(t.sid))] && u.black == s.black
            && u.signed == s.signed[jti := token] && u.succeeded == s.succeeded + [t.jti]
  {
  }

  lemma {:induction false} LoneLink(s: Sys, i: nat, t: Token)
    requires i < |s.workers| && s.workers[i] == Linking(t)
    ensures var u := Step(s, Link(i, true));
            && u.workers == s.workers[i := Idle] && u.links == s.links + {((t.sub, t.sid), t.jti)}
            && u.reverse == s.reverse[t.jti := (t.sub, t.sid)] && u.allow == s.allow && u.black == s.black
            && u.signed == s.signed && u.succeeded == s.succeeded
  {
  }

  /** A refresh that nothing comes between: a token in good standing is blacklisted and a fresh
      one of the same session takes its place. */
  lemma {:induction false} LoneRefresh(s: Sys, i: nat, t: Token, jti: Id) returns (es: seq<Event>, u: Sys)
    requires i < |s.workers| && s.workers[i] == Idle && t.jti in s.signed && s.signed[t.jti] == t
    requires t.jti !in s.black && t.jti in s.allow && s.allow[t.jti] == AllowRecord(t.sub, Some(t.sid))
    requires jti !in s.signed
    ensures u == Run(s, es) && u.workers == s.workers && u.succeeded == s.succeeded + [t.jti]
    ensures u.signed == s.signed[jti := Token(jti, t.sub, t.sid)] && u.black == s.black + {t.jti}
    ensures u.allow == (s.allow - {t.jti})[jti := AllowRecord(t.sub, Some(t.sid))]
    ensures u.links == s.links - {((t.sub, t.sid), t.jti)} + {((t.sub, t.sid), jti)}
    ensures u.reverse == (s.reverse - {t.jti})[jti := (t.sub, t.sid)]
  {
    es, u := LoneConsume(s, i, t);
    LoneMint(u, i, t, jti);
    es, u := Then(s, es, u, Mint(i, jti, true));
    LoneLink(u, i, Token(jti, t.sub, t.sid));
    es, u := Then(s, es, u, Link(i, true));
    assert u.workers == s.workers;
  }

  lemma {:induction false} RevokeStarts(s: Sys, i: nat, t: Token)
    requires i < |s.workers| && s.workers[i] == Idle && t.jti in s.signed && s.signed[t.jti] == t
    ensures Step(s, StartRevoke(i, t)) == Set(s, i, RevokeDel(t))
  {
  }

  lemma {:induction false} RevokeDeleted(s: Sys, i: nat, t: Token)
    requires i < |s.workers| && s.workers[i] == RevokeDel(t)
    ensures var u := Step(s, RevokeDelete(i, true));
            && u.workers == s.workers[i := RevokeBlack(t)] && u.signed == s.signed && u.succeeded == s.succeeded
            && u.allow == s.allow - {t.jti} && u.black == s.black && u.links == s.links && u.reverse == s.reverse
  {
  }

  lemma {:induction false} RevokeWithdrawn(s0: Sys, es0: seq<Event>, s: Sys, i: nat, t: Token)
      returns (es: seq<Event>, u: Sys)
    requires s == Run(s0, es0) && i < |s.workers| && s.workers[i] == RevokeBlack(t)
    ensures u == Run(s0, es) && u.workers == s.workers[i := Idle]
    ensures u.signed == s.signed && u.succeeded == s.succeeded && u.allow == s.allow && u.black == s.black + {t.jti}
    ensures u.links == s.links - {((t.sub, t.sid), t.jti)} && u.reverse == s.reverse - {t.jti}
  {
    es, u := Then(s0, es0, s, RevokeBlacklist(i, true));
    assert u.workers == s.workers[i := RevokeUnlink(t)];
    es, u := Then(s0, es, u, RevokeUnlinks(i, true));
  }

  /** A token revoke that nothing comes between and none of whose steps fails. */
  lemma {:induction false} LoneRevoke(s: Sys, i: nat, t: Token) returns (es: seq<Event>, u: Sys)
    requires i < |s.workers| && s.workers[i] == Idle && t.jti in s.signed && s.signed[t.jti] == t
    ensures u == Run(s, es) && u.workers == s.workers && u.signed == s.signed && u.succeeded == s.succeeded
    ensures u.allow == s.allow - {t.jti} && u.black == s.black + {t.jti}
    ensures u.links == s.links - {((t.sub, t.sid), t.jti)} && u.reverse == s.reverse - {t.jti}
  {
    es, u := Then(s, [], s, StartRevoke(i, t));
    RevokeStarts(s, i, t);
    RevokeDeleted(u, i, t);
    es, u := Then(s, es, u, RevokeDelete(i, true));
    es, u := RevokeWithdrawn(s, es, u, i, t);
    assert u.workers == s.workers;
  }
}
