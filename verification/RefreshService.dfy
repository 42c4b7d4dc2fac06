/** `TokenService` (the blacklist) and `RefreshService`, for calls that run one at a time
    over the keys of the session service. Signatures and hashes are verdicts passed in. */
module RefreshService {
  import opened AuthTokens
  import opened Common
  import opened Sessions

  class TokenService {
    const redis: Redis

    constructor (redis: Redis)
      ensures this.redis == redis
    {
      this.redis := redis;
    }

    /** `blacklistRefreshJti` */
    method BlacklistRefreshJti(jti: Id)
      modifies redis`black
      ensures redis.black == old(redis.black) + {jti}
    {
      redis.black := redis.black + {jti};
    }

    /** `isRefreshBlacklisted` */
    method IsRefreshBlacklisted(jti: Id) returns (b: bool)
      ensures b <==> jti in redis.black
    {
      b := jti in redis.black;
    }

    /** `verifyRefresh`: `authentic` is the verdict on signature, expiry and shape. */
    method VerifyRefresh(t: Token, authentic: bool, skipBlacklist: bool) returns (r: Result<Token>)
      ensures r == if authentic && (skipBlacklist || t.jti !in redis.black) then Ok(t) else Err(Unauthorized)
    {
      if !authentic { return Err(Unauthorized); }
      if !skipBlacklist {
        var b := IsRefreshBlacklisted(t.jti);
        if b { return Err(Unauthorized); }
      }
      r := Ok(t);
    }
  }

  /** What the environment decides while a pair is built: the fresh jti, and whether the
      SET of the allow record and the MULTI of the link succeed. */
  datatype Minting = Minting(jti: Id, setOk: bool, linkOk: bool)

  /** Signing a fresh token and storing its record, linked or stray. */
  lemma MintKnown(allow: map<Id, AllowRecord>, black: set<Id>, linked: set<(Key, Id)>, signed: map<Id, Token>,
                  stray: set<Id>, delFailed: set<Id>, u: Id, session: Option<Id>, m: Minting)
    requires AllowLinked(allow, linked, signed, stray + delFailed) && ListsKnown(allow, black, signed, delFailed)
    requires m.jti !in signed
    ensures var t := Token(m.jti, u, if session.Some? then session.value else m.jti);
            var signed' := signed[m.jti := t];
            var allow' := if m.setOk then allow[m.jti := AllowRecord(u, session)] else allow;
            && ListsKnown(allow', black, signed', delFailed)
            && AllowLinked(allow', if session.Some? && m.linkOk then linked + {((u, t.sid), m.jti)} else linked,
                           signed',
                           (if session.Some? && !m.linkOk then stray + {m.jti} else stray) + delFailed)
  {
  }

  lemma MintInverse(reverse: map<Id, Key>, linked: set<(Key, Id)>, lapsed: set<Id>, signed: map<Id, Token>, t: Token)
    requires InverseRelations(reverse, linked, lapsed, signed) && t.jti !in signed
    ensures InverseRelations(reverse, linked, lapsed, signed[t.jti := t])
  {
  }

  /** Taking a jti off the allow-list (or failing to), blacklisting it and dropping its link. */
  lemma ConsumeKnown(allow: map<Id, AllowRecord>, black: set<Id>, linked: set<(Key, Id)>, signed: map<Id, Token>,
                     stray: set<Id>, delFailed: set<Id>, t: Token,
                     allow': map<Id, AllowRecord>, black': set<Id>, linked': set<(Key, Id)>, delFailed': set<Id>)
    requires AllowLinked(allow, linked, signed, stray + delFailed) && ListsKnown(allow, black, signed, delFailed)
    requires t.jti in signed && delFailed <= delFailed'
    requires allow' == allow - {t.jti} || (allow' == allow && t.jti in delFailed')
    requires black' == black || black' == black + {t.jti}
    requires linked' == linked || linked' == linked - {((t.sub, t.sid), t.jti)}
    ensures AllowLinked(allow', linked', signed, stray + delFailed') && ListsKnown(allow', black', signed, delFailed')
  {
  }

  class RefreshService {
    const redis: Redis
    const sessions: SessionService
    const tokens: TokenService

    ghost predicate Valid()
      reads redis
    {
      sessions.redis == redis && tokens.redis == redis && redis.Valid()
    }

    constructor (sessions: SessionService, tokens: TokenService)
      requires sessions.redis == tokens.redis && tokens.redis.Valid()
      ensures this.sessions == sessions && this.tokens == tokens && redis == tokens.redis && Valid()
    {
      this.redis, this.sessions, this.tokens := tokens.redis, sessions, tokens;
    }

    /** `buildPair`: signs, SETs the allow record, links the jti to the session. */
    method BuildPair(u: Id, session: Option<Id>, m: Minting) returns (t: Token)
      requires Valid() && m.jti !in redis.signed
      modifies redis`signed, redis`allow, redis`linked, redis`reverse, redis`stray
      ensures Valid()
      ensures t == Token(m.jti, u, if session.Some? then session.value else m.jti)
      ensures redis.signed == old(redis.signed)[m.jti := t]
      ensures redis.allow ==
        if m.setOk then old(redis.allow)[m.jti := AllowRecord(u, session)] else old(redis.allow)
      ensures redis.linked ==
        if session.Some? && m.linkOk then old(redis.linked) + {((u, t.sid), m.jti)} else old(redis.linked)
      ensures redis.reverse ==
        if session.Some? && m.linkOk then old(redis.reverse)[m.jti := (u, t.sid)] else old(redis.reverse)
      ensures redis.stray == if session.Some? && !m.linkOk then old(redis.stray) + {m.jti} else old(redis.stray)
    {
      t := Token(m.jti, u, if session.Some? then session.value else m.jti);
      MintKnown(redis.allow, redis.black, redis.linked, redis.signed, redis.stray, redis.delFailed, u, session, m);
      MintInverse(redis.reverse, redis.linked, redis.lapsed, redis.signed, t);
      redis.signed := redis.signed[m.jti := t];
      if m.setOk { redis.allow := redis.allow[m.jti := AllowRecord(u, session)]; }
      if session.Some? {
        if m.linkOk { sessions.LinkRefreshJti(u, session.value, m.jti); } else { redis.stray := redis.stray + {m.jti}; }
      }
    }

    /** `issueTokensForUserId` */
    method IssueTokensForUserId(u: Id, active: bool, session: Option<Id>, m: Minting) returns (r: Result<Token>)
      requires Valid() && m.jti !in redis.signed
      modifies redis`signed, redis`allow, redis`linked, redis`reverse, redis`stray
      ensures Valid()
      ensures r == if !active then Err(Forbidden)
                   else Ok(Token(m.jti, u, if session.Some? then session.value else m.jti))
      ensures r.Err? ==>
        && redis.signed == old(redis.signed) && redis.allow == old(redis.allow) && redis.linked == old(redis.linked)
        && redis.reverse == old(redis.reverse) && redis.stray == old(redis.stray)
      ensures r.Ok? ==>
        && redis.signed == old(redis.signed)[m.jti := r.value]
        && redis.allow == (if m.setOk then old(redis.allow)[m.jti := AllowRecord(u, session)] else old(redis.allow))
        && redis.linked == (if session.Some? && m.linkOk then old(redis.linked) + {((u, session.value), m.jti)}
                            else old(redis.linked))
        && redis.reverse == (if session.Some? && m.linkOk then old(redis.reverse)[m.jti := (u, session.value)]
                             else old(redis.reverse))
        && redis.stray == if session.Some? && !m.linkOk then old(redis.stray) + {m.jti} else old(redis.stray)
    {
      if !active { return Err(Forbidden); }
      var t := BuildPair(u, session, m);
      r := Ok(t);
    }

    /** GETDEL of the record, its tests, the blacklisting and the unlink. On a hit the tests
        never refuse, and the session is the token's own. */
    method Consume(t: Token, blackOk: bool, unlinkOk: bool) returns (sid: Option<Id>)
      requires Valid() && t.jti in redis.signed && redis.signed[t.jti] == t && t.jti in redis.allow
      modifies redis`allow, redis`black, redis`linked, redis`reverse
      ensures Valid() && sid == Some(t.sid)
      ensures redis.allow == old(redis.allow) - {t.jti}
      ensures redis.black == if blackOk then old(redis.black) + {t.jti} else old(redis.black)
      ensures redis.linked ==
        if old(redis.allow)[t.jti].sid.Some? && unlinkOk
        then old(redis.linked) - {((t.sub, t.sid), t.jti)} else old(redis.linked)
      ensures redis.reverse ==
        if old(redis.allow)[t.jti].sid.Some? && unlinkOk then old(redis.reverse) - {t.jti} else old(redis.reverse)
    {
      var rec := redis.allow[t.jti];
      redis.allow := redis.allow - {t.jti};
      if rec.user != t.sub { return None; }
      if rec.sid.Some? && rec.sid.value != t.sid { return None; }
      if blackOk { tokens.BlacklistRefreshJti(t.jti); }
      if rec.sid.Some? && unlinkOk { sessions.UnlinkRefreshJti(t.sub, rec.sid.value, t.jti); }
      ConsumeKnown(old(redis.allow), old(redis.black), old(redis.linked), redis.signed, redis.stray, redis.delFailed,
                   t, redis.allow, redis.black, redis.linked, redis.delFailed);
      sid := Some(if rec.sid.Some? then rec.sid.value else t.sid);
    }

    /** `refresh`: consumes the token's allow record, then blacklists and unlinks it, then
        issues a pair for the same session. A rotated token is never accepted again,
        whatever of the later steps fails. */
    method Refresh(t: Token, authentic: bool, blackOk: bool, unlinkOk: bool, active: bool, m: Minting)
        returns (r: Result<Token>)
      requires Valid() && m.jti !in redis.signed
      requires authentic ==> t.jti in redis.signed && redis.signed[t.jti] == t
      modifies redis`signed, redis`allow, redis`black, redis`linked, redis`reverse, redis`stray
      ensures Valid()
      ensures var hit := authentic && t.jti !in old(redis.black) && t.jti in old(redis.allow);
              && r == (if !hit then Err(Unauthorized)
                       else if !active then Err(Forbidden) else Ok(Token(m.jti, t.sub, t.sid)))
              && (!hit ==> redis.allow == old(redis.allow) && redis.black == old(redis.black)
                           && redis.linked == old(redis.linked) && redis.reverse == old(redis.reverse))
              && (hit ==>
                    var sever := old(redis.allow)[t.jti].sid.Some? && unlinkOk;
                    var k, allow := (t.sub, t.sid), old(redis.allow) - {t.jti};
                    var linked := if sever then old(redis.linked) - {(k, t.jti)} else old(redis.linked);
                    var reverse := if sever then old(redis.reverse) - {t.jti} else old(redis.reverse);
                    && redis.allow == (if active && m.setOk then allow[m.jti := AllowRecord(t.sub, Some(t.sid))]
                                       else allow)
                    && redis.black == (if blackOk then old(redis.black) + {t.jti} else old(redis.black))
                    && redis.linked == (if active && m.linkOk then linked + {(k, m.jti)} else linked)
                    && redis.reverse == (if active && m.linkOk then reverse[m.jti := k] else reverse))
      ensures authentic ==> t.jti !in redis.allow || t.jti in redis.black
    {
      var v := tokens.VerifyRefresh(t, authentic, false);
      if v.Err? { return Err(v.error); }
      if t.jti !in redis.allow { return Err(Unauthorized); }
      var sid := Consume(t, blackOk, unlinkOk);
      if sid.None? { return Err(Unauthorized); }
      if !active { return Err(Forbidden); }
      var t' := BuildPair(t.sub, Some(sid.value), m);
      r := Ok(t');
    }

    /** The steps of `revoke` for an authentic token. */
    method Withdraw(t: Token, delOk: bool, blackOk: bool, unlinkOk: bool)
      requires Valid() && t.jti in redis.signed && redis.signed[t.jti] == t
      modifies redis`allow, redis`black, redis`linked, redis`reverse, redis`delFailed
      ensures Valid()
      ensures redis.allow == if delOk then old(redis.allow) - {t.jti} else old(redis.allow)
      ensures redis.black == if blackOk then old(redis.black) + {t.jti} else old(redis.black)
      ensures redis.linked == if unlinkOk then old(redis.linked) - {((t.sub, t.sid), t.jti)} else old(redis.linked)
      ensures redis.reverse == if unlinkOk then old(redis.reverse) - {t.jti} else old(redis.reverse)
      ensures redis.delFailed == if !delOk then old(redis.delFailed) + {t.jti} else old(redis.delFailed)
    {
      if delOk { redis.allow := redis.allow - {t.jti}; } else { redis.delFailed := redis.delFailed + {t.jti}; }
      if blackOk { tokens.BlacklistRefreshJti(t.jti); }
      if unlinkOk { sessions.UnlinkRefreshJti(t.sub, t.sid, t.jti); }
      ConsumeKnown(old(redis.allow), old(redis.black), old(redis.linked), redis.signed, redis.stray,
                   old(redis.delFailed), t, redis.allow, redis.black, redis.linked, redis.delFailed);
    }

    /** `revoke`: works on expired and on blacklisted tokens; each step is best effort. */
    method Revoke(t: Token, authentic: bool, delOk: bool, blackOk: bool, unlinkOk: bool) returns (r: Result<()>)
      requires Valid()
      requires authentic ==> t.jti in redis.signed && redis.signed[t.jti] == t
      modifies redis`allow, redis`black, redis`linked, redis`reverse, redis`delFailed
      ensures Valid()
      ensures r == if authentic then Ok(()) else Err(Unauthorized)
      ensures redis.allow == if authentic && delOk then old(redis.allow) - {t.jti} else old(redis.allow)
      ensures redis.black == if authentic && blackOk then old(redis.black) + {t.jti} else old(redis.black)
      ensures redis.linked ==
        if authentic && unlinkOk then old(redis.linked) - {((t.sub, t.sid), t.jti)} else old(redis.linked)
      ensures redis.reverse == if authentic && unlinkOk then old(redis.reverse) - {t.jti} else old(redis.reverse)
      ensures redis.delFailed == if authentic && !delOk then old(redis.delFailed) + {t.jti} else old(redis.delFailed)
    {
      var v := tokens.VerifyRefresh(t, authentic, true);
      if v.Err? { return Err(v.error); }
      Withdraw(t, delOk, blackOk, unlinkOk);
      r := Ok(());
    }
  }

  /** Revoking a session logs its tokens out, except exactly those whose link was lost. */
  method RevokeThenRefresh(service: RefreshService, t: Token, active: bool, m: Minting) returns (r: Result<Token>)
    requires service.Valid() && t.jti in service.redis.signed && service.redis.signed[t.jti] == t
    requires m.jti !in service.redis.signed
    modifies service.redis
    ensures service.Valid()
    ensures r.Ok? <==>
              && active && t.jti !in old(service.redis.black) && t.jti in old(service.redis.allow)
              && ((t.sub, t.sid), t.jti) !in old(service.redis.linked)
    ensures r.Ok? && old(service.redis.allow)[t.jti].sid.Some? ==>
              t.jti in old(service.redis.stray) || t.jti in old(service.redis.delFailed)
  {
    service.sessions.Revoke(t.sub, t.sid);
    assert t.jti in JtisOf(old(service.redis.linked), {(t.sub, t.sid)}) <==>
           ((t.sub, t.sid), t.jti) in old(service.redis.linked) by {
      if t.jti in JtisOf(old(service.redis.linked), {(t.sub, t.sid)}) {
        var l :| l in old(service.redis.linked) && l.0 == (t.sub, t.sid) && l.1 == t.jti;
        assert l == ((t.sub, t.sid), t.jti);
      }
    }
    r := service.Refresh(t, true, true, true, active, m);
  }
}
