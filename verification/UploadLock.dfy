/** Calls on one upload that run one at a time, as under its lock, on a connection that
    calls on other uploads use too: what still holds, and what their commands can break. */
module UploadLock {
  import opened Common
  import opened UploadInvariant
  import opened UploadProtocol
  import opened UploadRecord
  import opened UploadTheorems

  predicate AtRest(pc: Pc) {
    pc == NotStarted || pc == Done
  }

  ghost predicate OthersAtRest(s: Sys, i: nat) {
    forall j :: 0 <= j < |s.callers| && j != i ==> AtRest(s.callers[j].pc)
  }

  /** Only one call in flight at any time: what the lock of the upload gives while its lease
      holds. Aborts, expiry and commands on other uploads come at any time. */
  ghost predicate OneCallAtATime(cfg: Config, s: Sys, es: seq<Event>)
    requires Fits(cfg, s)
    decreases |es|
  {
    es != [] ==>
      && (es[0].Move? && es[0].i < |s.callers| ==> OthersAtRest(s, es[0].i))
      && OneCallAtATime(cfg, Step(cfg, s, es[0]), es[1..])
  }

  // ------------------------------------------------------------------ invariant

  /** The caller in flight holds the latest record, or the one before it right after a win. */
  ghost predicate Latest(hist: seq<Status>, k: Caller)
    requires hist != []
  {
    AtRest(k.pc) || k.snap.version - hist[0].version == |hist| - (if k.pc.CasUnwatch? && k.pc.won then 2 else 1)
  }

  ghost predicate LockInv(cfg: Config, s: Sys) {
    && Fits(cfg, s) && Core(s)
    && forall i :: 0 <= i < |s.callers| ==> CallerOk(s.hist, s.wins, i, s.callers[i]) && Latest(s.hist, s.callers[i])
  }

  lemma StartLatest(s: Sys)
    requires Core(s) && s.cell.Some?
    ensures s.cell.value.version - s.hist[0].version == |s.hist| - 1
  {
    LogOrder(s.hist, s.wins, 0, |s.hist| - 1);
  }

  lemma {:induction false} CasLatest(s: Sys, i: nat, n: nat)
    requires Core(s) && i < |s.callers| && n < |s.conns| && Latest(s.hist, s.callers[i])
    requires || s.callers[i].pc.CasWatch? || s.callers[i].pc.CasGet?
             || s.callers[i].pc.CasExec? || s.callers[i].pc.CasUnwatch?
    ensures var s' := StepCas(s, i, n); s'.hist != [] && |s'.callers| == |s.callers| && Latest(s'.hist, s'.callers[i])
  {
  }

  /** A step that is no CAS keeps log and snapshot, unless it is the first read. */
  lemma {:induction false} OtherSteps(cfg: Config, s: Sys, i: nat, c: Choice)
    requires Fits(cfg, s) && i < |s.callers|
    requires !s.callers[i].pc.CasWatch? && !s.callers[i].pc.CasGet?
    requires !s.callers[i].pc.CasExec? && !s.callers[i].pc.CasUnwatch?
    ensures var s' := StepCaller(cfg, s, i, c);
            && s'.hist == s.hist && |s'.callers| == |s.callers| && !s'.callers[i].pc.CasUnwatch?
            && (s.callers[i].pc != NotStarted ==> s'.callers[i].snap == s.callers[i].snap)
            && (s.callers[i].pc == NotStarted && s'.callers[i].pc != Done ==>
                  s.cell.Some? && s'.callers[i].snap.version == s.cell.value.version)
            && (s.callers[i].pc == Done ==> s'.callers[i].pc == Done)
  {
  }

  lemma {:induction false} LatestKeeps(cfg: Config, s: Sys, i: nat, c: Choice)
    requires Fits(cfg, s) && Core(s) && i < |s.callers| && Latest(s.hist, s.callers[i])
    ensures var s' := StepCaller(cfg, s, i, c);
            s'.hist != [] && |s'.callers| == |s.callers| && Latest(s'.hist, s'.callers[i])
  {
    var pc := s.callers[i].pc;
    if pc.CasWatch? || pc.CasGet? || pc.CasExec? || pc.CasUnwatch? {
      CasLatest(s, i, cfg.conn[i]);
    } else {
      OtherSteps(cfg, s, i, c);
      if s.cell.Some? { StartLatest(s); }
    }
  }

  lemma {:induction false} LockedCallerMoves(cfg: Config, s: Sys, i: nat, c: Choice)
    requires Fits(cfg, s) && Core(s) && i < |s.callers|
    requires CallerOk(s.hist, s.wins, i, s.callers[i]) && Latest(s.hist, s.callers[i])
    ensures var s' := StepCaller(cfg, s, i, c); Moved(s, s', i) && Latest(s'.hist, s'.callers[i])
  {
    if s.callers[i].pc.CasExec? { LatestIs(s.hist, s.wins, i, s.callers[i].snap); }
    CallerMoves(cfg, s, i, c);
    LatestKeeps(cfg, s, i, c);
  }

  lemma RestOk(hist: seq<Status>, wins: seq<Win>, i: nat, k: Caller)
    requires |hist| == |wins| + 1 && AtRest(k.pc)
    ensures CallerOk(hist, wins, i, k) && Latest(hist, k)
  {
  }

  lemma {:induction false} LockedMoveKeeps(cfg: Config, s: Sys, i: nat, c: Choice)
    requires LockInv(cfg, s) && i < |s.callers| && OthersAtRest(s, i)
    ensures LockInv(cfg, Step(cfg, s, Move(i, c)))
  {
    var s' := Step(cfg, s, Move(i, c));
    LockedCallerMoves(cfg, s, i, c);
    assert Moved(s, s', i) && Latest(s'.hist, s'.callers[i]);
    forall j | 0 <= j < |s'.callers|
      ensures CallerOk(s'.hist, s'.wins, j, s'.callers[j]) && Latest(s'.hist, s'.callers[j])
    {
      if j != i {
        assert s'.callers[j] == s.callers[j];
        RestOk(s'.hist, s'.wins, j, s'.callers[j]);
      }
    }
  }

  lemma {:induction false} LockedOutsideKeeps(cfg: Config, s: Sys, e: Event)
    requires LockInv(cfg, s) && !e.Move?
    ensures LockInv(cfg, Step(cfg, s, e))
  {
    EffectsSame(s, Step(cfg, s, e));
  }

  lemma {:induction false} LockedRunKeeps(cfg: Config, s: Sys, es: seq<Event>)
    requires LockInv(cfg, s) && OneCallAtATime(cfg, s, es)
    ensures LockInv(cfg, Run(cfg, s, es))
    decreases |es|
  {
    if es != [] {
      if es[0].Move? {
        if es[0].i < |s.callers| { LockedMoveKeeps(cfg, s, es[0].i, es[0].c); }
      } else {
        LockedOutsideKeeps(cfg, s, es[0]);
      }
      LockedRunKeeps(cfg, Step(cfg, s, es[0]), es[1..]);
    }
  }

  // --------------------------------------------------------------------- theorems

  /** One call at a time, on any connections: at most one call hands the file to the storage
      driver and at most one media record exists, whatever other uploads do. */
  lemma {:induction false} LockedUploadsOnce(cfg: Config, s: Sys, es: seq<Event>)
    requires Initial(cfg, s) && OneCallAtATime(cfg, s, es)
    ensures AtMostOneUpload(Run(cfg, s, es))
  {
    InitialInv(cfg, s);
    LockedRunKeeps(cfg, s, es);
    CoreUploadsOnce(Run(cfg, s, es));
  }

  /** The record, while it exists, is the fold of all winning patches. */
  lemma {:induction false} LockedLinearises(cfg: Config, s: Sys, es: seq<Event>)
    requires Initial(cfg, s) && OneCallAtATime(cfg, s, es)
    ensures Linear(s.hist[0], Run(cfg, s, es))
  {
    InitialInv(cfg, s);
    LockedRunKeeps(cfg, s, es);
    HistoryStart(cfg, s, es);
    CoreIsLinear(Run(cfg, s, es));
  }

  lemma {:induction false} LockedProgressOrder(cfg: Config, s: Sys, es: seq<Event>, j: nat, k: nat)
    requires Initial(cfg, s) && OneCallAtATime(cfg, s, es)
    requires j <= k < |Run(cfg, s, es).hist|
    ensures Ordered(Run(cfg, s, es).hist[j], Run(cfg, s, es).hist[k], k - j)
  {
    InitialInv(cfg, s);
    LockedRunKeeps(cfg, s, es);
    CoreIsOrdered(Run(cfg, s, es), j, k);
  }

  // ---------------------------------------------- a deleted record can come back

  predicate Outside(mid: seq<Event>) {
    forall e :: e in mid ==> !e.Move?
  }

  /** What other uploads did last on connection n. */
  function LastOn(cfg: Config, mid: seq<Event>, n: nat): Option<Event> {
    if mid == [] then None
    else
      var e := mid[|mid| - 1];
      if (e.Settle? || e.Spoil?) && e.n == n && n in cfg.shared then Some(e) else LastOn(cfg, mid[..|mid| - 1], n)
  }

  /** What came from outside: the record deleted or not, and connection n as the last command
      of other uploads left it, or as it was but for the record's deletion. */
  ghost predicate Left(s: Sys, t: Sys, n: nat, deleted: bool, last: Option<Event>) {
    && t.callers == s.callers && |t.conns| == |s.conns| && n < |t.conns|
    && t.cell == (if deleted then None else s.cell)
    && (last.Some? && last.value.Settle? ==> t.conns[n] == CLEAR)
    && (last.Some? && last.value.Spoil? ==> t.conns[n].dirty)
    && (last.None? ==> t.conns[n] == if deleted && s.conns[n].watching then Conn(true, true) else s.conns[n])
  }

  lemma {:induction false} LeftStep(cfg: Config, s: Sys, t: Sys, n: nat, deleted: bool, last: Option<Event>, e: Event)
    requires Fits(cfg, t) && Left(s, t, n, deleted, last) && s.cell.Some? && !e.Move?
    requires last.Some? ==> last.value.Settle? || last.value.Spoil?
    ensures var own := (e.Settle? || e.Spoil?) && e.n == n && n in cfg.shared;
            Left(s, Step(cfg, t, e), n, deleted || e == Vanish, if own then Some(e) else last)
  {
  }

  lemma {:induction false} LastCases(cfg: Config, mid: seq<Event>, n: nat)
    ensures var last := LastOn(cfg, mid, n);
            last.Some? ==> last.value in mid && n in cfg.shared && (last.value == Settle(n) || last.value == Spoil(n))
  {
    if mid != [] { LastCases(cfg, mid[..|mid| - 1], n); }
  }

  lemma {:induction false} AfterOutside(cfg: Config, s: Sys, mid: seq<Event>, n: nat)
    requires Fits(cfg, s) && Outside(mid) && n < |s.conns| && s.cell.Some?
    ensures Left(s, Run(cfg, s, mid), n, Vanish in mid, LastOn(cfg, mid, n))
  {
    if mid != [] {
      var m, e := mid[..|mid| - 1], mid[|mid| - 1];
      assert mid == m + [e] && forall x :: x in m ==> x in mid;
      AfterOutside(cfg, s, m, n);
      RunSnoc(cfg, s, m, e);
      assert Vanish in mid <==> Vanish in m || e == Vanish;
      assert e in mid;
      LastCases(cfg, m, n);
      LeftStep(cfg, s, Run(cfg, s, m), n, Vanish in m, LastOn(cfg, m, n), e);
    }
  }

  lemma {:induction false} LastAppend(cfg: Config, a: seq<Event>, b: seq<Event>, n: nat)
    ensures LastOn(cfg, a + b, n) == if LastOn(cfg, b, n).Some? then LastOn(cfg, b, n) else LastOn(cfg, a, n)
  {
    if b == [] {
      assert a + b == a;
    } else {
      assert (a + b)[..|a + b| - 1] == a + b[..|b| - 1];
      LastAppend(cfg, a, b[..|b| - 1], n);
    }
  }

  /** A caller about to patch the record it holds. */
  ghost predicate AboutToPatch(cfg: Config, s: Sys, i: nat) {
    && Fits(cfg, s) && i < |s.callers| && s.callers[i].pc.CasWatch?
    && s.cell.Some? && s.cell.value.version == s.callers[i].snap.version
  }

  /** WATCH, what comes before the GET, and the GET. */
  lemma {:induction false} ReadRun(cfg: Config, s: Sys, i: nat, before: seq<Event>, a: Choice, b: Choice)
      returns (t: Sys)
    requires AboutToPatch(cfg, s, i) && Outside(before) && Vanish !in before
    ensures t == Run(cfg, s, [Move(i, a)] + before + [Move(i, b)]) && Fits(cfg, t)
    ensures t.cell == s.cell && i < |t.callers| && t.callers[i].pc.CasExec?
    ensures var n := cfg.conn[i]; var last := LastOn(cfg, before, n);
            && (last.None? ==> t.conns[n].watching)
            && (last.Some? && last.value.Settle? ==> t.conns[n] == CLEAR)
            && (last.Some? && last.value.Spoil? ==> t.conns[n].dirty)
  {
    var n := cfg.conn[i];
    var s1 := Step(cfg, s, Move(i, a));
    var all := [Move(i, a)] + before;
    assert all[1..] == before && Run(cfg, s, all) == Run(cfg, s1, before);
    AfterOutside(cfg, s1, before, n);
    LastCases(cfg, before, n);
    RunSnoc(cfg, s, all, Move(i, b));
    t := Step(cfg, Run(cfg, s1, before), Move(i, b));
  }

  /** EXEC on a deleted record goes through if nothing on its connection speaks against it. */
  lemma ExecStoresIff(cfg: Config, t: Sys, i: nat, c: Choice)
    requires Fits(cfg, t) && i < |t.callers| && t.callers[i].pc.CasExec? && t.cell.None?
    ensures Step(cfg, t, Move(i, c)).cell.Some? <==> !t.conns[cfg.conn[i]].dirty
  {
  }

  /** A record deleted between a caller's GET and its EXEC: the EXEC stores it again if and only
      if the last thing other uploads did on the connection since the WATCH cleared it. */
  lemma {:induction false} DeletedComesBackIff(cfg: Config, s: Sys, i: nat, before: seq<Event>, mid: seq<Event>,
                                               a: Choice, b: Choice, c: Choice)
    requires AboutToPatch(cfg, s, i) && Outside(before) && Vanish !in before && Outside(mid) && Vanish in mid
    ensures Run(cfg, s, [Move(i, a)] + before + [Move(i, b)] + mid + [Move(i, c)]).cell.Some?
            <==> LastOn(cfg, before + mid, cfg.conn[i]) == Some(Settle(cfg.conn[i]))
  {
    var n, pre := cfg.conn[i], [Move(i, a)] + before + [Move(i, b)];
    var t := ReadRun(cfg, s, i, before, a, b);
    RunAppend(cfg, s, pre, mid);
    AfterOutside(cfg, t, mid, n);
    LastCases(cfg, before, n);
    LastCases(cfg, mid, n);
    LastAppend(cfg, before, mid, n);
    var u := Run(cfg, t, mid);
    RunSnoc(cfg, s, pre + mid, Move(i, c));
    ExecStoresIff(cfg, u, i, c);
  }

  lemma {:induction false} OnlyCaller(cfg: Config, s: Sys, es: seq<Event>)
    requires Fits(cfg, s) && |s.callers| == 1 && forall e :: e in es && e.Move? ==> e.i == 0
    ensures OneCallAtATime(cfg, s, es)
    decreases |es|
  {
    if es != [] {
      assert es[0] in es && forall e :: e in es[1..] ==> e in es;
      OnlyCaller(cfg, Step(cfg, s, es[0]), es[1..]);
    }
  }

  /** It happens under the lock: a chunk call reads, the session is aborted, a call on another
      upload finishes its own CAS on the client, and the EXEC brings the session back. */
  lemma AbortedSessionComesBack(cfg: Config, s: Sys) returns (es: seq<Event>)
    requires Initial(cfg, s) && |s.callers| == 1 && cfg.conn[0] in cfg.shared
    requires s.callers[0].job.WriteChunk? && s.hist[0].state == Init && s.hist[0].expiresAt >= 0
    ensures OneCallAtATime(cfg, s, es) && Vanish in es && Run(cfg, s, es).cell.Some?
  {
    var n, c := cfg.conn[0], Choice(true, false, 0, Unknown, "");
    var mid := [Vanish, Settle(n)];
    var t := Step(cfg, s, Move(0, c));
    assert t.callers[0].pc == CasWatch(ToReceiving, StatePatch(Receiving));
    assert LastOn(cfg, mid, n) == Some(Settle(n));
    assert [] + mid == mid && [Move(0, c)] + [] == [Move(0, c)];
    DeletedComesBackIff(cfg, t, 0, [], mid, c, c, c);
    var rest := [Move(0, c)] + [] + [Move(0, c)] + mid + [Move(0, c)];
    es := [Move(0, c)] + rest;
    assert es[1..] == rest && es[3] == Vanish;
    OnlyCaller(cfg, s, es);
  }
}
