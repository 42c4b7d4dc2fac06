/** Interleaved `requestOtp`, `resendOtp` and `verifyOtp` calls for one subject, one Redis
    command at a time; the active hash and the block may expire at any time. */
module OtpProtocol {
  import opened Common

  type Code = nat

  /** The active hash: the issue whose code it holds, none if HINCRBY created it anew. */
  datatype Hash = Hash(issue: Option<nat>, attempts: nat)

  /** One issued code: comparisons counted on its own hash, other comparisons, tickets. */
  datatype Issued = Issued(code: Code, compared: nat, astray: nat, tickets: nat)

  datatype Caller =
    | Idle
    | Checked(guess: Code)            // verify: past the block test, before HGETALL
    | Read(issue: nat, guess: Code)   // before HINCRBY
    | Exhausted                       // before the MULTI that deletes and blocks
    | Winning(issue: nat)             // before the MULTI that deletes and stores the ticket
    | Asking                          // request: before the block test
    | Passed                          // past the block test, before HGETALL
    | Issuing                         // before the MULTI of issueNewCode

  datatype Sys = Sys(active: Option<Hash>, blocked: bool, issues: seq<Issued>, callers: seq<Caller>)

  datatype Event =
    | Arrive                           // one more call
    | LookResend(i: nat, due: bool)    // resend: HGETALL; due: the test of resendAt
    | Ask(i: nat)                      // request: EXISTS of the block key
    | LookRequest(i: nat, due: bool)   // request: HGETALL
    | IssueCode(i: nat, code: Code)    // the MULTI of issueNewCode
    | Check(i: nat, guess: Code)       // verify: EXISTS of the block key
    | ReadHash(i: nat, live: bool)     // verify: HGETALL; live: the test of exp
    | Count(i: nat)                    // HINCRBY, and the comparison
    | Close(i: nat)                    // the MULTI after it
    | Expire                           // the hash, or its deletion as out of date
    | Unblock                          // the block key expires

  function Goto(s: Sys, i: nat, c: Caller): Sys
    requires i < |s.callers|
  {
    s.(callers := s.callers[i := c])
  }

  /** HINCRBY: a missing hash is created with the counter alone. */
  function Counted(active: Option<Hash>): Hash {
    if active.Some? then active.value.(attempts := active.value.attempts + 1) else Hash(None, 1)
  }

  /** The cooldown is over; a hash that HINCRBY created has none. */
  predicate Due(h: Hash, due: bool) {
    due || h.issue.None?
  }

  function Compare(x: Issued, own: bool): Issued {
    x.(compared := x.compared + (if own then 1 else 0), astray := x.astray + (if own then 0 else 1))
  }

  function Step(max: nat, s: Sys, e: Event): Sys {
    match e
    case Arrive => s.(callers := s.callers + [Idle])
    case LookResend(i, due) =>
      if i < |s.callers| && s.callers[i].Idle?
      then Goto(s, i, if s.active.None? then Asking else if Due(s.active.value, due) then Issuing else Idle)
      else s
    case Ask(i) =>
      if i < |s.callers| && (s.callers[i].Idle? || s.callers[i].Asking?)
      then Goto(s, i, if s.blocked then Idle else Passed) else s
    case LookRequest(i, due) =>
      if i < |s.callers| && s.callers[i].Passed?
      then Goto(s, i, if s.active.Some? && !Due(s.active.value, due) then Idle else Issuing) else s
    case IssueCode(i, code) =>
      if i < |s.callers| && s.callers[i].Issuing?
      then Goto(s, i, Idle).(active := Some(Hash(Some(|s.issues|), 0)), issues := s.issues + [Issued(code, 0, 0, 0)])
      else s
    case Check(i, guess) =>
      if i < |s.callers| && s.callers[i].Idle? then Goto(s, i, if s.blocked then Idle else Checked(guess)) else s
    case ReadHash(i, live) =>
      if i < |s.callers| && s.callers[i].Checked?
      then Goto(s, i, if live && s.active.Some? && s.active.value.issue.Some?
                      then Read(s.active.value.issue.value, s.callers[i].guess) else Idle)
      else s
    case Count(i) =>
      if i < |s.callers| && s.callers[i].Read? && s.callers[i].issue < |s.issues| then
        var n, h := s.callers[i].issue, Counted(s.active);
        var within := h.attempts <= max;
        Goto(s, i, if !within then Exhausted else if s.issues[n].code == s.callers[i].guess then Winning(n) else Idle).(
          active := Some(h),
          issues := if within then s.issues[n := Compare(s.issues[n], h.issue == Some(n))] else s.issues)
      else s
    case Close(i) =>
      if i < |s.callers| && s.callers[i].Exhausted? then Goto(s, i, Idle).(active := None, blocked := true)
      else if i < |s.callers| && s.callers[i].Winning? && s.callers[i].issue < |s.issues| then
        var n := s.callers[i].issue;
        Goto(s, i, Idle).(active := None, issues := s.issues[n := s.issues[n].(tickets := s.issues[n].tickets + 1)])
      else s
    case Expire => s.(active := None)
    case Unblock => s.(blocked := false)
  }

  function Run(max: nat, s: Sys, es: seq<Event>): Sys {
    if es == [] then s else Step(max, Run(max, s, es[..|es| - 1]), es[|es| - 1])
  }

  ghost predicate Initial(s: Sys) {
    s.active.None? && s.issues == [] && forall i :: 0 <= i < |s.callers| ==> s.callers[i] == Idle
  }

  // ------------------------------------------------------------------ invariant

  ghost predicate CallerOk(s: Sys, c: Caller) {
    && (c.Read? ==> c.issue < |s.issues|)
    && (c.Winning? ==> c.issue < |s.issues|)
  }

  /** The hash of an issue is the last one's; its counter bounds that issue's own comparisons,
      and none of its tickets has been handed out. */
  ghost predicate HashOk(max: nat, s: Sys, h: Hash) {
    h.issue.Some? ==>
      && h.issue.value + 1 == |s.issues|
      && s.issues[h.issue.value].compared <= h.attempts
      && s.issues[h.issue.value].tickets == 0
  }

  ghost predicate Inv(max: nat, s: Sys) {
    && (s.active.Some? ==> HashOk(max, s, s.active.value))
    && (forall i :: 0 <= i < |s.callers| ==> CallerOk(s, s.callers[i]))
    && (forall n :: 0 <= n < |s.issues| ==> s.issues[n].compared <= max)
  }

  lemma {:induction false} LookKeeps(max: nat, s: Sys, e: Event)
    requires Inv(max, s) && (e.Arrive? || e.LookResend? || e.Ask? || e.LookRequest? || e.Check?)
    ensures Inv(max, Step(max, s, e))
  {
    var t := Step(max, s, e);
    forall i | 0 <= i < |t.callers| ensures CallerOk(t, t.callers[i]) {
      assert i < |s.callers| ==> CallerOk(s, s.callers[i]);
    }
  }

  lemma {:induction false} ReadKeeps(max: nat, s: Sys, e: Event)
    requires Inv(max, s) && (e.ReadHash? || e.Expire? || e.Unblock?)
    ensures Inv(max, Step(max, s, e))
  {
    var t := Step(max, s, e);
    forall i | 0 <= i < |t.callers| ensures CallerOk(t, t.callers[i]) { assert CallerOk(s, s.callers[i]); }
  }

  lemma {:induction false} IssueKeeps(max: nat, s: Sys, e: Event)
    requires Inv(max, s) && e.IssueCode?
    ensures Inv(max, Step(max, s, e))
  {
    var t := Step(max, s, e);
    forall i | 0 <= i < |t.callers| ensures CallerOk(t, t.callers[i]) { assert CallerOk(s, s.callers[i]); }
    forall n | 0 <= n < |t.issues| ensures t.issues[n].compared <= max {
      if n < |s.issues| { assert s.issues[n].compared <= max; }
    }
  }

  lemma {:induction false} CountKeeps(max: nat, s: Sys, e: Event)
    requires Inv(max, s) && e.Count?
    ensures Inv(max, Step(max, s, e))
  {
    var t := Step(max, s, e);
    forall i | 0 <= i < |t.callers| ensures CallerOk(t, t.callers[i]) { assert CallerOk(s, s.callers[i]); }
    forall n | 0 <= n < |t.issues| ensures t.issues[n].compared <= max { assert s.issues[n].compared <= max; }
  }

  lemma {:induction false} CloseKeeps(max: nat, s: Sys, e: Event)
    requires Inv(max, s) && e.Close?
    ensures Inv(max, Step(max, s, e))
  {
    var t := Step(max, s, e);
    forall i | 0 <= i < |t.callers| ensures CallerOk(t, t.callers[i]) { assert CallerOk(s, s.callers[i]); }
    forall n | 0 <= n < |t.issues| ensures t.issues[n].compared <= max { assert s.issues[n].compared <= max; }
  }

  lemma {:induction false} StepKeeps(max: nat, s: Sys, e: Event)
    requires Inv(max, s)
    ensures Inv(max, Step(max, s, e))
  {
    match e
    case IssueCode(_, _) => IssueKeeps(max, s, e);
    case Count(_) => CountKeeps(max, s, e);
    case Close(_) => CloseKeeps(max, s, e);
    case ReadHash(_, _) => ReadKeeps(max, s, e);
    case Expire => ReadKeeps(max, s, e);
    case Unblock => ReadKeeps(max, s, e);
    case _ => LookKeeps(max, s, e);
  }

  lemma {:induction false} RunKeeps(max: nat, s: Sys, es: seq<Event>)
    requires Inv(max, s)
    ensures Inv(max, Run(max, s, es))
  {
    if es != [] {
      RunKeeps(max, s, es[..|es| - 1]);
      StepKeeps(max, Run(max, s, es[..|es| - 1]), es[|es| - 1]);
    }
  }

  // --------------------------------------------------------------------- theorems

  /** The limit that survives interleaving: no code is compared more than max times while the
      attempts are counted on its own hash. */
  lemma {:induction false} OwnComparisonsBounded(max: nat, s: Sys, es: seq<Event>, n: nat)
    requires Initial(s) && n < |Run(max, s, es).issues|
    ensures Run(max, s, es).issues[n].compared <= max
  {
    RunKeeps(max, s, es);
  }

  /** A call that has read issue n and guesses its code, or is about to store a ticket for it. */
  predicate Holds(s: Sys, n: nat, c: Caller) {
    n < |s.issues| && ((c.Read? && c.issue == n && c.guess == s.issues[n].code) || (c.Winning? && c.issue == n))
  }

  /** Issue n yields no further ticket: its hash is gone and no call holds it. */
  ghost predicate Spent(s: Sys, n: nat) {
    && n < |s.issues| && !(s.active.Some? && s.active.value.issue == Some(n))
    && forall i :: 0 <= i < |s.callers| ==> !Holds(s, n, s.callers[i])
  }

  lemma {:induction false} SpentStays(max: nat, s: Sys, e: Event, n: nat)
    requires Spent(s, n)
    ensures Spent(Step(max, s, e), n) && Step(max, s, e).issues[n].tickets == s.issues[n].tickets
  {
    var s' := Step(max, s, e);
    forall i | 0 <= i < |s'.callers| ensures !Holds(s', n, s'.callers[i]) {
      assert i < |s.callers| ==> !Holds(s, n, s.callers[i]);
    }
  }

  lemma {:induction false} SpentRun(max: nat, s: Sys, es: seq<Event>, n: nat)
    requires Spent(s, n)
    ensures Spent(Run(max, s, es), n) && Run(max, s, es).issues[n].tickets == s.issues[n].tickets
  {
    if es != [] {
      SpentRun(max, s, es[..|es| - 1], n);
      SpentStays(max, Run(max, s, es[..|es| - 1]), es[|es| - 1], n);
    }
  }

  lemma Then(max: nat, s: Sys, es: seq<Event>, t: Sys, e: Event) returns (es': seq<Event>, t': Sys)
    requires t == Run(max, s, es)
    ensures es' == es + [e] && t' == Step(max, t, e) && t' == Run(max, s, es')
  {
    es', t' := es + [e], Step(max, t, e);
    assert es'[..|es|] == es;
  }

  /** After the key has expired, a right guess is counted on a fresh hash and wins. */
  lemma CountWins(max: nat, s: Sys, n: nat, i: nat)
    requires max >= 1 && i < |s.callers| && Holds(s, n, s.callers[i]) && s.callers[i].Read?
    ensures var t := Step(max, Step(max, s, Expire), Count(i));
            && i < |t.callers| && t.callers[i] == Winning(n)
            && |t.issues| == |s.issues| && t.issues[n].tickets == s.issues[n].tickets
  {
  }

  lemma CloseWins(max: nat, s: Sys, n: nat, i: nat)
    requires i < |s.callers| && s.callers[i] == Winning(n) && n < |s.issues|
    ensures var t := Step(max, s, Close(i));
            |t.issues| == |s.issues| && t.issues[n].tickets == s.issues[n].tickets + 1
  {
  }

  /** A call that holds an issue can always be carried through to a ticket. */
  lemma {:induction false} HeldYields(max: nat, s: Sys, n: nat, i: nat) returns (es: seq<Event>)
    requires max >= 1 && i < |s.callers| && Holds(s, n, s.callers[i])
    ensures var t := Run(max, s, es); n < |t.issues| && t.issues[n].tickets == s.issues[n].tickets + 1
  {
    var t := s;
    es := [];
    if s.callers[i].Read? {
      CountWins(max, s, n, i);
      es, t := Then(max, s, es, t, Expire);
      es, t := Then(max, s, es, t, Count(i));
    }
    CloseWins(max, t, n, i);
    es, t := Then(max, s, es, t, Close(i));
  }

  ghost predicate NoMoreTickets(max: nat, s: Sys, es: seq<Event>, n: nat)
    requires n < |s.issues|
  {
    n < |Run(max, s, es).issues| && Run(max, s, es).issues[n].tickets == s.issues[n].tickets
  }

  /** Once a code has yielded a ticket, it yields a second one in some continuation if and only if
      another call read its hash before the first ticket's MULTI and holds the right guess. */
  lemma {:induction false} SecondTicketIff(max: nat, s0: Sys, pre: seq<Event>, n: nat)
    requires max >= 1 && Initial(s0) && n < |Run(max, s0, pre).issues| && Run(max, s0, pre).issues[n].tickets >= 1
    ensures var s := Run(max, s0, pre);
            (exists es :: !NoMoreTickets(max, s, es, n)) <==>
            exists i :: 0 <= i < |s.callers| && Holds(s, n, s.callers[i])
  {
    var s := Run(max, s0, pre);
    RunKeeps(max, s0, pre);
    if i :| 0 <= i < |s.callers| && Holds(s, n, s.callers[i]) {
      var es := HeldYields(max, s, n, i);
      assert !NoMoreTickets(max, s, es, n);
    } else {
      assert Spent(s, n);
      forall es ensures NoMoreTickets(max, s, es, n) { SpentRun(max, s, es, n); }
    }
  }

  lemma RequestSteps(max: nat, s: Sys, i: nat)
    requires i < |s.callers| && s.callers[i] == Idle && !s.blocked && s.active.None?
    ensures Step(max, s, Ask(i)) == Goto(s, i, Passed)
    ensures Step(max, Goto(s, i, Passed), LookRequest(i, true)) == Goto(s, i, Issuing)
  {
    assert s.callers[i := Passed][i := Issuing] == s.callers[i := Issuing];
  }

  /** From the start, a request by caller 0 issues a code. */
  lemma {:induction false} FirstCode(max: nat, s: Sys, c: Code) returns (es: seq<Event>, t: Sys)
    requires Initial(s) && |s.callers| == 2 && !s.blocked
    ensures t == Run(max, s, es) && t.issues == [Issued(c, 0, 0, 0)] && t.active == Some(Hash(Some(0), 0))
    ensures t.callers == [Idle, Idle] && !t.blocked
  {
    RequestSteps(max, s, 0);
    es, t := Then(max, s, [], s, Ask(0));
    es, t := Then(max, s, es, t, LookRequest(0, true));
    assert t == Goto(s, 0, Issuing);
    es, t := Then(max, s, es, t, IssueCode(0, c));
  }

  /** Caller i reads the hash of issue 0. */
  lemma {:induction false} Reads(max: nat, s: Sys, es0: seq<Event>, u: Sys, i: nat, g: Code)
      returns (es: seq<Event>, t: Sys)
    requires u == Run(max, s, es0) && i < |u.callers| && u.callers[i] == Idle && !u.blocked
    requires u.active.Some? && u.active.value.issue == Some(0)
    ensures t == Run(max, s, es) && t == u.(callers := u.callers[i := Read(0, g)])
  {
    es, t := Then(max, s, es0, u, Check(i, g));
    assert t == u.(callers := u.callers[i := Checked(g)]);
    es, t := Then(max, s, es, t, ReadHash(i, true));
  }

  /** Two calls hold issue 0, with its hash as they read it. */
  lemma {:induction false} BothRead(s: Sys, c: Code) returns (es: seq<Event>, t: Sys)
    requires Initial(s) && |s.callers| == 2 && !s.blocked
    ensures t == Run(5, s, es) && t.issues == [Issued(c, 0, 0, 0)] && t.active == Some(Hash(Some(0), 0))
    ensures t.callers == [Read(0, c), Read(0, c)]
  {
    es, t := FirstCode(5, s, c);
    es, t := Reads(5, s, es, t, 0, c);
    es, t := Reads(5, s, es, t, 1, c);
  }

  lemma {:induction false} BothCount(s: Sys, es0: seq<Event>, u: Sys, c: Code) returns (es: seq<Event>, t: Sys)
    requires u == Run(5, s, es0) && u.issues == [Issued(c, 0, 0, 0)] && u.active == Some(Hash(Some(0), 0))
    requires u.callers == [Read(0, c), Read(0, c)]
    ensures t == Run(5, s, es) && |t.issues| == 1 && t.issues[0].tickets == 0 && t.callers == [Winning(0), Winning(0)]
  {
    es, t := Then(5, s, es0, u, Count(0));
    assert t.callers == [Winning(0), Read(0, c)] && t.active == Some(Hash(Some(0), 1)) && t.issues[0].code == c;
    es, t := Then(5, s, es, t, Count(1));
  }

  /** Two calls read the hash before either deletes it: both hand out a ticket for the one code. */
  lemma {:induction false} TwoTickets(s: Sys) returns (es: seq<Event>)
    requires Initial(s) && |s.callers| == 2 && !s.blocked
    ensures var t := Run(5, s, es); |t.issues| == 1 && t.issues[0].tickets == 2
  {
    var t;
    es, t := BothRead(s, 123456);
    es, t := BothCount(s, es, t, 123456);
    es, t := Then(5, s, es, t, Close(0));
    es, t := Then(5, s, es, t, Close(1));
  }

  // ------------------------------------------------------------------- the block

  /** A call that can still bring a code about without passing the block test. */
  predicate Pends(c: Caller) {
    c.Read? || c.Passed? || c.Issuing?
  }

  /** No hash that a resend would find, and no such call. */
  ghost predicate Sealed(s: Sys) {
    s.active.None? && forall i :: 0 <= i < |s.callers| ==> !Pends(s.callers[i])
  }

  /** The block lasts through the run. */
  predicate NoUnblock(es: seq<Event>) {
    Unblock !in es
  }

  lemma {:induction false} SealedStep(max: nat, s: Sys, e: Event)
    requires s.blocked && Sealed(s) && e != Unblock
    ensures var t := Step(max, s, e); t.blocked && Sealed(t) && |t.issues| == |s.issues|
  {
    var t := Step(max, s, e);
    forall i | 0 <= i < |t.callers| ensures !Pends(t.callers[i]) {
      assert i < |s.callers| ==> !Pends(s.callers[i]);
    }
  }

  lemma {:induction false} SealedRun(max: nat, s: Sys, es: seq<Event>)
    requires s.blocked && Sealed(s) && NoUnblock(es)
    ensures var t := Run(max, s, es); t.blocked && Sealed(t) && |t.issues| == |s.issues|
  {
    if es != [] {
      var p, e := es[..|es| - 1], es[|es| - 1];
      assert es == p + [e];
      SealedRun(max, s, p);
      SealedStep(max, Run(max, s, p), e);
    }
  }

  ghost predicate NoCode(max: nat, s: Sys, es: seq<Event>) {
    NoUnblock(es) ==> |Run(max, s, es).issues| == |s.issues|
  }

  lemma ThenQuietly(max: nat, s: Sys, es: seq<Event>, t: Sys, e: Event) returns (es': seq<Event>, t': Sys)
    requires t == Run(max, s, es) && NoUnblock(es) && e != Unblock
    ensures t' == Step(max, t, e) && t' == Run(max, s, es') && NoUnblock(es')
  {
    es', t' := Then(max, s, es, t, e);
  }

  /** A hash in the keys: a resend that finds it issues a code, block or not. */
  lemma {:induction false} ResendIssues(max: nat, s0: Sys, es0: seq<Event>, s: Sys) returns (es: seq<Event>)
    requires s == Run(max, s0, es0) && NoUnblock(es0) && s.active.Some?
    ensures NoUnblock(es) && |Run(max, s0, es).issues| == |s.issues| + 1
  {
    var n, t := |s.callers|, s;
    es, t := ThenQuietly(max, s0, es0, t, Arrive);
    assert t == s.(callers := s.callers + [Idle]);
    es, t := ThenQuietly(max, s0, es, t, LookResend(n, true));
    assert t.callers[n] == Issuing && t.issues == s.issues;
    es, t := ThenQuietly(max, s0, es, t, IssueCode(n, 123456));
  }

  /** A verify that counts leaves a hash. */
  lemma CountLeavesHash(max: nat, s: Sys, i: nat)
    requires Inv(max, s) && i < |s.callers| && s.callers[i].Read?
    ensures Step(max, s, Count(i)).active.Some? && |Step(max, s, Count(i)).issues| == |s.issues|
  {
    assert CallerOk(s, s.callers[i]);
  }

  lemma {:induction false} PendingIssues(max: nat, s: Sys, i: nat) returns (es: seq<Event>)
    requires Inv(max, s) && i < |s.callers| && Pends(s.callers[i])
    ensures NoUnblock(es) && |Run(max, s, es).issues| == |s.issues| + 1
  {
    var t := s;
    es := [];
    if s.callers[i].Read? {
      CountLeavesHash(max, s, i);
      es, t := ThenQuietly(max, s, es, t, Count(i));
      es := ResendIssues(max, s, es, t);
    } else {
      if s.callers[i].Passed? { es, t := ThenQuietly(max, s, es, t, LookRequest(i, true)); }
      assert t.callers[i] == Issuing && t.issues == s.issues;
      es, t := ThenQuietly(max, s, es, t, IssueCode(i, 123456));
    }
  }

  /** During a block no code is issued, in any continuation in which it lasts, if and only if
      there is no active hash, no verify has read one without having counted, and no request
      has passed the block test without having issued. */
  lemma {:induction false} BlockHoldsIff(max: nat, s0: Sys, pre: seq<Event>)
    requires Initial(s0) && Run(max, s0, pre).blocked
    ensures var s := Run(max, s0, pre); (forall es :: NoCode(max, s, es)) <==> Sealed(s)
  {
    var s := Run(max, s0, pre);
    RunKeeps(max, s0, pre);
    if Sealed(s) {
      forall es ensures NoCode(max, s, es) {
        if NoUnblock(es) { SealedRun(max, s, es); }
      }
    } else {
      var es: seq<Event>;
      if i :| 0 <= i < |s.callers| && Pends(s.callers[i]) {
        es := PendingIssues(max, s, i);
      } else {
        es := ResendIssues(max, s, [], s);
      }
      assert !NoCode(max, s, es);
    }
  }

  /** The MULTI that blocks leaves no hash, so the calls under way at that moment decide. */
  lemma BlockStartsSealedIff(max: nat, s: Sys, i: nat)
    requires i < |s.callers| && s.callers[i].Exhausted?
    ensures var t := Step(max, s, Close(i));
            t.blocked && (Sealed(t) <==> forall h :: 0 <= h < |s.callers| ==> !Pends(s.callers[h]))
  {
    var t := Step(max, s, Close(i));
    assert forall h :: 0 <= h < |s.callers| ==> t.callers[h] == if h == i then Idle else s.callers[h];
  }

  /** A wrong guess on the only attempt that one caller is given, then two more reads. */
  lemma {:induction false} OneAttemptGone(s: Sys) returns (es: seq<Event>, t: Sys)
    requires Initial(s) && |s.callers| == 2 && !s.blocked
    ensures t == Run(1, s, es) && t.issues == [Issued(7, 1, 0, 0)] && t.active == Some(Hash(Some(0), 1))
    ensures t.callers == [Read(0, 8), Read(0, 8)]
  {
    es, t := FirstCode(1, s, 7);
    es, t := Reads(1, s, es, t, 0, 8);
    es, t := Then(1, s, es, t, Count(0));
    assert t.callers == [Idle, Idle] && t.active == Some(Hash(Some(0), 1)) && t.issues == [Issued(7, 1, 0, 0)];
    es, t := Reads(1, s, es, t, 0, 8);
    es, t := Reads(1, s, es, t, 1, 8);
  }

  /** A verify that read the hash before the block counts after it, and a resend issues a code
      while the block lasts. */
  lemma {:induction false} CodeDuringBlock(s: Sys) returns (pre: seq<Event>, es: seq<Event>)
    requires Initial(s) && |s.callers| == 2 && !s.blocked
    ensures var t := Run(1, s, pre); t.blocked && NoUnblock(es) && |Run(1, t, es).issues| == |t.issues| + 1
  {
    var t;
    pre, t := OneAttemptGone(s);
    pre, t := Then(1, s, pre, t, Count(0));
    assert t.callers == [Exhausted, Read(0, 8)] && |t.issues| == 1;
    pre, t := Then(1, s, pre, t, Close(0));
    assert t.blocked && t.callers == [Idle, Read(0, 8)];
    RunKeeps(1, s, pre);
    es := PendingIssues(1, t, 1);
  }

  /** The first two commands of a verify. */
  lemma {:induction false} LoneRead(max: nat, s: Sys, i: nat, n: nat, guess: Code) returns (es: seq<Event>, t: Sys)
    requires i < |s.callers| && s.callers[i] == Idle && !s.blocked && s.active.Some? && s.active.value.issue == Some(n)
    ensures t == Run(max, s, es) && t == s.(callers := s.callers[i := Read(n, guess)])
  {
    es, t := Then(max, s, [], s, Check(i, guess));
    es, t := Then(max, s, es, t, ReadHash(i, true));
  }

  /** A verify that nothing comes between, outside a block and in time: within the limit it
      counts one comparison, and the right code is exchanged for a ticket; beyond the limit the
      hash goes and the block starts. */
  lemma {:induction false} LoneVerify(max: nat, s: Sys, i: nat, n: nat, guess: Code) returns (es: seq<Event>, t: Sys)
    requires i < |s.callers| && s.callers[i] == Idle && !s.blocked && n < |s.issues|
    requires s.active.Some? && s.active.value.issue == Some(n)
    ensures t == Run(max, s, es) && t.callers == s.callers
    ensures var h, x := s.active.value, s.issues[n];
            && (h.attempts >= max ==> t.blocked && t.active.None? && t.issues == s.issues)
            && (h.attempts < max ==> !t.blocked)
            && (h.attempts < max && guess != x.code ==>
                  && t.active == Some(h.(attempts := h.attempts + 1))
                  && t.issues == s.issues[n := x.(compared := x.compared + 1)])
            && (h.attempts < max && guess == x.code ==>
                  && t.active.None?
                  && t.issues == s.issues[n := x.(compared := x.compared + 1, tickets := x.tickets + 1)])
  {
    es, t := LoneRead(max, s, i, n, guess);
    es, t := Then(max, s, es, t, Count(i));
    if t.callers[i] != Idle {
      es, t := Then(max, s, es, t, Close(i));
    }
    assert t.callers == s.callers;
  }

  lemma {:induction false} LoneIssue(max: nat, s0: Sys, es0: seq<Event>, s: Sys, i: nat, callers: seq<Caller>,
        code: Code)
      returns (es: seq<Event>, t: Sys)
    requires s == Run(max, s0, es0) && i < |callers| && callers[i] == Idle && s.callers == callers[i := Issuing]
    ensures t == Run(max, s0, es) && t.callers == callers && t.blocked == s.blocked
    ensures t.issues == s.issues + [Issued(code, 0, 0, 0)] && t.active == Some(Hash(Some(|s.issues|), 0))
  {
    es, t := Then(max, s0, es0, s, IssueCode(i, code));
    assert callers[i := Issuing][i := Idle] == callers;
  }

  /** A request that nothing comes between: nothing during a block, nothing while the active
      code cools down, and otherwise a new code. */
  lemma {:induction false} LoneRequest(max: nat, s: Sys, i: nat, due: bool, code: Code)
      returns (es: seq<Event>, t: Sys)
    requires i < |s.callers| && s.callers[i] == Idle
    ensures t == Run(max, s, es) && t.callers == s.callers && t.blocked == s.blocked
    ensures var refused := s.blocked || (s.active.Some? && s.active.value.issue.Some? && !due);
            && t.issues == (if refused then s.issues else s.issues + [Issued(code, 0, 0, 0)])
            && t.active == (if refused then s.active else Some(Hash(Some(|s.issues|), 0)))
  {
    es, t := Then(max, s, [], s, Ask(i));
    assert s.callers[i := Idle] == s.callers;
    if s.blocked { return; }
    assert t == s.(callers := s.callers[i := Passed]);
    es, t := Then(max, s, es, t, LookRequest(i, due));
    assert s.callers[i := Passed][i := Idle] == s.callers;
    if s.active.Some? && !Due(s.active.value, due) { return; }
    assert t == s.(callers := s.callers[i := Issuing]);
    es, t := LoneIssue(max, s, es, t, i, s.callers, code);
  }

  /** A resend that finds a hash never looks at the block. */
  lemma {:induction false} LoneResend(max: nat, s: Sys, i: nat, due: bool, code: Code) returns (es: seq<Event>, t: Sys)
    requires i < |s.callers| && s.callers[i] == Idle && s.active.Some?
    ensures t == Run(max, s, es) && t.callers == s.callers && t.blocked == s.blocked
    ensures var refused := s.active.value.issue.Some? && !due;
            && t.issues == (if refused then s.issues else s.issues + [Issued(code, 0, 0, 0)])
            && t.active == (if refused then s.active else Some(Hash(Some(|s.issues|), 0)))
  {
    es, t := Then(max, s, [], s, LookResend(i, due));
    assert s.callers[i := Idle] == s.callers;
    if !Due(s.active.value, due) { return; }
    assert t == s.(callers := s.callers[i := Issuing]);
    es, t := LoneIssue(max, s, es, t, i, s.callers, code);
  }
}
