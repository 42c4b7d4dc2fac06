/** One-time passwords (`OtpService`): requesting, resending and verifying codes as a timed
    state machine over the active hash, the block key and the cooldown key of a subject.
    Times are milliseconds; a call reads at `now` and writes at `later`; a Redis key with
    a deadline is gone once the clock passes it. Hashing is injective and left out. */
module Otp {
  import opened Common

  type Subject = nat   // purpose, channel and identifier, hashed
  type Code = nat

  /** Seconds, as configured; all positive. */
  datatype Config = Config(ttl: nat, cooldown: nat, maxAttempts: nat, blockWindow: nat)

  /** The active hash. A field that is missing reads as its default: no code, exp 0,
      resendAt 0. `deadline` is the TTL of the key. */
  datatype Active = Active(code: Option<Code>, attempts: nat, maxAttempts: Option<nat>, exp: int, resendAt: int,
      deadline: Option<int>)

  datatype Keys = Keys(active: Option<Active>, block: Option<int>, cooldown: Option<int>)

  datatype Reply =
    | AlreadyActive(expiresIn: int, resendAvailableIn: int)
    | CodeSent(expiresIn: int, resendAvailableIn: int)
    | Ticket(jti: nat)

  /** What a call did: the keys it left, its answer, and whether it issued or compared a code. */
  datatype Outcome = Outcome(keys: Keys, reply: Result<Reply>, issued: bool, compared: bool)

  function Alive(deadline: Option<int>, t: int): bool {
    deadline.Some? && t <= deadline.value
  }

  /** The active hash as Redis answers at time t. */
  function ReadAt(k: Keys, t: int): Option<Active> {
    if k.active.Some? && k.active.value.deadline.Some? && t > k.active.value.deadline.value then None else k.active
  }

  /** `Math.floor(Date.now() / 1000)` */
  function Epoch(t: int): int {
    t / 1000
  }

  /** `issueNewCode` at time t: replaces the whole hash and starts the cooldown. */
  function Issue(cfg: Config, k: Keys, t: int, code: Code): Keys {
    k.(active := Some(Active(Some(code), 0, Some(cfg.maxAttempts), Epoch(t) + cfg.ttl, Epoch(t) + cfg.cooldown,
                             Some(t + 1000 * cfg.ttl))),
       cooldown := Some(t + 1000 * cfg.cooldown))
  }

  /** Issue a code and send it; sending may fail after the keys are written. */
  function IssueAndSend(cfg: Config, k: Keys, t: int, code: Code, sent: bool): Outcome
  {
    Outcome(Issue(cfg, k, t, code), if sent then Ok(CodeSent(cfg.ttl, cfg.cooldown)) else Err(Internal), true, false)
  }

  /** The answer during the cooldown of an active code, or None when a new one may be issued. */
  function Cooling(a: Option<Active>, now: int): Option<Reply> {
    if a.Some? && Max(0, a.value.resendAt - Epoch(now)) > 0
    then Some(AlreadyActive(Max(0, a.value.exp - Epoch(now)), Max(0, a.value.resendAt - Epoch(now))))
    else None
  }

  function Unchanged(k: Keys, reply: Result<Reply>): Outcome {
    Outcome(k, reply, false, false)
  }

  /** `requestOtp` */
  function RequestOutcome(cfg: Config, k: Keys, admitted: bool, now: int, later: int, code: Code, sent: bool): Outcome
  {
    if !admitted then Unchanged(k, Err(TooManyRequests))
    else if Alive(k.block, now) then Unchanged(k, Err(Forbidden))
    else
      match Cooling(ReadAt(k, now), now)
      case Some(reply) => Unchanged(k, Ok(reply))
      case None => IssueAndSend(cfg, k, later, code, sent)
  }

  /** `resendOtp`: with an active hash the block key is not tested; without one it is a
      request, which consumes the bucket a second time. */
  function ResendOutcome(cfg: Config, k: Keys, admitted: bool, now: int, again: bool, middle: int, later: int,
        code: Code, sent: bool): Outcome
  {
    if !admitted then Unchanged(k, Err(TooManyRequests))
    else if ReadAt(k, now).None? then RequestOutcome(cfg, k, again, middle, later, code, sent)
    else
      match Cooling(ReadAt(k, now), now)
      case Some(reply) => Unchanged(k, Ok(reply))
      case None => IssueAndSend(cfg, k, later, code, sent)
  }

  /** HINCRBY attempts: a hash that has gone meanwhile is created again with that field only. */
  function CountAttempt(k: Keys, t: int): Active {
    match ReadAt(k, t)
    case Some(a) => a.(attempts := a.attempts + 1)
    case None => Active(None, 1, None, 0, 0, None)
  }

  /** `verifyOtp`: HGETALL at `now`, HINCRBY and what follows at `later`. */
  function VerifyOutcome(cfg: Config, k: Keys, admitted: bool, now: int, later: int, guess: Code, jti: nat): Outcome {
    if !admitted then Unchanged(k, Err(TooManyRequests))
    else if Alive(k.block, now) then Unchanged(k, Err(Forbidden))
    else
      match ReadAt(k, now)
      case None => Unchanged(k, Err(BadRequest))
      case Some(hash) =>
        if hash.exp <= Epoch(now) then Unchanged(k.(active := None), Err(BadRequest))
        else
          var a := CountAttempt(k, later);
          var most := if hash.maxAttempts.Some? then hash.maxAttempts.value else cfg.maxAttempts;
          if a.attempts > most then
            Unchanged(k.(active := None, block := Some(later + 1000 * cfg.blockWindow)), Err(Forbidden))
          else if hash.code != Some(guess) then Outcome(k.(active := Some(a)), Err(BadRequest), false, true)
          else Outcome(k.(active := None, cooldown := None), Ok(Ticket(jti)), false, true)
  }

  // ------------------------------------------------------------------------ runs

  /** The history of one issued code: when it was issued, comparisons, tickets, whether a
      comparison came after its key had gone, and whether a verify closed it: removed its
      hash and gave no ticket. */
  datatype Issued = Issued(code: Code, at: int, compared: nat, tickets: nat, late: bool, closed: bool)

  datatype Sys = Sys(keys: Keys, clock: int, issues: seq<Issued>)

  datatype Event =
    | Request(admitted: bool, now: int, later: int, code: Code, sent: bool)
    | Resend(admitted: bool, now: int, again: bool, middle: int, later: int, code: Code, sent: bool)
    | Verify(admitted: bool, now: int, later: int, guess: Code, jti: nat)

  /** Calls run one at a time, and time does not run backwards. */
  predicate Timely(s: Sys, e: Event) {
    s.clock <= e.now <= e.later && (e.Resend? ==> e.now <= e.middle <= e.later)
  }

  function OutcomeOf(cfg: Config, k: Keys, e: Event): Outcome {
    match e
    case Request(admitted, now, later, code, sent) => RequestOutcome(cfg, k, admitted, now, later, code, sent)
    case Resend(admitted, now, again, middle, later, code, sent) =>
      ResendOutcome(cfg, k, admitted, now, again, middle, later, code, sent)
    case Verify(admitted, now, later, guess, jti) => VerifyOutcome(cfg, k, admitted, now, later, guess, jti)
  }

  /** A comparison is always with the code issued last: issuing replaces the hash. */
  function Record(issues: seq<Issued>, k: Keys, o: Outcome, code: Code, at: int, late: bool): seq<Issued> {
    if o.issued then issues + [Issued(code, at, 0, 0, false, false)]
    else if issues == [] then issues
    else
      var last := issues[|issues| - 1];
      issues[|issues| - 1 :=
        if o.compared then last.(compared := last.compared + 1,
            tickets := last.tickets + (if o.reply.Ok? then 1 else 0), late := last.late || late)
        else last.(closed := last.closed || (k.active.Some? && o.keys.active.None?))]
  }

  function Step(cfg: Config, s: Sys, e: Event): Sys {
    if !Timely(s, e) then s
    else
      var o := OutcomeOf(cfg, s.keys, e);
      Sys(o.keys, e.later,
          Record(s.issues, s.keys, o, if e.Verify? then 0 else e.code, e.later, ReadAt(s.keys, e.later).None?))
  }

  function Run(cfg: Config, s: Sys, es: seq<Event>): Sys {
    if es == [] then s else Step(cfg, Run(cfg, s, es[..|es| - 1]), es[|es| - 1])
  }

  const START := Sys(Keys(None, None, None), 0, [])

  // -------------------------------------------------------------------- invariant

  ghost predicate IssuedOk(cfg: Config, i: Issued) {
    i.tickets <= 1 && i.compared <= cfg.maxAttempts + if i.late then 1 else 0
  }

  /** What the history says is stored: the hash of the code issued last, until it has
      yielded a ticket or was closed; a late comparison leaves a hash with its count only. */
  function Stored(cfg: Config, issues: seq<Issued>): Option<Active> {
    if issues == [] then None
    else
      var last := issues[|issues| - 1];
      if last.tickets > 0 || last.closed then None
      else if last.late then Some(Active(None, 1, None, 0, 0, None))
      else Some(Active(Some(last.code), last.compared, Some(cfg.maxAttempts), Epoch(last.at) + cfg.ttl,
                       Epoch(last.at) + cfg.cooldown, Some(last.at + 1000 * cfg.ttl)))
  }

  ghost predicate Inv(cfg: Config, s: Sys) {
    && s.clock >= 0
    && (s.keys.active.Some? && s.keys.block.Some? ==> s.keys.block.value < s.clock)
    && s.keys.active == Stored(cfg, s.issues)
    && (forall i :: 0 <= i < |s.issues| ==> IssuedOk(cfg, s.issues[i]))
  }

  lemma {:induction false} ClockKeeps(cfg: Config, s: Sys, later: int)
    requires Inv(cfg, s) && s.clock <= later
    ensures Inv(cfg, s.(clock := later))
  {
  }

  /** A new code, when no block is live. */
  lemma {:induction false} IssueKeeps(cfg: Config, s: Sys, later: int, code: Code)
    requires Inv(cfg, s) && s.clock <= later && (s.keys.block.Some? ==> s.keys.block.value < later)
    ensures Inv(cfg, Sys(Issue(cfg, s.keys, later, code), later, s.issues + [Issued(code, later, 0, 0, false, false)]))
  {
  }

  lemma {:induction false} RequestStepKeeps(cfg: Config, s: Sys, e: Event)
    requires Inv(cfg, s) && e.Request? && Timely(s, e)
    ensures Inv(cfg, Step(cfg, s, e))
  {
    if OutcomeOf(cfg, s.keys, e).issued { IssueKeeps(cfg, s, e.later, e.code); } else { ClockKeeps(cfg, s, e.later); }
  }

  lemma {:induction false} ResendStepKeeps(cfg: Config, s: Sys, e: Event)
    requires Inv(cfg, s) && e.Resend? && Timely(s, e)
    ensures Inv(cfg, Step(cfg, s, e))
  {
    if OutcomeOf(cfg, s.keys, e).issued { IssueKeeps(cfg, s, e.later, e.code); } else { ClockKeeps(cfg, s, e.later); }
  }

  /** What a verify leaves of the last code, when it compares. */
  lemma {:induction false} CompareKeeps(cfg: Config, s: Sys, e: Event)
    requires Inv(cfg, s) && e.Verify? && Timely(s, e) && OutcomeOf(cfg, s.keys, e).compared
    ensures Inv(cfg, Step(cfg, s, e))
  {
    var s' := Step(cfg, s, e);
    var last := |s.issues| - 1;
    assert IssuedOk(cfg, s.issues[last]);
    forall i | 0 <= i < |s'.issues| ensures IssuedOk(cfg, s'.issues[i]) {
      if i < last { assert IssuedOk(cfg, s.issues[i]); }
    }
  }

  lemma {:induction false} VerifyStepKeeps(cfg: Config, s: Sys, e: Event)
    requires Inv(cfg, s) && e.Verify? && Timely(s, e)
    ensures Inv(cfg, Step(cfg, s, e))
  {
    if OutcomeOf(cfg, s.keys, e).compared { CompareKeeps(cfg, s, e); }
  }

  lemma {:induction false} StepKeeps(cfg: Config, s: Sys, e: Event)
    requires Inv(cfg, s)
    ensures Inv(cfg, Step(cfg, s, e))
  {
    if Timely(s, e) {
      match e
      case Request(_, _, _, _, _) => RequestStepKeeps(cfg, s, e);
      case Resend(_, _, _, _, _, _, _) => ResendStepKeeps(cfg, s, e);
      case Verify(_, _, _, _, _) => VerifyStepKeeps(cfg, s, e);
    }
  }

  lemma {:induction false} RunKeeps(cfg: Config, es: seq<Event>)
    ensures Inv(cfg, Run(cfg, START, es))
  {
    if es != [] {
      RunKeeps(cfg, es[..|es| - 1]);
      StepKeeps(cfg, Run(cfg, START, es[..|es| - 1]), es[|es| - 1]);
    }
  }

  // --------------------------------------------------------------------- theorems

  /** While a block is live there is no active code, in every run of whole calls. */
  lemma {:induction false} BlockMeansNoCode(cfg: Config, es: seq<Event>)
    ensures var s := Run(cfg, START, es); Alive(s.keys.block, s.clock) ==> s.keys.active.None?
  {
    RunKeeps(cfg, es);
  }

  /** No code is issued during a block, although a resend with an active hash never tests it. */
  lemma {:induction false} NoCodeDuringBlock(cfg: Config, es: seq<Event>, e: Event)
    requires Timely(Run(cfg, START, es), e) && OutcomeOf(cfg, Run(cfg, START, es).keys, e).issued
    ensures !Alive(Run(cfg, START, es).keys.block, e.later)
  {
    RunKeeps(cfg, es);
  }

  /** Every issued code yields at most one ticket and is compared at most maxAttempts
      times, once more only if a comparison came after its key had gone. */
  lemma {:induction false} CodeUseBounded(cfg: Config, es: seq<Event>, i: nat)
    requires i < |Run(cfg, START, es).issues|
    ensures var c := Run(cfg, START, es).issues[i];
            c.tickets <= 1 && c.compared <= cfg.maxAttempts + if c.late then 1 else 0
  {
    RunKeeps(cfg, es);
    assert IssuedOk(cfg, Run(cfg, START, es).issues[i]);
  }

  /** A ticket is handed out only for the code issued last, before its time is up, and
      only if it has yielded none. */
  lemma {:induction false} TicketNeedsLastCode(cfg: Config, es: seq<Event>, e: Event)
    requires e.Verify? && Timely(Run(cfg, START, es), e)
    requires OutcomeOf(cfg, Run(cfg, START, es).keys, e).reply.Ok?
    ensures var issues := Run(cfg, START, es).issues;
            && issues != []
            && var last := issues[|issues| - 1];
               last.code == e.guess && last.tickets == 0 && Epoch(e.now) < Epoch(last.at) + cfg.ttl
  {
    RunKeeps(cfg, es);
  }

  /** While a code is unsolved the next one comes no earlier than its cooldown, or its
      lifetime if that is shorter. */
  lemma {:induction false} IssuesAreSpaced(cfg: Config, es: seq<Event>, e: Event)
    requires Timely(Run(cfg, START, es), e) && OutcomeOf(cfg, Run(cfg, START, es).keys, e).issued
    requires var a := Run(cfg, START, es).keys.active; a.Some? && a.value.code.Some?
    ensures var issues := Run(cfg, START, es).issues;
            && issues != []
            && (|| Epoch(e.later) >= Epoch(issues[|issues| - 1].at) + cfg.cooldown
                || Epoch(e.later) >= Epoch(issues[|issues| - 1].at) + cfg.ttl)
  {
    RunKeeps(cfg, es);
  }

  /** A block begins only when the last code has been compared exactly maxAttempts times. */
  lemma {:induction false} BlockNeedsExhaustion(cfg: Config, es: seq<Event>, e: Event)
    requires cfg.maxAttempts >= 1
    requires var s := Run(cfg, START, es); Step(cfg, s, e).keys.block != s.keys.block
    ensures e.Verify? && Step(cfg, Run(cfg, START, es), e).keys.block == Some(e.later + 1000 * cfg.blockWindow)
    ensures var issues := Run(cfg, START, es).issues;
            issues != [] && issues[|issues| - 1].compared == cfg.maxAttempts
  {
    RunKeeps(cfg, es);
  }

  /** And it lasts: until its deadline no call changes any key, so no code is issued or compared. */
  lemma {:induction false} BlockLasts(cfg: Config, s: Sys, es: seq<Event>)
    requires Inv(cfg, s) && s.keys.active.None? && s.keys.block.Some?
    requires forall e :: e in es ==> e.later <= s.keys.block.value
    ensures Run(cfg, s, es).keys == s.keys && Run(cfg, s, es).issues == s.issues
  {
    if es != [] {
      var n := |es| - 1;
      assert forall e :: e in es[..n] ==> e in es;
      BlockLasts(cfg, s, es[..n]);
      assert es[n] in es;
    }
  }

  /** The key had all its attempts used and was alive when read, but not when counted. */
  predicate Overruns(cfg: Config, s: Sys, e: Event) {
    && e.Verify? && e.admitted && Timely(s, e) && !Alive(s.keys.block, e.now)
    && var a := ReadAt(s.keys, e.now);
       && a.Some? && a.value.exp > Epoch(e.now) && a.value.attempts == cfg.maxAttempts >= 1
       && ReadAt(s.keys, e.later).None?
  }

  ghost predicate WithinLimit(cfg: Config, s: Sys) {
    forall i :: 0 <= i < |s.issues| ==> s.issues[i].compared <= cfg.maxAttempts
  }

  /** The limit on comparisons is exceeded by exactly those calls. */
  lemma {:induction false} OverrunIff(cfg: Config, es: seq<Event>, e: Event)
    requires cfg.maxAttempts >= 1
    requires WithinLimit(cfg, Run(cfg, START, es))
    ensures WithinLimit(cfg, Step(cfg, Run(cfg, START, es), e)) <==> !Overruns(cfg, Run(cfg, START, es), e)
  {
    RunKeeps(cfg, es);
    var s := Run(cfg, START, es);
    var s' := Step(cfg, s, e);
    if Overruns(cfg, s, e) {
      var last := |s'.issues| - 1;
      assert s'.issues[last].compared == cfg.maxAttempts + 1;
      assert !WithinLimit(cfg, s');
    } else {
      forall i | 0 <= i < |s'.issues| ensures s'.issues[i].compared <= cfg.maxAttempts {
        if i < |s.issues| { assert s.issues[i].compared <= cfg.maxAttempts; }
      }
      assert WithinLimit(cfg, s');
    }
  }

  lemma {:induction false} NeverForgotten(cfg: Config, s: Sys, e: Event)
    requires !WithinLimit(cfg, s)
    ensures !WithinLimit(cfg, Step(cfg, s, e))
  {
    var i :| 0 <= i < |s.issues| && s.issues[i].compared > cfg.maxAttempts;
    var s' := Step(cfg, s, e);
    assert s'.issues[i].compared > cfg.maxAttempts;
  }

  predicate OverrunAt(cfg: Config, es: seq<Event>, k: nat)
    requires k < |es|
  {
    Overruns(cfg, Run(cfg, START, es[..k]), es[k])
  }

  lemma OverrunInPrefix(cfg: Config, es: seq<Event>, n: nat, k: nat)
    requires k < n <= |es|
    ensures OverrunAt(cfg, es[..n], k) <==> OverrunAt(cfg, es, k)
  {
    assert es[..n][..k] == es[..k] && es[..n][k] == es[k];
  }

  lemma {:induction false} LimitStep(cfg: Config, es: seq<Event>, e: Event)
    requires cfg.maxAttempts >= 1
    ensures var s := Run(cfg, START, es);
            WithinLimit(cfg, Step(cfg, s, e)) <==> WithinLimit(cfg, s) && !Overruns(cfg, s, e)
  {
    if WithinLimit(cfg, Run(cfg, START, es)) {
      OverrunIff(cfg, es, e);
    } else {
      NeverForgotten(cfg, Run(cfg, START, es), e);
    }
  }

  /** Over whole runs: every code stays within maxAttempts comparisons if and only if no
      call counts its attempt after the exhausted key it read has gone. */
  lemma {:induction false} LimitHoldsIff(cfg: Config, es: seq<Event>)
    requires cfg.maxAttempts >= 1
    ensures WithinLimit(cfg, Run(cfg, START, es)) <==> forall k :: 0 <= k < |es| ==> !OverrunAt(cfg, es, k)
  {
    if es != [] {
      var n := |es| - 1;
      LimitHoldsIff(cfg, es[..n]);
      forall k | 0 <= k < n ensures OverrunAt(cfg, es[..n], k) <==> OverrunAt(cfg, es, k) {
        OverrunInPrefix(cfg, es, n, k);
      }
      LimitStep(cfg, es[..n], es[n]);
      assert Run(cfg, START, es) == Step(cfg, Run(cfg, START, es[..n]), es[n]);
      assert OverrunAt(cfg, es, n) <==> Overruns(cfg, Run(cfg, START, es[..n]), es[n]);
    }
  }

  /** And such a run exists: one attempt allowed, two comparisons made. */
  lemma OverrunHappens() returns (cfg: Config, es: seq<Event>)
    ensures cfg.maxAttempts == 1 && !WithinLimit(cfg, Run(cfg, START, es))
  {
    cfg := Config(300, 120, 1, 900);
    var e0 := Request(true, 0, 0, 111111, true);
    var e1 := Verify(true, 1000, 1000, 222222, 1);
    var e2 := Verify(true, 299_999, 300_001, 333333, 2);
    es := [e0, e1, e2];
    assert es[..2] == [e0, e1] && [e0, e1][..1] == [e0] && [e0][..0] == [];
    var s1 := Step(cfg, START, e0);
    assert Run(cfg, START, [e0]) == s1;
    var s2 := Step(cfg, s1, e1);
    assert Run(cfg, START, [e0, e1]) == s2;
    assert s2.keys.active == Some(Active(Some(111111), 1, Some(1), 300, 120, Some(300_000)));
    assert s2.issues == [Issued(111111, 0, 1, 0, false, false)];
    var s3 := Step(cfg, s2, e2);
    assert s3.issues[0].compared == 2;
  }

  // ---------------------------------------------------- answers, from the history alone

  /** Without admission or during a block a verify changes nothing; without any code issued
      it is refused. */
  lemma {:induction false} VerifyRefused(cfg: Config, es: seq<Event>, e: Event)
    requires e.Verify? && Timely(Run(cfg, START, es), e)
    ensures var s, s', r := Run(cfg, START, es), Step(cfg, Run(cfg, START, es), e),
                            OutcomeOf(cfg, Run(cfg, START, es).keys, e).reply;
            var blocked := s.keys.block.Some? && e.now <= s.keys.block.value;
            && (!e.admitted ==> r == Err(TooManyRequests))
            && (e.admitted && blocked ==> r == Err(Forbidden))
            && (e.admitted && !blocked && s.issues == [] ==> r == Err(BadRequest))
            && (!e.admitted || blocked || s.issues == [] ==> s'.keys == s.keys && s'.issues == s.issues)
  {
    RunKeeps(cfg, es);
  }

  /** An admitted verify outside a block: the code issued last opens exactly if it has no
      ticket, no comparison came after its key had gone, no verify closed it, its key and its
      time are not up at the read, and the attempt is within the limit. The attempt is one
      more than the comparisons so far, or the first if the key has gone when it is counted. */
  lemma {:induction false} VerifyAnswers(cfg: Config, es: seq<Event>, e: Event, last: Issued)
    requires e.Verify? && e.admitted && Timely(Run(cfg, START, es), e)
    requires var s := Run(cfg, START, es);
             && !(s.keys.block.Some? && e.now <= s.keys.block.value)
             && s.issues != [] && last == s.issues[|s.issues| - 1]
    ensures var s, s', r := Run(cfg, START, es), Step(cfg, Run(cfg, START, es), e),
                            OutcomeOf(cfg, Run(cfg, START, es).keys, e).reply;
            var kept := last.tickets == 0 && !last.closed && (last.late || e.now <= last.at + 1000 * cfg.ttl);
            var open := kept && !last.late && e.now / 1000 < last.at / 1000 + cfg.ttl;
            var count := if e.later <= last.at + 1000 * cfg.ttl then last.compared + 1 else 1;
            && (r.Ok? <==> open && count <= cfg.maxAttempts && last.code == e.guess)
            && (r.Ok? ==> r == Ok(Ticket(e.jti)))
            && (r.Err? ==> r == Err(if open && count > cfg.maxAttempts then Forbidden else BadRequest))
            && |s'.issues| == |s.issues| && s'.issues[..|s.issues| - 1] == s.issues[..|s.issues| - 1]
            && s'.issues[|s.issues| - 1] ==
                 (if open && count <= cfg.maxAttempts
                  then Issued(last.code, last.at, last.compared + 1, if last.code == e.guess then 1 else 0,
                              e.later > last.at + 1000 * cfg.ttl, false)
                  else last.(closed := last.closed || kept))
            && s'.keys.block == (if open && count > cfg.maxAttempts then Some(e.later + 1000 * cfg.blockWindow)
                                 else s.keys.block)
  {
    RunKeeps(cfg, es);
  }

  /** A request: refused, answered from the active code while it cools down, or a new code. */
  lemma {:induction false} RequestAnswers(cfg: Config, es: seq<Event>, e: Event)
    requires e.Request? && Timely(Run(cfg, START, es), e)
    ensures var s, s', r := Run(cfg, START, es), Step(cfg, Run(cfg, START, es), e),
                            OutcomeOf(cfg, Run(cfg, START, es).keys, e).reply;
            var blocked := s.keys.block.Some? && e.now <= s.keys.block.value;
            var cooling := s.issues != [] && var last := s.issues[|s.issues| - 1];
              && last.tickets == 0 && !last.closed && !last.late && e.now <= last.at + 1000 * cfg.ttl
              && e.now / 1000 < last.at / 1000 + cfg.cooldown;
            && (!e.admitted ==> r == Err(TooManyRequests))
            && (e.admitted && blocked ==> r == Err(Forbidden))
            && (e.admitted && !blocked && cooling ==>
                  var last := s.issues[|s.issues| - 1];
                  var left := last.at / 1000 + cfg.ttl - e.now / 1000;
                  r == Ok(AlreadyActive(if left < 0 then 0 else left, last.at / 1000 + cfg.cooldown - e.now / 1000)))
            && (e.admitted && !blocked && !cooling ==>
                  r == if e.sent then Ok(CodeSent(cfg.ttl, cfg.cooldown)) else Err(Internal))
            && s'.keys.block == s.keys.block
            && s'.issues == if e.admitted && !blocked && !cooling
                            then s.issues + [Issued(e.code, e.later, 0, 0, false, false)] else s.issues
  {
    RunKeeps(cfg, es);
  }

  /** A resend: like a request, but an unsolved code answers without the block key, and
      without one the request after it passes the rate limit a second time. */
  lemma {:induction false} ResendAnswers(cfg: Config, es: seq<Event>, e: Event)
    requires e.Resend? && Timely(Run(cfg, START, es), e)
    ensures var s, s', r := Run(cfg, START, es), Step(cfg, Run(cfg, START, es), e),
                            OutcomeOf(cfg, Run(cfg, START, es).keys, e).reply;
            var kept := s.issues != [] && var last := s.issues[|s.issues| - 1];
              last.tickets == 0 && !last.closed && (last.late || e.now <= last.at + 1000 * cfg.ttl);
            var cooling := kept && var last := s.issues[|s.issues| - 1];
              !last.late && e.now / 1000 < last.at / 1000 + cfg.cooldown;
            var blocked := !kept && s.keys.block.Some? && e.middle <= s.keys.block.value;
            var passed := e.admitted && (kept || e.again);
            && (!passed ==> r == Err(TooManyRequests))
            && (passed && blocked ==> r == Err(Forbidden))
            && (passed && cooling ==>
                  var last := s.issues[|s.issues| - 1];
                  var left := last.at / 1000 + cfg.ttl - e.now / 1000;
                  r == Ok(AlreadyActive(if left < 0 then 0 else left, last.at / 1000 + cfg.cooldown - e.now / 1000)))
            && (passed && !blocked && !cooling ==>
                  r == if e.sent then Ok(CodeSent(cfg.ttl, cfg.cooldown)) else Err(Internal))
            && s'.keys.block == s.keys.block
            && s'.issues == if passed && !blocked && !cooling
                            then s.issues + [Issued(e.code, e.later, 0, 0, false, false)] else s.issues
  {
    RunKeeps(cfg, es);
  }

  // -------------------------------------------------------------------- service

  class OtpService {
    const cfg: Config
    var active: map<Subject, Active>
    var block: map<Subject, int>
    var cooldown: map<Subject, int>
    var tickets: set<nat>

    constructor (cfg: Config)
      ensures this.cfg == cfg && active == map[] && block == map[] && cooldown == map[] && tickets == {}
    {
      this.cfg := cfg;
      active, block, cooldown, tickets := map[], map[], map[], {};
    }

    /** The keys of one subject. */
    ghost function View(s: Subject): Keys
      reads this
    {
      Keys(Lookup(active, s), Lookup(block, s), Lookup(cooldown, s))
    }

    /** `issueNewCode` */
    method IssueNewCode(s: Subject, t: int, code: Code)
      modifies this`active, this`cooldown
      ensures View(s) == Issue(cfg, old(View(s)), t, code)
      ensures active == old(active)[s := Active(Some(code), 0, Some(cfg.maxAttempts), t / 1000 + cfg.ttl,
                                                t / 1000 + cfg.cooldown, Some(t + 1000 * cfg.ttl))]
      ensures cooldown == old(cooldown)[s := t + 1000 * cfg.cooldown]
      ensures forall x :: x != s ==> View(x) == old(View(x))
    {
      active := active[s := Active(Some(code), 0, Some(cfg.maxAttempts), Epoch(t) + cfg.ttl, Epoch(t) + cfg.cooldown,
                                   Some(t + 1000 * cfg.ttl))];
      cooldown := cooldown[s := t + 1000 * cfg.cooldown];
    }

    /** HGETALL */
    method ReadActive(s: Subject, t: int) returns (r: Option<Active>)
      ensures r == ReadAt(View(s), t)
    {
      if s !in active { return None; }
      var a := active[s];
      r := if a.deadline.Some? && t > a.deadline.value then None else Some(a);
    }

    method RequestOtp(s: Subject, admitted: bool, now: int, later: int, code: Code, sent: bool)
        returns (r: Result<Reply>)
      modifies this`active, this`cooldown
      ensures var o := RequestOutcome(cfg, old(View(s)), admitted, now, later, code, sent);
              View(s) == o.keys && r == o.reply
      ensures forall x :: x != s ==> View(x) == old(View(x))
    {
      if !admitted { return Err(TooManyRequests); }
      if s in block && now <= block[s] { return Err(Forbidden); }
      var hash := ReadActive(s, now);
      if hash.Some? {
        var resendRemaining := Max(0, hash.value.resendAt - Epoch(now));
        var expiresIn := Max(0, hash.value.exp - Epoch(now));
        if resendRemaining > 0 { return Ok(AlreadyActive(expiresIn, resendRemaining)); }
      }
      IssueNewCode(s, later, code);
      if !sent { return Err(Internal); }
      r := Ok(CodeSent(cfg.ttl, cfg.cooldown));
    }

    method ResendOtp(s: Subject, admitted: bool, now: int, again: bool, middle: int, later: int, code: Code, sent: bool)
        returns (r: Result<Reply>)
      modifies this`active, this`cooldown
      ensures var o := ResendOutcome(cfg, old(View(s)), admitted, now, again, middle, later, code, sent);
              View(s) == o.keys && r == o.reply
      ensures forall x :: x != s ==> View(x) == old(View(x))
    {
      if !admitted { return Err(TooManyRequests); }
      var hash := ReadActive(s, now);
      if hash.None? {
        r := RequestOtp(s, again, middle, later, code, sent);
        return;
      }
      var resendRemaining := Max(0, hash.value.resendAt - Epoch(now));
      if resendRemaining > 0 {
        return Ok(AlreadyActive(Max(0, hash.value.exp - Epoch(now)), resendRemaining));
      }
      IssueNewCode(s, later, code);
      if !sent { return Err(Internal); }
      r := Ok(CodeSent(cfg.ttl, cfg.cooldown));
    }

    method VerifyOtp(s: Subject, admitted: bool, now: int, later: int, guess: Code, jti: nat) returns (r: Result<Reply>)
      modifies this
      ensures var o := VerifyOutcome(cfg, old(View(s)), admitted, now, later, guess, jti);
              View(s) == o.keys && r == o.reply
      ensures tickets == if r.Ok? then old(tickets) + {jti} else old(tickets)
      ensures cooldown == if r.Ok? then old(cooldown) - {s} else old(cooldown)
      ensures forall x :: x != s ==> View(x) == old(View(x))
    {
      if !admitted { return Err(TooManyRequests); }
      if s in block && now <= block[s] { return Err(Forbidden); }
      var hash := ReadActive(s, now);
      if hash.None? { return Err(BadRequest); }
      if hash.value.exp <= Epoch(now) {
        active := active - {s};
        return Err(BadRequest);
      }
      var current := ReadActive(s, later);
      var counted := if current.Some? then current.value.(attempts := current.value.attempts + 1)
                     else Active(None, 1, None, 0, 0, None);
      active := active[s := counted];
      var most := if hash.value.maxAttempts.Some? then hash.value.maxAttempts.value else cfg.maxAttempts;
      if counted.attempts > most {
        active := active - {s};
        block := block[s := later + 1000 * cfg.blockWindow];
        return Err(Forbidden);
      }
      if hash.value.code != Some(guess) { return Err(BadRequest); }
      active := active - {s};
      cooldown := cooldown - {s};
      tickets := tickets + {jti};
      r := Ok(Ticket(jti));
    }
  }
}
