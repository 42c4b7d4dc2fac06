/** Sessions and their two indexes, with the calls of `SessionService` interleaved command by
    command: `touch` is a GET and then a MULTI, `revoke` and the clean-up of stale members are
    plain pipelines. */
module SessionIndexes {
  import opened AuthTokens
  import opened Common

  datatype Worker =
    | Idle
    | Touching(k: Key)            // touch: past the GET, before the MULTI
    | Cleaning(k: Key, at: nat)   // a pipeline: 0 DEL of the record, 1 SREM, 2 ZREM

  /** The records with their lastUsedAt, the members of SET and ZSET, every session ever created. */
  datatype Sys = Sys(session: map<Key, int>, index: set<Key>, zindex: map<Key, int>, used: set<Key>,
                     workers: seq<Worker>)

  datatype Event =
    | Create(k: Key, now: int)         // one MULTI; the session id is a fresh UUID
    | TouchRead(i: nat, k: Key)
    | TouchWrite(i: nat, now: int)
    | StartRevoke(i: nat, k: Key)
    | FindStale(i: nat, k: Key)        // list: the GET of a member found no record
    | Next(i: nat)                     // the next command of a pipeline
    | Expire(k: Key)                   // the record's TTL

  function Set(s: Sys, i: nat, w: Worker): Sys
    requires i < |s.workers|
  {
    s.(workers := s.workers[i := w])
  }

  predicate IdleAt(s: Sys, i: nat) {
    i < |s.workers| && s.workers[i].Idle?
  }

  function Pipeline(s: Sys, i: nat): Sys
    requires i < |s.workers| && s.workers[i].Cleaning?
  {
    var w := s.workers[i];
    if w.at == 0 then Set(s, i, w.(at := 1)).(session := s.session - {w.k})
    else if w.at == 1 then Set(s, i, w.(at := 2)).(index := s.index - {w.k})
    else Set(s, i, Idle).(zindex := s.zindex - {w.k})
  }

  function Step(s: Sys, e: Event): Sys {
    match e
    case Create(k, now) =>
      if k in s.used then s
      else s.(session := s.session[k := now], index := s.index + {k}, zindex := s.zindex[k := now],
              used := s.used + {k})
    case TouchRead(i, k) => if IdleAt(s, i) && k in s.session then Set(s, i, Touching(k)) else s
    case TouchWrite(i, now) =>
      if i < |s.workers| && s.workers[i].Touching? then
        var k := s.workers[i].k;
        Set(s, i, Idle).(session := s.session[k := now], zindex := s.zindex[k := now])
      else s
    case StartRevoke(i, k) => if IdleAt(s, i) && k in s.used then Set(s, i, Cleaning(k, 0)) else s
    case FindStale(i, k) => if IdleAt(s, i) && k in s.used && k !in s.session then Set(s, i, Cleaning(k, 1)) else s
    case Next(i) => if i < |s.workers| && s.workers[i].Cleaning? then Pipeline(s, i) else s
    case Expire(k) => s.(session := s.session - {k})
  }

  function Run(s: Sys, es: seq<Event>): Sys {
    if es == [] then s else Step(Run(s, es[..|es| - 1]), es[|es| - 1])
  }

  ghost predicate Initial(s: Sys) {
    && s.session == map[] && s.index == {} && s.zindex == map[] && s.used == {}
    && forall i :: 0 <= i < |s.workers| ==> s.workers[i] == Idle
  }

  // ------------------------------------------------------------------ invariant

  /** Between the SREM and the ZREM of its session. */
  predicate Halfway(w: Worker, k: Key) {
    w.Cleaning? && w.k == k && w.at >= 2
  }

  ghost predicate WorkerOk(s: Sys, w: Worker) {
    && (w.Touching? ==> w.k in s.used)
    && (w.Cleaning? ==> w.k in s.used && (w.at >= 2 ==> w.k !in s.index))
  }

  /** The SET never holds a member the ZSET lacks; a member has its record's lastUsedAt as score. */
  ghost predicate Inv(s: Sys) {
    && (forall k :: k in s.index ==> k in s.zindex)
    && (forall k :: k in s.zindex ==> k in s.used)
    && (forall k :: k in s.session ==> k in s.used)
    && (forall k :: k in s.session && k in s.zindex ==> s.zindex[k] == s.session[k])
    && (forall i :: 0 <= i < |s.workers| ==> WorkerOk(s, s.workers[i]))
  }

  lemma {:induction false} PipelineKeeps(s: Sys, i: nat)
    requires Inv(s) && i < |s.workers| && s.workers[i].Cleaning?
    ensures Inv(Pipeline(s, i))
  {
    var t := Pipeline(s, i);
    assert WorkerOk(s, s.workers[i]);
    forall h | 0 <= h < |t.workers| ensures WorkerOk(t, t.workers[h]) { assert WorkerOk(s, s.workers[h]); }
  }

  lemma {:induction false} StepKeeps(s: Sys, e: Event)
    requires Inv(s)
    ensures Inv(Step(s, e))
  {
    if e.Next? {
      if e.i < |s.workers| && s.workers[e.i].Cleaning? { PipelineKeeps(s, e.i); }
    } else {
      var t := Step(s, e);
      if e.TouchWrite? && e.i < |s.workers| { assert WorkerOk(s, s.workers[e.i]); }
      forall h | 0 <= h < |t.workers| ensures WorkerOk(t, t.workers[h]) { assert WorkerOk(s, s.workers[h]); }
    }
  }

  /** Over every interleaving of create, touch, revoke, list and expiry. */
  lemma {:induction false} RunKeeps(s: Sys, es: seq<Event>)
    requires Inv(s)
    ensures Inv(Run(s, es))
  {
    if es != [] {
      RunKeeps(s, es[..|es| - 1]);
      StepKeeps(Run(s, es[..|es| - 1]), es[|es| - 1]);
    }
  }

  // ------------------------------------------------------- the two indexes

  ghost predicate BeingRemoved(s: Sys, k: Key) {
    exists i :: 0 <= i < |s.workers| && Halfway(s.workers[i], k)
  }

  /** The indexes have the same members, but for those whose removal is under way. */
  ghost predicate SameMembers(s: Sys) {
    forall k :: k in s.zindex ==> k in s.index || BeingRemoved(s, k)
  }

  /** A touch writes a session that was taken out of the SET since its GET or before. */
  ghost predicate Strays(s: Sys, e: Event) {
    && e.TouchWrite? && e.i < |s.workers| && s.workers[e.i].Touching?
    && s.workers[e.i].k !in s.index && !BeingRemoved(s, s.workers[e.i].k)
  }

  lemma RemovalStays(s: Sys, t: Sys, k: Key)
    requires |t.workers| == |s.workers| && BeingRemoved(s, k)
    requires forall i :: 0 <= i < |s.workers| && Halfway(s.workers[i], k) ==> t.workers[i] == s.workers[i]
    ensures BeingRemoved(t, k)
  {
    var i :| 0 <= i < |s.workers| && Halfway(s.workers[i], k);
    assert Halfway(t.workers[i], k);
  }

  lemma {:induction false} PipelineSame(s: Sys, i: nat)
    requires Inv(s) && SameMembers(s) && i < |s.workers| && s.workers[i].Cleaning?
    ensures SameMembers(Pipeline(s, i))
  {
    var t, w := Pipeline(s, i), s.workers[i];
    forall k | k in t.zindex ensures k in t.index || BeingRemoved(t, k) {
      if k == w.k && w.at == 1 {
        assert Halfway(t.workers[i], k);
      } else if k !in s.index {
        RemovalStays(s, t, k);
      }
    }
  }

  lemma {:induction false} TouchSameIff(s: Sys, e: Event)
    requires Inv(s) && SameMembers(s) && e.TouchWrite?
    ensures SameMembers(Step(s, e)) <==> !Strays(s, e)
  {
    var t := Step(s, e);
    if e.i < |s.workers| && s.workers[e.i].Touching? {
      var k := s.workers[e.i].k;
      forall h | h in t.zindex && h !in s.index && BeingRemoved(s, h) ensures BeingRemoved(t, h) {
        RemovalStays(s, t, h);
      }
      if Strays(s, e) {
        assert !BeingRemoved(t, k) by {
          forall i | 0 <= i < |t.workers| ensures !Halfway(t.workers[i], k) {
            assert i != e.i ==> t.workers[i] == s.workers[i];
          }
        }
        assert k in t.zindex;
      }
    }
  }

  /** A step parts the indexes if and only if it is such a write. */
  lemma {:induction false} SameMembersStepIff(s: Sys, e: Event)
    requires Inv(s) && SameMembers(s)
    ensures SameMembers(Step(s, e)) <==> !Strays(s, e)
  {
    if e.TouchWrite? {
      TouchSameIff(s, e);
    } else if e.Next? {
      if e.i < |s.workers| && s.workers[e.i].Cleaning? { PipelineSame(s, e.i); }
    } else {
      var t := Step(s, e);
      forall k | k in t.zindex ensures k in t.index || BeingRemoved(t, k) {
        if k !in t.index { RemovalStays(s, t, k); }
      }
    }
  }

  ghost predicate SameThroughout(s: Sys, es: seq<Event>) {
    SameMembers(Run(s, es)) && (es != [] ==> SameThroughout(s, es[..|es| - 1]))
  }

  ghost predicate NeverStrays(s: Sys, es: seq<Event>) {
    es == [] || (NeverStrays(s, es[..|es| - 1]) && !Strays(Run(s, es[..|es| - 1]), es[|es| - 1]))
  }

  /** Over runs: SET and ZSET keep the same members if and only if no touch writes a session
      that is no longer in the SET. */
  lemma {:induction false} SameMembersIff(s: Sys, es: seq<Event>)
    requires Initial(s)
    ensures SameThroughout(s, es) <==> NeverStrays(s, es)
  {
    if es != [] {
      var p, e := es[..|es| - 1], es[|es| - 1];
      SameMembersIff(s, p);
      RunKeeps(s, p);
      if SameMembers(Run(s, p)) { SameMembersStepIff(Run(s, p), e); }
    }
  }

  /** With no removal under way it is plain equality. */
  lemma SettledIndexes(s: Sys)
    requires Inv(s) && SameMembers(s) && forall k :: !BeingRemoved(s, k)
    ensures s.index == s.zindex.Keys
  {
  }

  // ---------------------------------------------------------- live sessions

  /** Every live session is in the SET, so that `list` and `revokeAll` see it. */
  ghost predicate Listed(s: Sys) {
    forall k :: k in s.session ==> k in s.index
  }

  /** A touch writes a session that is not in the SET, or a pipeline takes a live one out. */
  predicate Unlists(s: Sys, e: Event) {
    || (e.TouchWrite? && e.i < |s.workers| && s.workers[e.i].Touching? && s.workers[e.i].k !in s.index)
    || (e.Next? && e.i < |s.workers| && s.workers[e.i].Cleaning? && s.workers[e.i].at == 1
        && s.workers[e.i].k in s.session)
  }

  lemma {:induction false} ListedStepIff(s: Sys, e: Event)
    requires Listed(s)
    ensures Listed(Step(s, e)) <==> !Unlists(s, e)
  {
    var t := Step(s, e);
    if Unlists(s, e) { assert s.workers[e.i].k in t.session && s.workers[e.i].k !in t.index; }
  }

  ghost predicate ListedThroughout(s: Sys, es: seq<Event>) {
    Listed(Run(s, es)) && (es != [] ==> ListedThroughout(s, es[..|es| - 1]))
  }

  predicate NeverUnlists(s: Sys, es: seq<Event>) {
    es == [] || (NeverUnlists(s, es[..|es| - 1]) && !Unlists(Run(s, es[..|es| - 1]), es[|es| - 1]))
  }

  /** Over runs: every live session is in the SET if and only if no such step occurs. */
  lemma {:induction false} ListedIff(s: Sys, es: seq<Event>)
    requires Initial(s)
    ensures ListedThroughout(s, es) <==> NeverUnlists(s, es)
  {
    if es != [] {
      var p, e := es[..|es| - 1], es[|es| - 1];
      ListedIff(s, p);
      if Listed(Run(s, p)) { ListedStepIff(Run(s, p), e); }
    }
  }

  // ------------------------------------------------------- revoked sessions

  /** The record is gone and no touch of it is under way. */
  ghost predicate Gone(s: Sys, k: Key) {
    && k in s.used && k !in s.session
    && forall i :: 0 <= i < |s.workers| ==> s.workers[i] != Touching(k)
  }

  lemma {:induction false} GoneStays(s: Sys, e: Event, k: Key)
    requires Gone(s, k)
    ensures Gone(Step(s, e), k)
  {
  }

  lemma {:induction false} GoneRun(s: Sys, es: seq<Event>, k: Key)
    requires Gone(s, k)
    ensures Gone(Run(s, es), k)
  {
    if es != [] {
      GoneRun(s, es[..|es| - 1], k);
      GoneStays(Run(s, es[..|es| - 1]), es[|es| - 1], k);
    }
  }

  lemma Then(s: Sys, es: seq<Event>, t: Sys, e: Event) returns (es': seq<Event>, t': Sys)
    requires t == Run(s, es)
    ensures es' == es + [e] && t' == Step(t, e) && t' == Run(s, es')
  {
    es', t' := es + [e], Step(t, e);
    assert es'[..|es|] == es;
  }


  ghost predicate HasEnded(s: Sys, es: seq<Event>, k: Key) {
    k !in Run(s, es).session
  }

  /** A session has ended for good, over every continuation, if and only if its record is gone
      and no touch that read it has yet to write. */
  lemma {:induction false} EndedForGoodIff(s: Sys, k: Key)
    requires k in s.used
    ensures (forall es :: HasEnded(s, es, k)) <==> Gone(s, k)
  {
    if Gone(s, k) {
      forall es ensures HasEnded(s, es, k) { GoneRun(s, es, k); }
    } else {
      var es: seq<Event> := [];
      if k !in s.session {
        var i :| 0 <= i < |s.workers| && s.workers[i] == Touching(k);
        var t;
        es, t := Then(s, es, s, TouchWrite(i, 0));
      }
      assert !HasEnded(s, es, k);
    }
  }

  lemma {:induction false} CreatedAndRead(s: Sys, k: Key) returns (es: seq<Event>, t: Sys)
    requires Initial(s) && |s.workers| == 2
    ensures t == Run(s, es) && t.workers == [Touching(k), Idle]
    ensures t.session == map[k := 1] && t.index == {k} && t.zindex == map[k := 1] && t.used == {k}
  {
    assert s.workers == [Idle, Idle];
    es, t := Then(s, [], s, Create(k, 1));
    es, t := Then(s, es, t, TouchRead(0, k));
  }

  lemma {:induction false} RevokedMeanwhile(s0: Sys, es0: seq<Event>, s: Sys, k: Key) returns (es: seq<Event>, t: Sys)
    requires s == Run(s0, es0) && s.workers == [Touching(k), Idle] && k in s.used
    ensures t == Run(s0, es) && t.workers == s.workers
    ensures k !in t.session && k !in t.index && k !in t.zindex
  {
    es, t := Then(s0, es0, s, StartRevoke(1, k));
    assert t == s.(workers := [Touching(k), Cleaning(k, 0)]);
    es, t := Then(s0, es, t, Next(1));
    assert t.workers == [Touching(k), Cleaning(k, 1)] && k !in t.session;
    es, t := Then(s0, es, t, Next(1));
    assert t.workers == [Touching(k), Cleaning(k, 2)] && k !in t.session && k !in t.index;
    es, t := Then(s0, es, t, Next(1));
  }

  /** A touch outlives a revoke between its GET and its MULTI: the session is live again, with
      a ZSET member and without a SET member: `listPage` shows it, `list` and `revokeAll` do not
      see it. */
  lemma {:induction false} TouchOutlivesRevoke(s: Sys, k: Key) returns (es: seq<Event>)
    requires Initial(s) && |s.workers| == 2
    ensures var t := Run(s, es);
            k in t.session && k in t.zindex && k !in t.index && t.workers == [Idle, Idle] && !SameMembers(t)
  {
    var t;
    es, t := CreatedAndRead(s, k);
    es, t := RevokedMeanwhile(s, es, t, k);
    es, t := Then(s, es, t, TouchWrite(0, 2));
    assert t.workers == [Idle, Idle];
  }
}
