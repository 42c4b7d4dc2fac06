/** The fixed-window limiters (`RefreshRateLimitService`, `OtpRateLimitService`): INCR and
    the EXPIRE of whoever got 1 are separate commands of concurrent calls. Times are
    milliseconds; a key with a deadline is gone once the clock passes it. */
module RateLimit {
  import opened Common

  /** A counter key: its value and, once EXPIRE ran, its deadline. */
  datatype Counter = Counter(count: nat, deadline: Option<int>)

  /** The key as Redis answers at time t. */
  function ReadAt(k: Option<Counter>, t: int): Option<Counter> {
    if k.Some? && k.value.deadline.Some? && t > k.value.deadline.value then None else k
  }

  /** INCR: a missing key counts from 0 and has no deadline. */
  function IncrAt(k: Option<Counter>, t: int): (c: Counter)
    ensures c.count >= 1
  {
    match ReadAt(k, t)
    case Some(c) => c.(count := c.count + 1)
    case None => Counter(1, None)
  }

  /** EXPIRE: nothing happens when the key is missing. */
  function ExpireAt(k: Option<Counter>, t: int, window: nat): Option<Counter> {
    match ReadAt(k, t)
    case Some(c) => Some(c.(deadline := Some(t + window)))
    case None => None
  }

  // --------------------------------------------------------- interleaved commands

  /** One INCR that happened: when, in which life of the key, and whether it was let through. */
  datatype Hit = Hit(time: int, life: nat, admitted: bool)

  /** `pending` counts calls that got 1 and have not run their EXPIRE; it may never run. */
  datatype Sys = Sys(key: Option<Counter>, clock: int, pending: nat, life: nat, hits: seq<Hit>)

  datatype Event = Incr(t: int) | Expire(t: int)

  datatype Limit = Limit(window: nat, max: int)

  function Step(l: Limit, s: Sys, e: Event): Sys {
    if e.t < s.clock then s
    else
      match e
      case Incr(t) =>
        var c := IncrAt(s.key, t);
        var life := if c.count == 1 then s.life + 1 else s.life;
        Sys(Some(c), t, if c.count == 1 then s.pending + 1 else s.pending, life,
            s.hits + [Hit(t, life, c.count <= l.max)])
      case Expire(t) =>
        if s.pending == 0 then s
        else s.(key := ExpireAt(s.key, t, l.window), clock := t, pending := s.pending - 1)
  }

  function Run(l: Limit, s: Sys, es: seq<Event>): Sys {
    if es == [] then s else Step(l, Run(l, s, es[..|es| - 1]), es[|es| - 1])
  }

  function Start(t: int): Sys {
    Sys(None, t, 0, 0, [])
  }

  // --------------------------------------------------------------------- counting

  /** Admitted hits of one life of the key. */
  function InLife(hits: seq<Hit>, life: nat): nat {
    if hits == [] then 0
    else
      var h := hits[|hits| - 1];
      InLife(hits[..|hits| - 1], life) + if h.admitted && h.life == life then 1 else 0
  }

  /** Admitted hits in the closed interval [a, b]. */
  function Between(hits: seq<Hit>, a: int, b: int): nat {
    if hits == [] then 0
    else
      var h := hits[|hits| - 1];
      Between(hits[..|hits| - 1], a, b) + if h.admitted && a <= h.time <= b then 1 else 0
  }

  /** Admitted hits of one life in the interval. */
  function InBoth(hits: seq<Hit>, life: nat, a: int, b: int): nat {
    if hits == [] then 0
    else
      var h := hits[|hits| - 1];
      InBoth(hits[..|hits| - 1], life, a, b) + if h.admitted && h.life == life && a <= h.time <= b then 1 else 0
  }

  // -------------------------------------------------------------------- invariant

  /** starts[x - 1] is the time of the first hit of life x; lives do not overlap. */
  ghost predicate HitOk(s: Sys, starts: seq<int>, h: Hit) {
    && 1 <= h.life <= s.life == |starts| && h.time <= s.clock
    && starts[h.life - 1] <= h.time
    && (h.life < s.life ==> h.time < starts[h.life])
  }

  /** A life outlasts the window: the next one starts later than that. */
  ghost predicate Gap(l: Limit, starts: seq<int>, x: nat) {
    1 <= x < |starts| ==> starts[x - 1] + l.window < starts[x]
  }

  /** The first hit of a life is let through. */
  ghost predicate Opened(l: Limit, s: Sys, starts: seq<int>, x: nat) {
    1 <= x <= |starts| && l.max >= 1 ==> Hit(starts[x - 1], x, true) in s.hits
  }

  /** The stored key, if any, is that of the last life. */
  ghost predicate KeyOk(l: Limit, s: Sys, starts: seq<int>) {
    match s.key
    case None => s.life == 0 && s.pending == 0
    case Some(c) =>
      && s.life == |starts| >= 1 && c.count >= 1
      && starts[s.life - 1] <= s.clock
      && InLife(s.hits, s.life) <= c.count
      && (s.pending > 0 ==> s.pending == 1 && c.deadline.None?)
      && (c.deadline.Some? ==> starts[s.life - 1] + l.window <= c.deadline.value)
      && (c.deadline.Some? ==> forall h :: h in s.hits && h.life == s.life ==> h.time <= c.deadline.value)
  }

  ghost predicate Inv(l: Limit, s: Sys, starts: seq<int>) {
    && s.life == |starts| && KeyOk(l, s, starts)
    && (forall x: nat :: Gap(l, starts, x))
    && (forall h :: h in s.hits ==> HitOk(s, starts, h))
    && (forall x: nat :: InLife(s.hits, x) <= Max(0, l.max))
    && (forall x: nat :: Opened(l, s, starts, x))
  }

  lemma Appended(hits: seq<Hit>, h: Hit)
    ensures (hits + [h])[..|hits|] == hits && (hits + [h])[|hits|] == h
    ensures forall x: nat :: InLife(hits + [h], x) == InLife(hits, x) + if h.admitted && h.life == x then 1 else 0
    ensures forall g :: g in hits + [h] <==> g in hits || g == h
  {
    assert (hits + [h])[..|hits|] == hits;
  }

  lemma {:induction false} NoHitsNoLife(hits: seq<Hit>, x: nat)
    requires forall h :: h in hits ==> h.life != x
    ensures InLife(hits, x) == 0
  {
    if hits != [] { NoHitsNoLife(hits[..|hits| - 1], x); }
  }

  /** An INCR on a live key stays in its life. */
  lemma IncrLive(l: Limit, s: Sys, starts: seq<int>, t: int)
    requires Inv(l, s, starts) && s.clock <= t && ReadAt(s.key, t).Some?
    ensures Inv(l, Step(l, s, Incr(t)), starts)
  {
    var s' := Step(l, s, Incr(t));
    Appended(s.hits, Hit(t, s.life, IncrAt(s.key, t).count <= l.max));
    forall h | h in s'.hits ensures HitOk(s', starts, h) {
      if h in s.hits { assert HitOk(s, starts, h); }
    }
    forall x: nat ensures Opened(l, s', starts, x) { assert Opened(l, s, starts, x); }
    forall x: nat ensures InLife(s'.hits, x) <= Max(0, l.max) { assert InLife(s.hits, x) <= Max(0, l.max); }
  }

  /** An INCR on a key that is gone opens the next life, after the window of the last one. */
  lemma IncrFresh(l: Limit, s: Sys, starts: seq<int>, t: int)
    requires Inv(l, s, starts) && s.clock <= t && ReadAt(s.key, t).None?
    ensures Inv(l, Step(l, s, Incr(t)), starts + [t])
  {
    var s' := Step(l, s, Incr(t));
    var starts' := starts + [t];
    var h' := Hit(t, s.life + 1, 1 <= l.max);
    Appended(s.hits, h');
    forall h | h in s.hits ensures h.life != s.life + 1 && HitOk(s', starts', h) {
      assert HitOk(s, starts, h);
    }
    NoHitsNoLife(s.hits, s.life + 1);
    assert HitOk(s', starts', h');
    forall x: nat ensures Gap(l, starts', x) { assert Gap(l, starts, x); }
    forall x: nat ensures Opened(l, s', starts', x) { assert Opened(l, s, starts, x); }
    forall x: nat ensures InLife(s'.hits, x) <= Max(0, l.max) { assert InLife(s.hits, x) <= Max(0, l.max); }
  }

  lemma ExpireKeeps(l: Limit, s: Sys, starts: seq<int>, t: int)
    requires Inv(l, s, starts)
    ensures Inv(l, Step(l, s, Expire(t)), starts)
  {
    var s' := Step(l, s, Expire(t));
    forall h | h in s'.hits ensures HitOk(s', starts, h) { assert HitOk(s, starts, h); }
    forall x: nat ensures Opened(l, s', starts, x) { assert Opened(l, s, starts, x); }
  }

  lemma {:induction false} RunKeeps(l: Limit, t0: int, es: seq<Event>) returns (starts: seq<int>)
    ensures Inv(l, Run(l, Start(t0), es), starts)
  {
    if es == [] {
      starts := [];
    } else {
      starts := RunKeeps(l, t0, es[..|es| - 1]);
      var s, e := Run(l, Start(t0), es[..|es| - 1]), es[|es| - 1];
      match e
      case Incr(t) =>
        if s.clock <= t {
          if ReadAt(s.key, t).Some? { IncrLive(l, s, starts, t); }
          else {
            IncrFresh(l, s, starts, t);
            starts := starts + [t];
          }
        }
      case Expire(t) => ExpireKeeps(l, s, starts, t);
    }
  }

  // --------------------------------------------------------------------- theorems

  /** No life of the key, hence no window, lets more than max hits through. */
  lemma {:induction false} AtMostMaxPerWindow(l: Limit, t0: int, es: seq<Event>, life: nat)
    ensures InLife(Run(l, Start(t0), es).hits, life) <= Max(0, l.max)
  {
    var starts := RunKeeps(l, t0, es);
  }

  lemma {:induction false} TwoLives(hits: seq<Hit>, x: nat, a: int, b: int)
    requires forall h :: h in hits && a <= h.time <= b ==> h.life == x || h.life == x + 1
    ensures Between(hits, a, b) == InBoth(hits, x, a, b) + InBoth(hits, x + 1, a, b)
  {
    if hits != [] {
      var h := hits[|hits| - 1];
      assert h in hits;
      TwoLives(hits[..|hits| - 1], x, a, b);
    }
  }

  /** A hit of the life outside the interval is not counted. */
  lemma {:induction false} OutsideOne(hits: seq<Hit>, x: nat, a: int, b: int, out: bool)
    requires out ==> exists h :: h in hits && h.admitted && h.life == x && !(a <= h.time <= b)
    ensures InBoth(hits, x, a, b) + (if out then 1 else 0) <= InLife(hits, x)
  {
    if hits != [] {
      var n := |hits| - 1;
      var h := hits[n];
      if out && !(h.admitted && h.life == x && !(a <= h.time <= b)) {
        var g :| g in hits && g.admitted && g.life == x && !(a <= g.time <= b);
        assert g in hits[..n];
        OutsideOne(hits[..n], x, a, b, true);
      } else {
        OutsideOne(hits[..n], x, a, b, false);
      }
    }
  }

  lemma {:induction false} NoneInBoth(hits: seq<Hit>, x: nat, a: int, b: int)
    requires InBoth(hits, x, a, b) > 0
    ensures exists h :: h in hits && h.life == x && a <= h.time <= b
  {
    var h := hits[|hits| - 1];
    if h.life == x && a <= h.time <= b {
      assert h in hits;
    } else {
      NoneInBoth(hits[..|hits| - 1], x, a, b);
      var g :| g in hits[..|hits| - 1] && g.life == x && a <= g.time <= b;
      assert g in hits;
    }
  }

  lemma {:induction false} StartsGrow(l: Limit, starts: seq<int>, x: nat, y: nat)
    requires 1 <= x <= y <= |starts| && forall i: nat :: Gap(l, starts, i)
    ensures starts[x - 1] <= starts[y - 1]
    decreases y
  {
    if x < y {
      StartsGrow(l, starts, x, y - 1);
      assert Gap(l, starts, y - 1);
    }
  }

  /** Two lives apart is more than a window apart. */
  lemma LivesApart(l: Limit, s: Sys, starts: seq<int>, h: Hit, g: Hit)
    requires Inv(l, s, starts) && h in s.hits && g in s.hits && g.life >= h.life + 2
    ensures g.time > h.time + l.window
  {
    assert HitOk(s, starts, h) && HitOk(s, starts, g);
    StartsGrow(l, starts, h.life + 2, g.life);
    assert Gap(l, starts, h.life + 1);
  }

  /** The oldest life with a hit in the interval. */
  lemma {:induction false} OldestLife(hits: seq<Hit>, a: int, b: int) returns (x: Option<Hit>)
    ensures x.None? ==> forall h :: h in hits ==> !(a <= h.time <= b)
    ensures x.Some? ==> x.value in hits && a <= x.value.time <= b
    ensures x.Some? ==> forall h :: h in hits && a <= h.time <= b ==> h.life >= x.value.life
  {
    if hits == [] {
      x := None;
    } else {
      var h := hits[|hits| - 1];
      x := OldestLife(hits[..|hits| - 1], a, b);
      assert forall g :: g in hits <==> g in hits[..|hits| - 1] || g == h;
      if a <= h.time <= b && (x.None? || h.life < x.value.life) { x := Some(h); }
    }
  }

  /** If a life and the next both have hits in the interval, the first hit of the older is before it. */
  lemma TwoLivesBound(l: Limit, s: Sys, starts: seq<int>, x: nat, a: int)
    requires Inv(l, s, starts) && 1 <= x
    ensures InBoth(s.hits, x, a, a + l.window) + InBoth(s.hits, x + 1, a, a + l.window) <= Max(0, 2 * l.max - 1)
  {
    var b := a + l.window;
    OutsideOne(s.hits, x + 1, a, b, false);
    assert InLife(s.hits, x) <= Max(0, l.max) && InLife(s.hits, x + 1) <= Max(0, l.max);
    if InBoth(s.hits, x + 1, a, b) > 0 && l.max >= 1 {
      NoneInBoth(s.hits, x + 1, a, b);
      var g :| g in s.hits && g.life == x + 1 && a <= g.time <= b;
      assert HitOk(s, starts, g) && Gap(l, starts, x) && Opened(l, s, starts, x);
      var h := Hit(starts[x - 1], x, true);
      assert h in s.hits && h.time < a;
      OutsideOne(s.hits, x, a, b, true);
    } else {
      OutsideOne(s.hits, x, a, b, false);
    }
  }

  /** Every closed interval of one window's length lets at most 2 * max - 1 hits through,
      for every arrival sequence and every interleaving of INCR and EXPIRE. */
  lemma {:induction false} IntervalBound(l: Limit, t0: int, es: seq<Event>, a: int)
    ensures Between(Run(l, Start(t0), es).hits, a, a + l.window) <= Max(0, 2 * l.max - 1)
  {
    var starts := RunKeeps(l, t0, es);
    var s, b := Run(l, Start(t0), es), a + l.window;
    var first := OldestLife(s.hits, a, b);
    if first.None? {
      TwoLives(s.hits, 0, a, b);
      if InBoth(s.hits, 0, a, b) > 0 { NoneInBoth(s.hits, 0, a, b); }
      if InBoth(s.hits, 1, a, b) > 0 { NoneInBoth(s.hits, 1, a, b); }
    } else {
      var x := first.value.life;
      forall h | h in s.hits && a <= h.time <= b ensures h.life == x || h.life == x + 1 {
        if h.life >= x + 2 { LivesApart(l, s, starts, first.value, h); }
      }
      TwoLives(s.hits, x, a, b);
      TwoLivesBound(l, s, starts, x, a);
    }
  }

  // ------------------------------------------------------------------- refusals

  /** All hits of one life of the key. */
  function HitsOf(hits: seq<Hit>, life: nat): nat {
    if hits == [] then 0
    else HitsOf(hits[..|hits| - 1], life) + if hits[|hits| - 1].life == life then 1 else 0
  }

  lemma {:induction false} NoneOf(hits: seq<Hit>, life: nat)
    requires forall h :: h in hits ==> h.life != life
    ensures HitsOf(hits, life) == 0
  {
    if hits != [] { NoneOf(hits[..|hits| - 1], life); }
  }

  /** The counter is the number of hits of its life, and its deadline comes from an EXPIRE. */
  ghost predicate Exact(l: Limit, s: Sys, es: seq<Event>) {
    && (forall h :: h in s.hits ==> h.life <= s.life)
    && match s.key
       case None => s.hits == [] && s.pending == 0
       case Some(c) =>
         && c.count == HitsOf(s.hits, s.life) >= 1
         && s.pending == (if c.deadline.None? then 1 else 0)
         && (c.deadline.Some? ==> Expire(c.deadline.value - l.window) in es)
  }

  lemma OneMoreHit(hits: seq<Hit>, h: Hit, life: nat)
    ensures HitsOf(hits + [h], life) == HitsOf(hits, life) + if h.life == life then 1 else 0
    ensures forall g :: g in hits + [h] <==> g in hits || g == h
  {
    assert (hits + [h])[..|hits|] == hits;
  }

  lemma IncrLiveExact(l: Limit, s: Sys, es: seq<Event>, t: int)
    requires Exact(l, s, es) && s.clock <= t && ReadAt(s.key, t).Some?
    ensures Exact(l, Step(l, s, Incr(t)), es + [Incr(t)])
  {
    var c := s.key.value;
    var h := Hit(t, s.life, c.count + 1 <= l.max);
    assert Step(l, s, Incr(t)) == Sys(Some(c.(count := c.count + 1)), t, s.pending, s.life, s.hits + [h]);
    OneMoreHit(s.hits, h, s.life);
    if c.deadline.Some? { assert Expire(c.deadline.value - l.window) in es + [Incr(t)]; }
  }

  lemma IncrFreshExact(l: Limit, s: Sys, es: seq<Event>, t: int)
    requires Exact(l, s, es) && s.clock <= t && ReadAt(s.key, t).None?
    ensures Exact(l, Step(l, s, Incr(t)), es + [Incr(t)])
  {
    var h := Hit(t, s.life + 1, 1 <= l.max);
    assert Step(l, s, Incr(t)) == Sys(Some(Counter(1, None)), t, 1, s.life + 1, s.hits + [h]);
    OneMoreHit(s.hits, h, s.life + 1);
    NoneOf(s.hits, s.life + 1);
  }

  lemma ExpireExact(l: Limit, s: Sys, es: seq<Event>, t: int)
    requires Exact(l, s, es)
    ensures Exact(l, Step(l, s, Expire(t)), es + [Expire(t)])
  {
    assert Expire(t) in es + [Expire(t)];
  }

  lemma {:induction false} RunExact(l: Limit, t0: int, es: seq<Event>)
    ensures Exact(l, Run(l, Start(t0), es), es)
  {
    if es != [] {
      var n := |es| - 1;
      RunExact(l, t0, es[..n]);
      assert es == es[..n] + [es[n]];
      var s := Run(l, Start(t0), es[..n]);
      if s.clock <= es[n].t {
        match es[n]
        case Incr(t) =>
          if ReadAt(s.key, t).Some? { IncrLiveExact(l, s, es[..n], t); } else { IncrFreshExact(l, s, es[..n], t); }
        case Expire(t) => ExpireExact(l, s, es[..n], t);
      }
    }
  }

  /** A refusal needs max earlier hits of a life that is not over: its EXPIRE has not run
      yet, or ran no longer ago than the window. */
  lemma {:induction false} RefusedIff(l: Limit, t0: int, es: seq<Event>, t: int)
    requires l.max >= 1 && Run(l, Start(t0), es).clock <= t
    ensures var s, hits := Run(l, Start(t0), es), Run(l, Start(t0), es + [Incr(t)]).hits;
            && |hits| == |s.hits| + 1
            && (!hits[|s.hits|].admitted <==>
                  && s.key.Some? && (s.key.value.deadline.None? || t <= s.key.value.deadline.value)
                  && HitsOf(s.hits, s.life) >= l.max)
            && (s.key.Some? ==> (s.key.value.deadline.None? <==> s.pending == 1))
            && (s.key.Some? && s.key.value.deadline.Some? ==> Expire(s.key.value.deadline.value - l.window) in es)
  {
    RunExact(l, t0, es);
    assert (es + [Incr(t)])[..|es|] == es;
  }

  // ------------------------------------------------------- the bound is attained

  lemma OneMore(l: Limit, es: seq<Event>, e: Event)
    ensures Run(l, Start(0), es + [e]) == Step(l, Run(l, Start(0), es), e)
  {
    assert (es + [e])[..|es|] == es;
  }

  /** One more hit of a live key below its maximum, inside the interval. */
  lemma {:induction false} LiveHit(l: Limit, s: Sys, t: int, a: int, b: int)
    requires s.clock <= t && ReadAt(s.key, t).Some? && a <= t <= b
    requires 1 <= s.key.value.count < l.max
    ensures var r := Step(l, s, Incr(t));
            && r.key == Some(s.key.value.(count := s.key.value.count + 1)) && r.clock == t
            && Between(r.hits, a, b) == Between(s.hits, a, b) + 1
  {
    assert (s.hits + [Hit(t, s.life, true)])[..|s.hits|] == s.hits;
  }

  /** n hits at one moment. */
  lemma {:induction false} Burst(l: Limit, es: seq<Event>, s: Sys, n: nat, t: int, a: int, b: int)
      returns (es': seq<Event>, s': Sys)
    requires s == Run(l, Start(0), es) && s.clock <= t && ReadAt(s.key, t).Some? && a <= t <= b
    requires 1 <= s.key.value.count && s.key.value.count + n <= l.max
    ensures s' == Run(l, Start(0), es')
    ensures s'.key == Some(s.key.value.(count := s.key.value.count + n)) && s'.clock <= t
    ensures Between(s'.hits, a, b) == Between(s.hits, a, b) + n
  {
    es', s' := es, s;
    if n > 0 {
      es', s' := Burst(l, es, s, n - 1, t, a, b);
      LiveHit(l, s', t, a, b);
      OneMore(l, es', Incr(t));
      es', s' := es' + [Incr(t)], Step(l, s', Incr(t));
    }
  }

  /** One hit at 0, the rest of its life at the last moment. */
  lemma TailOfALife(l: Limit) returns (es: seq<Event>, s: Sys)
    requires l.max >= 1 && l.window >= 1
    ensures s == Run(l, Start(0), es) && s.key == Some(Counter(l.max, Some(l.window))) && s.clock <= l.window
    ensures Between(s.hits, l.window, l.window + l.window) == l.max - 1
  {
    OneMore(l, [], Incr(0));
    assert [] + [Incr(0)] == [Incr(0)];
    OneMore(l, [Incr(0)], Expire(0));
    es := [Incr(0)] + [Expire(0)];
    s := Sys(Some(Counter(1, Some(l.window))), 0, 0, 1, [Hit(0, 1, true)]);
    assert [Hit(0, 1, true)][..0] == [];
    es, s := Burst(l, es, s, l.max - 1, l.window, l.window, l.window + l.window);
  }

  /** The first hit after the deadline opens a new life, inside the interval. */
  lemma NextLifeOpens(l: Limit, s: Sys, a: int)
    requires l.max >= 1 && l.window >= 1 && s.clock <= a && s.key.Some? && s.key.value.deadline == Some(a)
    ensures var next := Step(l, s, Incr(a + 1));
            && next.key == Some(Counter(1, None)) && next.clock == a + 1
            && Between(next.hits, a, a + l.window) == Between(s.hits, a, a + l.window) + 1
  {
    assert (s.hits + [Hit(a + 1, s.life + 1, true)])[..|s.hits|] == s.hits;
  }

  /** For every limit there is a run that lets exactly 2 * max - 1 hits through in one
      window's length: the tail of one life and the head of the next. */
  lemma IntervalBoundAttained(l: Limit) returns (es: seq<Event>, a: int)
    requires l.max >= 1 && l.window >= 1
    ensures Between(Run(l, Start(0), es).hits, a, a + l.window) == 2 * l.max - 1
  {
    a := l.window;
    var s;
    es, s := TailOfALife(l);
    NextLifeOpens(l, s, a);
    OneMore(l, es, Incr(a + 1));
    es, s := Burst(l, es + [Incr(a + 1)], Step(l, s, Incr(a + 1)), l.max - 1, a + 1, a, a + a);
  }

  // -------------------------------------------------------------------- services

  type Key = nat   // scope, subject kind, hash of the value, channel, purpose

  /** A whole INCR-then-EXPIRE call. */
  function Bumped(k: Option<Counter>, t: int, window: nat): Counter {
    var c := IncrAt(k, t);
    if c.count == 1 then Counter(1, Some(t + window)) else c
  }

  /** A whole call is an INCR step and, by the call that got 1, its EXPIRE step. */
  lemma BumpIsTwoSteps(l: Limit, s: Sys, t: int)
    requires s.clock <= t && s.pending == 0
    ensures var s1 := Step(l, s, Incr(t)); var s2 := Step(l, s1, Expire(t));
            && s2.key == Some(Bumped(s.key, t, l.window)) && s2.pending == 0
            && s2.hits == s.hits + [Hit(t, s2.life, Bumped(s.key, t, l.window).count <= l.max)]
  {
  }

  class OtpRateLimitService {
    var keys: map<Key, Counter>
    const window: nat
    const maxId: int
    const maxIp: int

    constructor (window: nat, maxId: int, maxIp: int)
      ensures this.window == window && this.maxId == maxId && this.maxIp == maxIp && keys == map[]
    {
      keys, this.window, this.maxId, this.maxIp := map[], window, maxId, maxIp;
    }

    /** `bump` */
    method Bump(k: Key, t: int) returns (count: nat)
      modifies this
      ensures keys == old(keys)[k := Bumped(Lookup(old(keys), k), t, window)]
      ensures count == keys[k].count >= 1
      ensures var alive := k in old(keys) && old(keys)[k].count >= 1
                && (old(keys)[k].deadline.None? || t <= old(keys)[k].deadline.value);
              keys == old(keys)[k := if alive then Counter(old(keys)[k].count + 1, old(keys)[k].deadline)
                                     else Counter(1, Some(t + window))]
    {
      var c := IncrAt(Lookup(keys, k), t);
      keys := keys[k := c];
      count := c.count;
      if count == 1 {
        var e := ExpireAt(Lookup(keys, k), t, window);
        if e.Some? { keys := keys[k := e.value]; } else { keys := keys - {k}; }
      }
    }

    /** `consumeRequestBucket` and `consumeVerifyBucket`, each with its own window and maxima:
        the identifier's bucket always counts the call, the address's only if the first let it through. */
    method ConsumeBuckets(idKey: Key, ipKey: Option<Key>, t: int) returns (r: Result<()>)
      requires ipKey.Some? ==> ipKey.value != idKey
      modifies this
      ensures var id := Bumped(Lookup(old(keys), idKey), t, window);
              && (id.count > maxId ==> r == Err(TooManyRequests) && keys == old(keys)[idKey := id])
              && (id.count <= maxId && ipKey.None? ==> r == Ok(()) && keys == old(keys)[idKey := id])
              && (id.count <= maxId && ipKey.Some? ==>
                    var ip := Bumped(Lookup(old(keys), ipKey.value), t, window);
                    && keys == old(keys)[idKey := id][ipKey.value := ip]
                    && (r == Ok(()) <==> ip.count <= maxIp) && (r.Err? ==> r.error == TooManyRequests))
    {
      var count := Bump(idKey, t);
      if count > maxId { return Err(TooManyRequests); }
      if ipKey.Some? {
        var n := Bump(ipKey.value, t);
        if n > maxIp { return Err(TooManyRequests); }
      }
      r := Ok(());
    }
  }

  class RefreshRateLimitService {
    var keys: map<Key, Counter>
    const window: nat
    const maxHits: int

    /** Both settings are at least 1 (the window in whole seconds). */
    constructor (windowSec: int, maxRaw: int)
      ensures window == 1000 * Max(1, windowSec) && maxHits == Max(1, maxRaw) && keys == map[]
    {
      keys, window, maxHits := map[], 1000 * Max(1, windowSec), Max(1, maxRaw);
    }

    /** `consume` */
    method Consume(k: Key, t: int) returns (r: Result<()>)
      modifies this
      ensures var c := Bumped(Lookup(old(keys), k), t, window);
              keys == old(keys)[k := c] && r == if c.count <= maxHits then Ok(()) else Err(TooManyRequests)
      ensures var alive := k in old(keys) && old(keys)[k].count >= 1
                && (old(keys)[k].deadline.None? || t <= old(keys)[k].deadline.value);
              && keys == old(keys)[k := if alive then Counter(old(keys)[k].count + 1, old(keys)[k].deadline)
                                        else Counter(1, Some(t + window))]
              && (r == Ok(()) <==> if alive then old(keys)[k].count < maxHits else 1 <= maxHits)
    {
      var hits := IncrAt(Lookup(keys, k), t);
      keys := keys[k := hits];
      if hits.count == 1 {
        var e := ExpireAt(Lookup(keys, k), t, window);
        if e.Some? { keys := keys[k := e.value]; }
      }
      if hits.count > maxHits { return Err(TooManyRequests); }
      r := Ok(());
    }
  }
}
