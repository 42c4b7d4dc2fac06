/** `CountersService`: counters are bumped in Redis and flushed into the product
    table by reading, adding to the table, then subtracting what was read. */
module Counters {
  import opened Common

  datatype Kind = Views | Downloads | Likes

  /** The Redis key cnt:product:<id>:<kind>. */
  datatype Key = Key(product: nat, kind: Kind)

  datatype Update = Update(key: Key, value: int)

  /** The count columns of a product row, and a group of increments to them. */
  datatype Counts = Counts(views: int, downloads: int, likes: int) {
    function At(k: Kind): int {
      match k
      case Views => views
      case Downloads => downloads
      case Likes => likes
    }

    function Add(k: Kind, d: int): Counts {
      match k
      case Views => this.(views := views + d)
      case Downloads => this.(downloads := downloads + d)
      case Likes => this.(likes := likes + d)
    }

    function Plus(g: Counts): Counts {
      Counts(views + g.views, downloads + g.downloads, likes + g.likes)
    }
  }

  const ZERO := Counts(0, 0, 0)

  type Redis = map<Key, int>
  type Table = map<nat, Counts>

  function Val(redis: Redis, k: Key): int {
    if k in redis then redis[k] else 0
  }

  function Col(db: Table, k: Key): int {
    if k.product in db then db[k.product].At(k.kind) else 0
  }

  /** What a list of updates adds up to for one key; a key may occur many times. */
  function SumFor(us: seq<Update>, k: Key): int {
    if us == [] then 0
    else SumFor(us[..|us| - 1], k) + if us[|us| - 1].key == k then us[|us| - 1].value else 0
  }

  // ------------------------------------------------------------ specification

  /** The updates one page of keys contributes: zero counters are skipped. */
  function PageUpdates(redis: Redis, keys: seq<Key>): seq<Update> {
    if keys == [] then []
    else
      var k := keys[|keys| - 1];
      PageUpdates(redis, keys[..|keys| - 1]) + if Val(redis, k) == 0 then [] else [Update(k, Val(redis, k))]
  }

  function Group(us: seq<Update>): map<nat, Counts> {
    if us == [] then map[]
    else
      var g, u := Group(us[..|us| - 1]), us[|us| - 1];
      g[u.key.product := (if u.key.product in g then g[u.key.product] else ZERO).Add(u.key.kind, u.value)]
  }

  /** The transaction: one increment per group, all or nothing. */
  function ApplyGroups(db: Table, g: map<nat, Counts>): Option<Table> {
    if g.Keys <= db.Keys
    then Some(map p | p in db :: if p in g then db[p].Plus(g[p]) else db[p])
    else None
  }

  function DecrAll(redis: Redis, us: seq<Update>): Redis {
    if us == [] then redis
    else
      var r, u := DecrAll(redis, us[..|us| - 1]), us[|us| - 1];
      r[u.key := Val(r, u.key) - u.value]
  }

  /** Grouping by product preserves every key's sum. */
  lemma {:induction false} GroupPreservesSums(us: seq<Update>, k: Key)
    ensures k.product in Group(us) ==> Group(us)[k.product].At(k.kind) == SumFor(us, k)
    ensures k.product !in Group(us) ==> SumFor(us, k) == 0
  {
    if us != [] { GroupPreservesSums(us[..|us| - 1], k); }
  }

  /** The transaction adds exactly each key's sum to its column. */
  lemma {:induction false} ApplyAddsSums(db: Table, us: seq<Update>, k: Key)
    requires ApplyGroups(db, Group(us)).Some?
    ensures Col(ApplyGroups(db, Group(us)).value, k) == Col(db, k) + SumFor(us, k)
  {
    GroupPreservesSums(us, k);
  }

  lemma {:induction false} DecrSubtractsSums(redis: Redis, us: seq<Update>, k: Key)
    ensures Val(DecrAll(redis, us), k) == Val(redis, k) - SumFor(us, k)
  {
    if us != [] { DecrSubtractsSums(redis, us[..|us| - 1], k); }
  }

  // ------------------------------------------------------------------ service

  function AllUpdates(redis: Redis, pages: seq<seq<Key>>): seq<Update> {
    if pages == [] then []
    else AllUpdates(redis, pages[..|pages| - 1]) + PageUpdates(redis, pages[|pages| - 1])
  }

  /** How often SCAN returned the key, over all pages. */
  function Times(pages: seq<seq<Key>>, k: Key): nat {
    if pages == [] then 0 else Times(pages[..|pages| - 1], k) + multiset(pages[|pages| - 1])[k]
  }

  lemma {:induction false} SumAppend(a: seq<Update>, b: seq<Update>, k: Key)
    ensures SumFor(a + b, k) == SumFor(a, k) + SumFor(b, k)
  {
    if b == [] {
      assert a + b == a;
    } else {
      assert (a + b)[..|a + b| - 1] == a + b[..|b| - 1];
      SumAppend(a, b[..|b| - 1], k);
    }
  }

  lemma OneMore(keys: seq<Key>, k: Key)
    requires keys != []
    ensures multiset(keys)[k] == multiset(keys[..|keys| - 1])[k] + if keys[|keys| - 1] == k then 1 else 0
  {
    assert keys == keys[..|keys| - 1] + [keys[|keys| - 1]];
  }

  function Multiple(n: nat, v: int): int {
    if n == 0 then 0 else Multiple(n - 1, v) + v
  }

  lemma {:induction false} MultipleAdds(m: nat, n: nat, v: int)
    ensures Multiple(m + n, v) == Multiple(m, v) + Multiple(n, v)
  {
    if n > 0 { MultipleAdds(m, n - 1, v); }
  }

  lemma {:induction false} MultipleMeaning(n: nat, v: int)
    ensures Multiple(n, v) == n * v
  {
    if n > 0 {
      MultipleMeaning(n - 1, v);
      assert n * v == (n - 1) * v + v;
    }
  }

  /** A page contributes each of its keys' counts, once per occurrence. */
  lemma {:induction false} PageSum(redis: Redis, keys: seq<Key>, k: Key)
    ensures SumFor(PageUpdates(redis, keys), k) == Multiple(multiset(keys)[k], Val(redis, k))
  {
    if keys != [] {
      var n := |keys| - 1;
      var last := if Val(redis, keys[n]) == 0 then [] else [Update(keys[n], Val(redis, keys[n]))];
      PageSum(redis, keys[..n], k);
      SumAppend(PageUpdates(redis, keys[..n]), last, k);
      OneMore(keys, k);
    }
  }

  lemma {:induction false} ScanSum(redis: Redis, pages: seq<seq<Key>>, k: Key)
    ensures SumFor(AllUpdates(redis, pages), k) == Multiple(Times(pages, k), Val(redis, k))
  {
    if pages != [] {
      var n := |pages| - 1;
      ScanSum(redis, pages[..n], k);
      PageSum(redis, pages[n], k);
      MultipleAdds(Times(pages[..n], k), multiset(pages[n])[k], Val(redis, k));
      SumAppend(AllUpdates(redis, pages[..n]), PageUpdates(redis, pages[n]), k);
    }
  }

  /** The updates are those of the keys with a count. */
  lemma {:induction false} PageHolds(redis: Redis, keys: seq<Key>)
    ensures forall u :: u in PageUpdates(redis, keys) <==> u.key in keys && u.value == Val(redis, u.key) != 0
  {
    if keys != [] {
      var n := |keys| - 1;
      PageHolds(redis, keys[..n]);
      assert forall k :: k in keys <==> k in keys[..n] || k == keys[n];
    }
  }

  lemma {:induction false} ScanHolds(redis: Redis, pages: seq<seq<Key>>)
    ensures forall u :: u in AllUpdates(redis, pages) <==> Times(pages, u.key) > 0 && u.value == Val(redis, u.key) != 0
  {
    if pages != [] {
      var n := |pages| - 1;
      ScanHolds(redis, pages[..n]);
      PageHolds(redis, pages[n]);
    }
  }

  lemma {:induction false} GroupKeys(us: seq<Update>)
    ensures forall p :: p in Group(us) <==> exists u :: u in us && u.key.product == p
  {
    if us != [] {
      var n := |us| - 1;
      GroupKeys(us[..n]);
      assert forall u :: u in us <==> u in us[..n] || u == us[n];
    }
  }

  /** The transaction of a scan goes through exactly if every product with a count is there. */
  lemma {:induction false} ScanCommitsIff(redis: Redis, db: Table, pages: seq<seq<Key>>)
    ensures ApplyGroups(db, Group(AllUpdates(redis, pages))).Some? <==>
              forall k: Key :: Times(pages, k) > 0 && Val(redis, k) != 0 ==> k.product in db
  {
    var us := AllUpdates(redis, pages);
    ScanHolds(redis, pages);
    GroupKeys(us);
    if forall k: Key :: Times(pages, k) > 0 && Val(redis, k) != 0 ==> k.product in db {
      forall p | p in Group(us) ensures p in db {
        var u :| u in us && u.key.product == p;
        assert Times(pages, u.key) > 0;
      }
    } else {
      var k: Key :| Times(pages, k) > 0 && Val(redis, k) != 0 && k.product !in db;
      assert Update(k, Val(redis, k)) in us;
      assert k.product in Group(us);
    }
  }

  lemma ScanMoves(redis: Redis, db: Table, pages: seq<seq<Key>>, k: Key)
    requires ApplyGroups(db, Group(AllUpdates(redis, pages))).Some?
    ensures Col(ApplyGroups(db, Group(AllUpdates(redis, pages))).value, k)
         == Col(db, k) + Times(pages, k) * Val(redis, k)
    ensures Val(redis, k) - SumFor(AllUpdates(redis, pages), k) == Val(redis, k) - Times(pages, k) * Val(redis, k)
  {
    ScanSum(redis, pages, k);
    MultipleMeaning(Times(pages, k), Val(redis, k));
    ApplyAddsSums(db, AllUpdates(redis, pages), k);
  }

  class CountersService {
    const hasRedis: bool
    var redis: Redis
    var db: Table

    constructor (hasRedis: bool, redis: Redis, db: Table)
      ensures this.hasRedis == hasRedis && this.redis == redis && this.db == db
    {
      this.hasRedis, this.redis, this.db := hasRedis, redis, db;
    }

    /** Groups in place, then commits all increments or none. */
    method ApplyDbIncrement(us: seq<Update>) returns (ok: bool)
      modifies this`db
      ensures ok <==> ApplyGroups(old(db), Group(us)).Some?
      ensures db == if ok then ApplyGroups(old(db), Group(us)).value else old(db)
    {
      var groups: map<nat, Counts> := map[];
      for n := 0 to |us|
        invariant groups == Group(us[..n])
      {
        var u := us[n];
        var g := if u.key.product in groups then groups[u.key.product] else ZERO;
        groups := groups[u.key.product := g.Add(u.key.kind, u.value)];
        assert us[..n + 1][..n] == us[..n];
      }
      assert us[..|us|] == us;
      var next := db;
      var rest := groups.Keys;
      while rest != {}
        invariant rest <= groups.Keys && groups.Keys - rest <= db.Keys
        invariant next == map p | p in db :: if p in groups && p !in rest then db[p].Plus(groups[p]) else db[p]
        decreases rest
      {
        var p :| p in rest;
        if p !in next { return false; }   // record to update not found: rolled back
        next := next[p := next[p].Plus(groups[p])];
        rest := rest - {p};
      }
      db := next;
      ok := true;
    }

    /** INCRBY, or straight into the table when Redis is not configured. */
    method Bump(product: nat, kind: Kind, delta: int) returns (ok: bool)
      modifies this
      ensures ok <==> hasRedis || product in old(db)
      ensures forall k :: Val(redis, k) + Col(db, k)
                == Val(old(redis), k) + Col(old(db), k) + if ok && k == Key(product, kind) then delta else 0
      ensures hasRedis ==> db == old(db)
      ensures !hasRedis ==> redis == old(redis)
    {
      var k := Key(product, kind);
      if hasRedis {
        redis := redis[k := Val(redis, k) + delta];
        return true;
      }
      var us := [Update(k, delta)];
      ok := ApplyDbIncrement(us);
      assert Group(us) == map[product := ZERO.Add(kind, delta)];
    }

    /** MGET over a page, skipping zero counters. */
    method ReadPage(keys: seq<Key>) returns (us: seq<Update>)
      ensures us == PageUpdates(redis, keys)
      ensures forall k: Key :: SumFor(us, k) == multiset(keys)[k] * Val(redis, k)
      ensures forall u :: u in us <==> u.key in keys && u.value == Val(redis, u.key) != 0
    {
      us := [];
      for i := 0 to |keys|
        invariant us == PageUpdates(redis, keys[..i])
      {
        var raw := Val(redis, keys[i]);
        assert keys[..i + 1][..i] == keys[..i];
        if raw != 0 { us := us + [Update(keys[i], raw)]; }
      }
      assert keys[..|keys|] == keys;
      PageHolds(redis, keys);
      forall k: Key ensures SumFor(us, k) == multiset(keys)[k] * Val(redis, k) {
        PageSum(redis, keys, k);
        MultipleMeaning(multiset(keys)[k], Val(redis, k));
      }
    }

    /** MULTI of one DECRBY per update. */
    method Decrement(us: seq<Update>)
      modifies this`redis
      ensures redis == DecrAll(old(redis), us)
      ensures forall k :: Val(redis, k) == Val(old(redis), k) - SumFor(us, k)
    {
      for n := 0 to |us|
        invariant redis == DecrAll(old(redis), us[..n])
      {
        redis := redis[us[n].key := Val(redis, us[n].key) - us[n].value];
        assert us[..n + 1][..n] == us[..n];
      }
      assert us[..|us|] == us;
      forall k ensures Val(redis, k) == Val(old(redis), k) - SumFor(us, k) {
        DecrSubtractsSums(old(redis), us, k);
      }
    }

    /** A flush that nothing interleaves with. `pages` is what SCAN returns, repeats included:
        a key's count moves to its column once per occurrence. It commits exactly if every
        product with a count is in the table. */
    method FlushBatch(pages: seq<seq<Key>>) returns (ok: bool)
      modifies this
      ensures ok <==>
                !hasRedis || forall k: Key :: Times(pages, k) > 0 && Val(old(redis), k) != 0 ==> k.product in old(db)
      ensures ok && hasRedis ==> forall k: Key ::
                && Val(redis, k) == Val(old(redis), k) - Times(pages, k) * Val(old(redis), k)
                && Col(db, k) == Col(old(db), k) + Times(pages, k) * Val(old(redis), k)
      ensures db.Keys == old(db).Keys
      ensures !ok || !hasRedis ==> redis == old(redis) && db == old(db)
    {
      if !hasRedis { return true; }
      var updates: seq<Update> := [];
      for n := 0 to |pages|
        invariant updates == AllUpdates(redis, pages[..n])
        invariant redis == old(redis) && db == old(db)
      {
        var page := ReadPage(pages[n]);
        updates := updates + page;
        assert pages[..n + 1][..n] == pages[..n];
      }
      assert pages[..|pages|] == pages;
      ScanCommitsIff(redis, db, pages);
      if updates == [] {
        forall k: Key ensures Times(pages, k) * Val(redis, k) == 0 {
          ScanSum(redis, pages, k);
          MultipleMeaning(Times(pages, k), Val(redis, k));
        }
        return true;
      }
      ok := ApplyDbIncrement(updates);
      if !ok { return; }
      Decrement(updates);
      forall k: Key
        ensures Val(redis, k) == Val(old(redis), k) - Times(pages, k) * Val(old(redis), k)
        ensures Col(db, k) == Col(old(db), k) + Times(pages, k) * Val(old(redis), k)
      {
        ScanMoves(old(redis), old(db), pages, k);
      }
    }
  }

  // ------------------------------------------------- overlapping flushes and bumps

  /** A flush in progress: collecting, or committed but not yet subtracted. */
  datatype Worker = Idle | Scanning(updates: seq<Update>) | Committed(updates: seq<Update>)

  datatype Sys = Sys(redis: Redis, db: Table, workers: seq<Worker>)

  datatype Event =
    | Bump(key: Key, delta: int)          // INCRBY
    | Direct(key: Key, delta: int)        // a like or view counted straight in the table
    | Page(i: nat, keys: seq<Key>)        // SCAN and MGET of one page
    | Commit(i: nat, ok: bool)            // the transaction; it may abort
    | Subtract(i: nat)                    // the MULTI of DECRBYs

  function Step(s: Sys, e: Event): Sys {
    match e
    case Bump(k, d) => s.(redis := s.redis[k := Val(s.redis, k) + d])
    case Direct(k, d) =>
      if k.product in s.db then s.(db := s.db[k.product := s.db[k.product].Add(k.kind, d)]) else s
    case Page(i, keys) =>
      if i < |s.workers| && !s.workers[i].Committed? then
        var got := if s.workers[i].Scanning? then s.workers[i].updates else [];
        s.(workers := s.workers[i := Scanning(got + PageUpdates(s.redis, keys))])
      else s
    case Commit(i, ok) =>
      if i < |s.workers| && s.workers[i].Scanning? then
        var us := s.workers[i].updates;
        var db' := ApplyGroups(s.db, Group(us));
        if us == [] || !ok || db'.None? then s.(workers := s.workers[i := Idle])
        else s.(db := db'.value, workers := s.workers[i := Committed(us)])
      else s
    case Subtract(i) =>
      if i < |s.workers| && s.workers[i].Committed? then
        s.(redis := DecrAll(s.redis, s.workers[i].updates), workers := s.workers[i := Idle])
      else s
  }

  function Run(s: Sys, es: seq<Event>): Sys {
    if es == [] then s else Step(Run(s, es[..|es| - 1]), es[|es| - 1])
  }

  /** Committed to the table but still in Redis. */
  function Pending(ws: seq<Worker>, k: Key): int {
    if ws == [] then 0
    else
      var w := ws[|ws| - 1];
      Pending(ws[..|ws| - 1], k) + if w.Committed? then SumFor(w.updates, k) else 0
  }

  /** What the events of a run counted for a key. */
  function Counted(s: Sys, es: seq<Event>, k: Key): int {
    if es == [] then 0
    else
      var e := es[|es| - 1];
      Counted(s, es[..|es| - 1], k)
      + if e.Bump? && e.key == k then e.delta
        else if e.Direct? && e.key == k && k.product in Run(s, es[..|es| - 1]).db then e.delta
        else 0
  }

  lemma {:induction false} PendingUpdate(ws: seq<Worker>, i: nat, w: Worker, k: Key)
    requires i < |ws|
    ensures Pending(ws[i := w], k) == Pending(ws, k)
              - (if ws[i].Committed? then SumFor(ws[i].updates, k) else 0)
              + (if w.Committed? then SumFor(w.updates, k) else 0)
  {
    var n := |ws| - 1;
    if i < n {
      assert ws[i := w][..n] == ws[..n][i := w];
      PendingUpdate(ws[..n], i, w, k);
    } else {
      assert ws[i := w][..n] == ws[..n];
    }
  }

  function Books(s: Sys, k: Key): int {
    Col(s.db, k) + Val(s.redis, k) - Pending(s.workers, k)
  }

  lemma StepConserves(s: Sys, e: Event, k: Key)
    ensures Books(Step(s, e), k) == Books(s, k) +
              if e.Bump? && e.key == k then e.delta
              else if e.Direct? && e.key == k && k.product in s.db then e.delta
              else 0
  {
    if !e.Bump? && !e.Direct? && e.i < |s.workers| {
      var s' := Step(s, e);
      PendingUpdate(s.workers, e.i, s'.workers[e.i], k);
      assert s'.workers == s.workers[e.i := s'.workers[e.i]];
      if e.Subtract? && s.workers[e.i].Committed? {
        DecrSubtractsSums(s.redis, s.workers[e.i].updates, k);
      }
      if e.Commit? && s'.workers[e.i].Committed? && s.workers[e.i].Scanning? {
        ApplyAddsSums(s.db, s.workers[e.i].updates, k);
      }
    }
  }

  /** Conservation over every run: table plus Redis, less what is committed but not yet
      subtracted, is the start plus everything counted, for every key. */
  lemma {:induction false} Conservation(s: Sys, es: seq<Event>, k: Key)
    ensures Books(Run(s, es), k) == Books(s, k) + Counted(s, es, k)
  {
    if es != [] {
      Conservation(s, es[..|es| - 1], k);
      StepConserves(Run(s, es[..|es| - 1]), es[|es| - 1], k);
    }
  }

  lemma {:induction false} NothingPending(ws: seq<Worker>, k: Key)
    requires forall i :: 0 <= i < |ws| ==> !ws[i].Committed?
    ensures Pending(ws, k) == 0
  {
    if ws != [] { NothingPending(ws[..|ws| - 1], k); }
  }

  /** At quiescence the two stores together hold exactly what was counted. */
  lemma {:induction false} ExactAtQuiescence(s: Sys, es: seq<Event>, k: Key)
    requires forall i :: 0 <= i < |s.workers| ==> !s.workers[i].Committed?
    requires forall i :: 0 <= i < |Run(s, es).workers| ==> !Run(s, es).workers[i].Committed?
    ensures Col(Run(s, es).db, k) + Val(Run(s, es).redis, k)
         == Col(s.db, k) + Val(s.redis, k) + Counted(s, es, k)
  {
    Conservation(s, es, k);
    NothingPending(s.workers, k);
    NothingPending(Run(s, es).workers, k);
  }

  lemma PageCommits(redis: Redis, db: Table, keys: seq<Key>)
    requires forall h: Key :: h in keys && Val(redis, h) != 0 ==> h.product in db
    ensures ApplyGroups(db, Group(PageUpdates(redis, keys))).Some?
  {
    var us := PageUpdates(redis, keys);
    PageHolds(redis, keys);
    GroupKeys(us);
    forall p | p in Group(us) ensures p in db {
      var u :| u in us && u.key.product == p;
    }
  }

  lemma NoGroups(db: Table)
    ensures ApplyGroups(db, map[]) == Some(db)
  {
    var next := ApplyGroups(db, map[]).value;
    assert next == db;
  }

  lemma CommitAndSubtract(s: Sys, i: nat, us: seq<Update>) returns (t: Sys)
    requires i < |s.workers| && s.workers[i] == Scanning(us) && ApplyGroups(s.db, Group(us)).Some?
    ensures t == Step(Step(s, Commit(i, true)), Subtract(i)) && t.workers == s.workers[i := Idle]
    ensures t.redis == DecrAll(s.redis, us) && ApplyGroups(s.db, Group(us)) == Some(t.db)
  {
    var committed := Step(s, Commit(i, true));
    t := Step(committed, Subtract(i));
    if us == [] {
      NoGroups(s.db);
      assert committed == s.(workers := s.workers[i := Idle]);
    } else {
      assert committed == Sys(s.redis, ApplyGroups(s.db, Group(us)).value, s.workers[i := Committed(us)]);
    }
  }

  /** The steps of one worker's flush, with nothing in between. */
  lemma {:induction false} FlushSteps(s: Sys, i: nat, keys: seq<Key>) returns (t: Sys)
    requires i < |s.workers| && s.workers[i] == Idle
    requires forall h: Key :: h in keys && Val(s.redis, h) != 0 ==> h.product in s.db
    ensures t == Step(Step(Step(s, Page(i, keys)), Commit(i, true)), Subtract(i)) && t.workers == s.workers
    ensures t.redis == DecrAll(s.redis, PageUpdates(s.redis, keys))
    ensures ApplyGroups(s.db, Group(PageUpdates(s.redis, keys))) == Some(t.db)
  {
    var us := PageUpdates(s.redis, keys);
    PageCommits(s.redis, s.db, keys);
    var scanned := Step(s, Page(i, keys));
    assert scanned == s.(workers := s.workers[i := Scanning(us)]) by { assert [] + us == us; }
    t := CommitAndSubtract(scanned, i, us);
    assert t.workers == s.workers;
  }

  /** A flush of one worker that nothing interleaves with does what `FlushBatch` does. */
  lemma {:induction false} FlushInSteps(s: Sys, i: nat, keys: seq<Key>, k: Key) returns (t: Sys)
    requires i < |s.workers| && s.workers[i] == Idle
    requires forall h: Key :: h in keys && Val(s.redis, h) != 0 ==> h.product in s.db
    ensures t == Step(Step(Step(s, Page(i, keys)), Commit(i, true)), Subtract(i)) && t.workers == s.workers
    ensures Val(t.redis, k) == Val(s.redis, k) - multiset(keys)[k] * Val(s.redis, k)
    ensures Col(t.db, k) == Col(s.db, k) + multiset(keys)[k] * Val(s.redis, k)
  {
    var us := PageUpdates(s.redis, keys);
    t := FlushSteps(s, i, keys);
    PageSum(s.redis, keys, k);
    MultipleMeaning(multiset(keys)[k], Val(s.redis, k));
    ApplyAddsSums(s.db, us, k);
    DecrSubtractsSums(s.redis, us, k);
  }
}
