/** `LikesService` (and `ProductService.toggleLike`, which runs the same two
    transactions): the like rows, the denormalised counter, and the user's list. */
module Likes {
  import opened Common
  import opened Enumeration
  import opened Keyset
  import opened MovingKeys

  /** (user, product) is the primary key of a like row; the value is its creation time. */
  type LikeRows = map<(nat, nat), int>

  function OfProduct(likes: LikeRows, p: nat): set<(nat, nat)> {
    set l | l in likes && l.1 == p
  }

  /** The counter of every product is its number of like rows, and rows refer to products. */
  ghost predicate CountsMatch(likes: LikeRows, counts: map<nat, int>) {
    && (forall p :: p in counts ==> counts[p] == |OfProduct(likes, p)|)
    && (forall l :: l in likes ==> l.1 in counts)
  }

  // ---------------------------------------------------------------- transactions

  /** Create the row and increment, or neither: the row must be new, the product present. */
  function LikeTx(likes: LikeRows, counts: map<nat, int>, u: nat, p: nat, now: int): Option<(LikeRows, map<nat, int>)> {
    if (u, p) in likes || p !in counts then None
    else Some((likes[(u, p) := now], counts[p := counts[p] + 1]))
  }

  /** Delete the row and decrement, or neither. */
  function UnlikeTx(likes: LikeRows, counts: map<nat, int>, u: nat, p: nat): Option<(LikeRows, map<nat, int>)> {
    if (u, p) !in likes || p !in counts then None
    else Some((likes - {(u, p)}, counts[p := counts[p] - 1]))
  }

  lemma CountWith(likes: LikeRows, l: (nat, nat), now: int, q: nat)
    requires l !in likes
    ensures |OfProduct(likes[l := now], q)| == |OfProduct(likes, q)| + (if q == l.1 then 1 else 0)
  {
    if q == l.1 {
      assert OfProduct(likes[l := now], q) == OfProduct(likes, q) + {l};
    } else {
      assert OfProduct(likes[l := now], q) == OfProduct(likes, q);
    }
  }

  lemma CountWithout(likes: LikeRows, l: (nat, nat), q: nat)
    requires l in likes
    ensures |OfProduct(likes - {l}, q)| == |OfProduct(likes, q)| - (if q == l.1 then 1 else 0)
  {
    if q == l.1 {
      assert OfProduct(likes - {l}, q) == OfProduct(likes, q) - {l};
    } else {
      assert OfProduct(likes - {l}, q) == OfProduct(likes, q);
    }
  }

  lemma LikeKeepsCounts(likes: LikeRows, counts: map<nat, int>, u: nat, p: nat, now: int)
    requires CountsMatch(likes, counts) && LikeTx(likes, counts, u, p, now).Some?
    ensures var t := LikeTx(likes, counts, u, p, now).value; CountsMatch(t.0, t.1)
  {
    forall q | q in counts
      ensures |OfProduct(likes[(u, p) := now], q)| == |OfProduct(likes, q)| + (if q == p then 1 else 0)
    {
      CountWith(likes, (u, p), now, q);
    }
  }

  lemma UnlikeKeepsCounts(likes: LikeRows, counts: map<nat, int>, u: nat, p: nat)
    requires CountsMatch(likes, counts) && UnlikeTx(likes, counts, u, p).Some?
    ensures var t := UnlikeTx(likes, counts, u, p).value; CountsMatch(t.0, t.1)
  {
    forall q | q in counts
      ensures |OfProduct(likes - {(u, p)}, q)| == |OfProduct(likes, q)| - (if q == p then 1 else 0)
    {
      CountWithout(likes, (u, p), q);
    }
  }

  // ------------------------------------------------------------- interleaved calls

  /** A toggle in progress: the lookup and the transaction are separate steps. */
  datatype Caller = Idle | Looked(user: nat, product: nat, existed: bool)

  datatype Sys = Sys(likes: LikeRows, counts: map<nat, int>, callers: seq<Caller>)

  datatype Event =
    | NewProduct(p: nat)
    | Lookup(i: nat, u: nat, p: nat)
    | Transact(i: nat, ok: bool, now: int)

  function Step(s: Sys, e: Event): Sys {
    match e
    case NewProduct(p) => if p in s.counts then s else s.(counts := s.counts[p := 0])
    case Lookup(i, u, p) =>
      if i < |s.callers| then s.(callers := s.callers[i := Looked(u, p, (u, p) in s.likes)]) else s
    case Transact(i, ok, now) =>
      if i < |s.callers| && s.callers[i].Looked? then
        var c := s.callers[i];
        var t := if c.existed then UnlikeTx(s.likes, s.counts, c.user, c.product)
                 else LikeTx(s.likes, s.counts, c.user, c.product, now);
        if ok && t.Some? then Sys(t.value.0, t.value.1, s.callers[i := Idle])
        else s.(callers := s.callers[i := Idle])
      else s
  }

  function Run(s: Sys, es: seq<Event>): Sys {
    if es == [] then s else Step(Run(s, es[..|es| - 1]), es[|es| - 1])
  }

  /** With any number of toggles interleaving between lookup and transaction, the
      counter of every product is its number of like rows after every step. */
  lemma {:induction false} CounterAlwaysMatchesRows(s: Sys, es: seq<Event>)
    requires CountsMatch(s.likes, s.counts)
    ensures CountsMatch(Run(s, es).likes, Run(s, es).counts)
  {
    if es != [] {
      CounterAlwaysMatchesRows(s, es[..|es| - 1]);
      var t, e := Run(s, es[..|es| - 1]), es[|es| - 1];
      match e
      case NewProduct(p) =>
        if p !in t.counts { assert OfProduct(t.likes, p) == {}; }
      case Lookup(_, _, _) =>
      case Transact(i, ok, now) =>
        if i < |t.callers| && t.callers[i].Looked? {
          var c := t.callers[i];
          if c.existed {
            if UnlikeTx(t.likes, t.counts, c.user, c.product).Some? {
              UnlikeKeepsCounts(t.likes, t.counts, c.user, c.product);
            }
          } else if LikeTx(t.likes, t.counts, c.user, c.product, now).Some? {
            LikeKeepsCounts(t.likes, t.counts, c.user, c.product, now);
          }
        }
    }
  }

  /** Two toggles of the same like that both saw no row: the second one changes nothing. */
  lemma LosingToggleAborts(s: Sys, i: nat, j: nat, now: int, later: int)
    requires i < |s.callers| && j < |s.callers| && i != j
    requires s.callers[i].Looked? && s.callers[i] == s.callers[j]
    ensures var once := Step(s, Transact(i, true, now));
            var twice := Step(once, Transact(j, true, later));
            once.likes != s.likes ==> twice.likes == once.likes && twice.counts == once.counts
  {
  }

  /** A toggle that nothing comes between flips the row and moves the counter with it. */
  lemma WholeToggle(s: Sys, i: nat, u: nat, p: nat, now: int)
    requires i < |s.callers| && p in s.counts
    ensures var t := Step(Step(s, Lookup(i, u, p)), Transact(i, true, now));
            && t.callers == s.callers[i := Idle]
            && ((u, p) in s.likes ==> t.likes == s.likes - {(u, p)} && t.counts == s.counts[p := s.counts[p] - 1])
            && ((u, p) !in s.likes ==>
                  t.likes == s.likes[(u, p) := now] && t.counts == s.counts[p := s.counts[p] + 1])
  {
    var looked := Step(s, Lookup(i, u, p));
    assert looked.callers[i := Idle] == s.callers[i := Idle];
  }

  // -------------------------------------------------------------------- service

  datatype LikeItem = LikeItem(product: nat, likedAt: int)

  function ItemsOf(page: seq<Entry<nat>>): seq<LikeItem> {
    seq(|page|, i requires 0 <= i < |page| => LikeItem(page[i].id, page[i].primary))
  }

  /** The user's like rows as entries ordered by creation time, then product. */
  ghost predicate UserEntries(likes: LikeRows, u: nat, es: seq<Entry<nat>>) {
    && DistinctIds(es)
    && (forall e :: e in es <==> (u, e.id) in likes && likes[(u, e.id)] == e.primary && e.tie == 0 && e.row == e.id)
  }

  lemma LeftOut(likes: LikeRows, u: nat, es: seq<Entry<nat>>, c: Option<Cursor>, n: nat, p: nat)
    requires UserEntries(likes, u, es) && (u, p) in likes
    requires AdmitsOpt(c, Entry(likes[(u, p)], 0, p, p))
    requires LikeItem(p, likes[(u, p)]) !in ItemsOf(FindMany(es, c, n))
    ensures var page := FindMany(es, c, n);
            |page| == n && forall i :: 0 <= i < n ==> Before(page[i], Entry(likes[(u, p)], 0, p, p))
  {
    PageMeaning(es, c, n);
    var page, e := FindMany(es, c, n), Entry(likes[(u, p)], 0, p, p);
    assert e in es;
    forall i | 0 <= i < |page| ensures page[i] != e {
      assert ItemsOf(page)[i] == LikeItem(page[i].id, page[i].primary);
    }
    assert forall i :: 0 <= i < |page| ==> page[i] in page;
  }

  /** A page as a list of likes. */
  lemma PageOfLikes(likes: LikeRows, u: nat, es: seq<Entry<nat>>, c: Option<Cursor>, n: nat)
    requires UserEntries(likes, u, es)
    ensures var items := ItemsOf(FindMany(es, c, n));
            && |items| <= n
            && (forall i, j :: 0 <= i < j < |items| ==>
                  || items[i].likedAt > items[j].likedAt
                  || (items[i].likedAt == items[j].likedAt && items[i].product > items[j].product))
            && (forall x :: x in items ==>
                  && (u, x.product) in likes && likes[(u, x.product)] == x.likedAt
                  && (c.None? || x.likedAt < c.value.primary
                      || (x.likedAt == c.value.primary && x.product < c.value.id)))
            && (forall p :: ((u, p) in likes && LikeItem(p, likes[(u, p)]) !in items
                  && (c.None? || likes[(u, p)] < c.value.primary
                      || (likes[(u, p)] == c.value.primary && p < c.value.id))) ==>
                  && |items| == n
                  && forall i :: 0 <= i < n ==>
                       || items[i].likedAt > likes[(u, p)]
                       || (items[i].likedAt == likes[(u, p)] && items[i].product > p))
  {
    PageMeaning(es, c, n);
    var page := FindMany(es, c, n);
    var items := ItemsOf(page);
    forall i | 0 <= i < |items| ensures page[i] in page && page[i] in es && AdmitsOpt(c, page[i]) {}
    forall i, j | 0 <= i < j < |items| ensures Before(page[i], page[j]) {}
    forall p | (u, p) in likes && LikeItem(p, likes[(u, p)]) !in items && AdmitsOpt(c, Entry(likes[(u, p)], 0, p, p))
      ensures |items| == n && forall i :: 0 <= i < n ==>
                || items[i].likedAt > likes[(u, p)]
                || (items[i].likedAt == likes[(u, p)] && items[i].product > p)
    {
      LeftOut(likes, u, es, c, n, p);
      forall i | 0 <= i < n ensures Before(page[i], Entry(likes[(u, p)], 0, p, p)) {}
    }
  }

  class LikesService {
    var likes: LikeRows
    var counts: map<nat, int>

    ghost predicate Valid()
      reads this
    {
      CountsMatch(likes, counts)
    }

    constructor (products: set<nat>)
      ensures Valid() && likes == map[] && counts.Keys == products
    {
      likes := map[];
      counts := map p | p in products :: 0;
      new;
      forall p | p in counts ensures OfProduct(likes, p) == {} {}
    }

    /** `toggle`, when nothing runs between its lookup and its transaction. */
    method Toggle(u: nat, p: nat, now: int) returns (r: Result<bool>)
      requires Valid()
      modifies this
      ensures Valid()
      ensures r == if p in old(counts) then Ok((u, p) !in old(likes)) else Err(Internal)
      ensures r.Ok? ==> ((u, p) in likes <==> r.value)
      ensures r == Ok(true) ==> likes[(u, p)] == now
      ensures r.Ok? ==> likes - {(u, p)} == old(likes) - {(u, p)}
      ensures r.Ok? ==> counts == old(counts)[p := old(counts)[p] + if r.value then 1 else -1]
      ensures r.Err? ==> likes == old(likes) && counts == old(counts)
    {
      var existing := (u, p) in likes;
      var t := if existing then UnlikeTx(likes, counts, u, p) else LikeTx(likes, counts, u, p, now);
      if t.None? { return Err(Internal); }
      if existing { UnlikeKeepsCounts(likes, counts, u, p); } else { LikeKeepsCounts(likes, counts, u, p, now); }
      likes, counts := t.value.0, t.value.1;
      r := Ok(!existing);
    }

    /** The user's like rows, in some order. */
    method UserRows(u: nat) returns (rows: seq<Entry<nat>>)
      ensures UserEntries(likes, u, rows)
    {
      rows := [];
      var rest := likes.Keys;
      while rest != {}
        invariant rest <= likes.Keys
        invariant DistinctIds(rows)
        invariant forall e :: e in rows <==>
          ((u, e.id) in likes && (u, e.id) !in rest && likes[(u, e.id)] == e.primary && e.tie == 0 && e.row == e.id)
        decreases rest
      {
        var l :| l in rest;
        ghost var before := rows;
        rest := rest - {l};
        if l.0 == u {
          assert forall i :: 0 <= i < |rows| ==> rows[i] in rows && rows[i].id != l.1;
          rows := rows + [Entry(likes[l], 0, l.1, l.1)];
          assert forall e :: e in rows <==> e in before || e == Entry(likes[l], 0, l.1, l.1);
        }
      }
    }

    /** `listForUser`: one page of the user's likes and its cursor. The items are the user's
        likes behind the cursor, newest first and then by product, descending; a like that is
        left out comes after all of them, and then the page is full. A full page carries the
        time and product of its last item. */
    method ListForUser(u: nat, limit: int, cursor: Option<Cursor>)
        returns (items: seq<LikeItem>, next: Option<Cursor>, ghost n: nat)
      ensures n == if limit < 1 then 1 else if limit > 60 then 60 else limit
      ensures |items| <= n
      ensures forall i, j :: 0 <= i < j < |items| ==>
                || items[i].likedAt > items[j].likedAt
                || (items[i].likedAt == items[j].likedAt && items[i].product > items[j].product)
      ensures forall x :: x in items ==>
                && (u, x.product) in likes && likes[(u, x.product)] == x.likedAt
                && (cursor.None? || x.likedAt < cursor.value.primary
                    || (x.likedAt == cursor.value.primary && x.product < cursor.value.id))
      ensures forall p :: ((u, p) in likes && LikeItem(p, likes[(u, p)]) !in items
                && (cursor.None? || likes[(u, p)] < cursor.value.primary
                    || (likes[(u, p)] == cursor.value.primary && p < cursor.value.id))) ==>
                && |items| == n
                && forall i :: 0 <= i < n ==>
                     || items[i].likedAt > likes[(u, p)]
                     || (items[i].likedAt == likes[(u, p)] && items[i].product > p)
      ensures next == if |items| == n then Some(Cursor(items[n - 1].likedAt, items[n - 1].product)) else None
      ensures forall es: seq<Entry<nat>> :: UserEntries(likes, u, es) ==>
                var page := FindMany(es, cursor, n);
                items == ItemsOf(page) && next == NextCursor(page, n)
    {
      var take := if limit < 1 then 1 else if limit > 60 then 60 else limit;
      n := take;
      var rows := UserRows(u);
      forall es: seq<Entry<nat>> | UserEntries(likes, u, es)
        ensures FindMany(es, cursor, take) == FindMany(rows, cursor, take)
      {
        FindManyCanonical(es, rows, cursor, take);
      }
      PageOfLikes(likes, u, rows, cursor, take);
      var page := FindMany(rows, cursor, take);
      items := ItemsOf(page);
      next := if |items| == take then Some(Cursor(items[take - 1].likedAt, items[take - 1].product)) else None;
    }
  }

  /** Load-more over a user's likes lists each like exactly once, newest first, for every page size. */
  lemma LikeListEnumerates(likes: LikeRows, u: nat, es: seq<Entry<nat>>)
    requires UserEntries(likes, u, es)
    ensures EnumeratesAll(es)
  {
    forall e | e in Rows(es) ensures e.tie == 0 { assert e in es; }
    NoTieAgrees(Rows(es));
    EnumeratesIffAgree(es);
  }

  /** A like of both states is the same one, or was given anew in between. */
  ghost predicate ClockOrder(a: LikeRows, b: LikeRows) {
    forall l :: l in a && l in b ==> a[l] <= b[l]
  }

  /** The user's list as of each page read. */
  ghost predicate LikeHistory(states: seq<LikeRows>, u: nat, ts: seq<seq<Entry<nat>>>) {
    && |ts| == |states|
    && (forall i :: 0 <= i < |ts| ==> UserEntries(states[i], u, ts[i]))
    && (forall i, j :: 0 <= i < j < |states| ==> ClockOrder(states[i], states[j]))
  }

  lemma LikesRise(states: seq<LikeRows>, u: nat, ts: seq<seq<Entry<nat>>>)
    requires LikeHistory(states, u, ts)
    ensures Agree(AllRows(ts)) && Within(ts, AllRows(ts)) && Rising(ts)
  {
    var s := AllRows(ts);
    forall e | e in s ensures e.tie == 0 {
      assert InSome(ts, e);
      var i :| 0 <= i < |ts| && e in ts[i];
      assert UserEntries(states[i], u, ts[i]);
    }
    NoTieAgrees(s);
    forall i | 0 <= i < |ts| ensures DistinctIds(ts[i]) && WithinTable(ts[i], s) {
      assert UserEntries(states[i], u, ts[i]);
      forall e | e in ts[i] ensures e in s { assert InSome(ts, e); }
    }
    forall i, j | 0 <= i < j < |ts| ensures NeverFalls(ts[i], ts[j]) {
      assert UserEntries(states[i], u, ts[i]) && UserEntries(states[j], u, ts[j]) && ClockOrder(states[i], states[j]);
    }
  }

  /** Load-more over a list that changes between pages, with products unliked and liked
      again: no product comes twice. */
  lemma LikeListUnderChange(states: seq<LikeRows>, u: nat, ts: seq<seq<Entry<nat>>>, limit: nat)
    requires LikeHistory(states, u, ts) && limit >= 1
    ensures DistinctIds(Pages(ts, limit, None))
  {
    LikesRise(states, u, ts);
    NoneTwice(ts, limit, None, AllRows(ts));
  }

  lemma LikedThroughout(states: seq<LikeRows>, u: nat, ts: seq<seq<Entry<nat>>>, p: nat)
    requires LikeHistory(states, u, ts) && forall i :: 0 <= i < |states| ==> (u, p) in states[i]
    ensures AlwaysThere(ts, p)
    ensures forall i :: 0 <= i < |ts| ==> RowOf(ts[i], p) == Entry(states[i][(u, p)], 0, p, p)
  {
    forall i | 0 <= i < |ts| ensures HasId(ts[i], p) && RowOf(ts[i], p) == Entry(states[i][(u, p)], 0, p, p) {
      assert UserEntries(states[i], u, ts[i]);
      assert Entry(states[i][(u, p)], 0, p, p) in ts[i];
    }
  }

  /** A product liked in every state read is listed, once the pages are drained, if and only
      if it was not liked again between two pages from behind the cursor to before it. One
      whose like stays always is. */
  lemma LikeListedIff(states: seq<LikeRows>, u: nat, ts: seq<seq<Entry<nat>>>, limit: nat, p: nat)
    requires LikeHistory(states, u, ts) && limit >= 1 && Drained(ts, limit, None)
    requires forall i :: 0 <= i < |states| ==> (u, p) in states[i]
    ensures AlwaysThere(ts, p)
    ensures HasId(Pages(ts, limit, None), p) <==> !Leaps(ts, limit, None, p)
    ensures (forall i :: 0 <= i < |states| ==> states[i][(u, p)] == states[0][(u, p)])
            ==> HasId(Pages(ts, limit, None), p)
  {
    LikesRise(states, u, ts);
    LikedThroughout(states, u, ts, p);
    ListedIff(ts, limit, None, AllRows(ts), p);
    if forall i :: 0 <= i < |states| ==> states[i][(u, p)] == states[0][(u, p)] {
      SteadyNeverLeaps(ts, limit, None, p);
    }
  }

  /** A product liked again after the first page can be missed: it is on the list in both
      states read and on none of the pages. */
  lemma LikedAgainIsMissed(u: nat) returns (states: seq<LikeRows>, ts: seq<seq<Entry<nat>>>)
    ensures LikeHistory(states, u, ts) && Drained(ts, 1, None)
    ensures forall i :: 0 <= i < |states| ==> (u, 1) in states[i]
    ensures !HasId(Pages(ts, 1, None), 1)
  {
    var old1, new1, two := Entry(10, 0, 1, 1), Entry(30, 0, 1, 1), Entry(20, 0, 2, 2);
    states := [map[(u, 1) := 10, (u, 2) := 20], map[(u, 1) := 30, (u, 2) := 20]];
    ts := [[old1, two], [new1, two]];
    assert two in ts[0];
    TopRow(ts[0], None, two);
    var next := Some(Cursor(20, 2));
    assert NextCursor([two], 1) == next;
    NoRow(ts[1], next, 1);
    assert ts[1..] == [ts[1]];
    assert Pages(ts[1..], 1, next) == [];
    assert Pages(ts, 1, None) == [two];
  }
}
