/** Following cursors while the sort keys themselves move: a row may come back, or be counted
    up, between two pages, but only towards the front of the order. */
module MovingKeys {
  import opened Common
  import opened Keyset

  /** A row of both states is not further back in the later one. */
  ghost predicate NeverFalls<R(!new)>(t: seq<Entry<R>>, later: seq<Entry<R>>) {
    forall a, b :: a in t && b in later && a.id == b.id ==> !Before(a, b)
  }

  ghost predicate Rising<R(!new)>(ts: seq<seq<Entry<R>>>) {
    forall i, j :: 0 <= i < j < |ts| ==> NeverFalls(ts[i], ts[j])
  }

  ghost predicate InSome<R(!new)>(ts: seq<seq<Entry<R>>>, e: Entry<R>) {
    exists i :: 0 <= i < |ts| && e in ts[i]
  }

  /** All rows of any state. */
  ghost function AllRows<R(!new)>(ts: seq<seq<Entry<R>>>): iset<Entry<R>> {
    iset e | InSome(ts, e)
  }

  ghost predicate HasId<R(!new)>(t: seq<Entry<R>>, id: nat) {
    exists e :: e in t && e.id == id
  }

  ghost function RowOf<R(!new)>(t: seq<Entry<R>>, id: nat): (e: Entry<R>)
    requires HasId(t, id)
    ensures e in t && e.id == id
  {
    var e :| e in t && e.id == id;
    e
  }

  lemma OneRow<R(!new)>(t: seq<Entry<R>>, a: Entry<R>, b: Entry<R>)
    requires DistinctIds(t) && a in t && b in t && a.id == b.id
    ensures a == b
  {
    var i :| 0 <= i < |t| && t[i] == a;
    var j :| 0 <= j < |t| && t[j] == b;
    assert i == j;
  }

  /** The states after the first, once a page of it has been read. */
  lemma RestOfStates<R(!new)>(ts: seq<seq<Entry<R>>>, s: iset<Entry<R>>)
    requires ts != [] && Within(ts, s) && Rising(ts)
    ensures Within(ts[1..], s) && Rising(ts[1..])
    ensures DistinctIds(ts[0]) && WithinTable(ts[0], s)
    ensures forall j :: 0 <= j < |ts[1..]| ==> NeverFalls(ts[0], ts[1..][j])
  {
  }

  /** What is listed comes from one of the states read. */
  lemma {:induction false} PagesFromStates<R(!new)>(ts: seq<seq<Entry<R>>>, limit: nat, c: Option<Cursor>, e: Entry<R>)
    requires (forall i :: 0 <= i < |ts| ==> DistinctIds(ts[i])) && e in Pages(ts, limit, c)
    ensures InSome(ts, e)
  {
    if ts != [] {
      PageMeaning(ts[0], c, limit);
      if e !in FindMany(ts[0], c, limit) {
        PagesFromStates(ts[1..], limit, NextCursor(FindMany(ts[0], c, limit), limit), e);
        var i :| 0 <= i < |ts[1..]| && e in ts[1..][i];
        assert e in ts[i + 1];
      }
    }
  }

  /** Every row of a page is its last one or ahead of it. */
  lemma LastOfPage<R(!new)>(p: seq<Entry<R>>, a: Entry<R>)
    requires Sorted(p) && a in p
    ensures !Before(p[|p| - 1], a)
  {
    var i :| 0 <= i < |p| && p[i] == a;
    assert i == |p| - 1 || Before(p[i], p[|p| - 1]);
  }

  /** What has been read of the first state: a full page, and the cursor to its last row. */
  lemma FullPage<R(!new)>(t: seq<Entry<R>>, limit: nat, c: Option<Cursor>, s: iset<Entry<R>>)
      returns (p: seq<Entry<R>>, last: Entry<R>)
    requires limit >= 1 && Agree(s) && DistinctIds(t) && WithinTable(t, s)
    requires NextCursor(FindMany(t, c, limit), limit).Some?
    ensures p == FindMany(t, c, limit) && NextCursor(p, limit) == Some(CursorOf(last))
    ensures last in s && last in p && Sorted(p) && (forall f :: f in p ==> f in t && !Before(last, f))
    ensures AdmitsOpt(c, last)
    ensures forall f :: f in t && f !in p && AdmitsOpt(c, f) ==> Before(last, f)
  {
    PageMeaning(t, c, limit);
    p := FindMany(t, c, limit);
    last := p[limit - 1];
    assert last in p;
    forall f | f in p ensures !Before(last, f) { LastOfPage(p, f); }
  }

  /** A row of a page does not come back on a later one. */
  lemma {:induction false} NoReturn<R(!new)>(ts: seq<seq<Entry<R>>>, limit: nat, c: Option<Cursor>, s: iset<Entry<R>>,
        last: Entry<R>, a: Entry<R>, b: Entry<R>)
    requires limit >= 1 && Agree(s) && Within(ts, s) && last in s
    requires forall j :: 0 <= j < |ts| ==> forall f :: f in ts[j] && f.id == a.id ==> !Before(a, f)
    requires !Before(last, a) && c == Some(CursorOf(last)) && b in Pages(ts, limit, c)
    ensures a.id != b.id
  {
    PagesDescend(ts, limit, c, s);
    assert Before(last, b);
    PagesFromStates(ts, limit, c, b);
    var j :| 0 <= j < |ts| && b in ts[j];
  }

  lemma PageDistinct<R(!new)>(t: seq<Entry<R>>, p: seq<Entry<R>>)
    requires DistinctIds(t) && Sorted(p) && forall f :: f in p ==> f in t
    ensures DistinctIds(p)
  {
    forall i, j | 0 <= i < j < |p| ensures p[i].id != p[j].id {
      assert Before(p[i], p[j]) && p[i] in p && p[j] in p;
    }
  }

  /** While rows come, go, come back and move up between pages, no row is listed twice. */
  lemma {:induction false} NoneTwice<R(!new)>(ts: seq<seq<Entry<R>>>, limit: nat, c: Option<Cursor>, s: iset<Entry<R>>)
    requires limit >= 1 && Agree(s) && Within(ts, s) && Rising(ts)
    ensures DistinctIds(Pages(ts, limit, c))
    decreases |ts|
  {
    if ts != [] {
      RestOfStates(ts, s);
      PageMeaning(ts[0], c, limit);
      PageDistinct(ts[0], FindMany(ts[0], c, limit));
      if NextCursor(FindMany(ts[0], c, limit), limit).Some? {
        var p, last := FullPage(ts[0], limit, c, s);
        var next := Some(CursorOf(last));
        NoneTwice(ts[1..], limit, next, s);
        var rest := Pages(ts[1..], limit, next);
        forall i, j | 0 <= i < |p| && 0 <= j < |rest| ensures p[i].id != rest[j].id {
          assert p[i] in p && rest[j] in rest;
          NoReturn(ts[1..], limit, next, s, last, p[i], rest[j]);
        }
      }
    }
  }

  // ------------------------------------------------------------ rows that are missed

  ghost predicate AlwaysThere<R(!new)>(ts: seq<seq<Entry<R>>>, id: nat) {
    forall i :: 0 <= i < |ts| ==> HasId(ts[i], id)
  }

  /** Between two pages the row moves from behind the cursor to before it. */
  ghost predicate Leaps<R(!new)>(ts: seq<seq<Entry<R>>>, limit: nat, c: Option<Cursor>, id: nat)
    requires AlwaysThere(ts, id)
    decreases |ts|
  {
    && |ts| >= 2
    && var next := NextCursor(FindMany(ts[0], c, limit), limit);
       && next.Some?
       && ((Admits(next.value, RowOf(ts[0], id)) && !Admits(next.value, RowOf(ts[1], id)))
           || Leaps(ts[1..], limit, next, id))
  }

  lemma NotOnPage<R(!new)>(t: seq<Entry<R>>, p: seq<Entry<R>>, e: Entry<R>)
    requires DistinctIds(t) && e in t && e !in p && forall f :: f in p ==> f in t
    ensures !HasId(p, e.id)
  {
    forall f | f in p && f.id == e.id ensures false { OneRow(t, e, f); }
  }

  /** A row that has once been before the cursor stays there. */
  lemma {:induction false} StaysBefore<R(!new)>(ts: seq<seq<Entry<R>>>, limit: nat, last: Entry<R>, s: iset<Entry<R>>,
        id: nat)
    requires limit >= 1 && Agree(s) && Within(ts, s) && Rising(ts) && AlwaysThere(ts, id) && last in s
    requires ts != [] ==> !Before(last, RowOf(ts[0], id))
    ensures !Leaps(ts, limit, Some(CursorOf(last)), id)
    ensures !HasId(Pages(ts, limit, Some(CursorOf(last))), id)
    decreases |ts|
  {
    if ts != [] {
      var c := Some(CursorOf(last));
      RestOfStates(ts, s);
      PageMeaning(ts[0], c, limit);
      var p := FindMany(ts[0], c, limit);
      var next := NextCursor(p, limit);
      var e := RowOf(ts[0], id);
      NotOnPage(ts[0], p, e);
      if next.Some? {
        var last' := p[limit - 1];
        assert last' in p && Before(last, last');
        if |ts| >= 2 {
          assert NeverFalls(ts[0], ts[1..][0]);
          assert !Before(e, RowOf(ts[1], id));
          assert ts[1..][0] == ts[1];
        }
        StaysBefore(ts[1..], limit, last', s, id);
      }
    }
  }

  lemma NotFurther<R(!new)>(t: seq<Entry<R>>, later: seq<Entry<R>>, last: Entry<R>, id: nat)
    requires NeverFalls(t, later) && HasId(t, id) && HasId(later, id) && !Before(last, RowOf(t, id))
    ensures !Before(last, RowOf(later, id))
  {
    assert !Before(RowOf(t, id), RowOf(later, id));
  }

  /** A listed row stays behind the cursor's back, and never leaps. */
  lemma ListedRow<R(!new)>(ts: seq<seq<Entry<R>>>, limit: nat, c: Option<Cursor>, s: iset<Entry<R>>, id: nat)
    requires limit >= 1 && ts != [] && Agree(s) && Within(ts, s) && Rising(ts) && AlwaysThere(ts, id)
    requires RowOf(ts[0], id) in FindMany(ts[0], c, limit)
    ensures HasId(Pages(ts, limit, c), id) && !Leaps(ts, limit, c, id)
  {
    RestOfStates(ts, s);
    var e := RowOf(ts[0], id);
    assert e in Pages(ts, limit, c);
    if NextCursor(FindMany(ts[0], c, limit), limit).Some? {
      var p, last := FullPage(ts[0], limit, c, s);
      if |ts| >= 2 { NotFurther(ts[0], ts[1..][0], last, id); }
      StaysBefore(ts[1..], limit, last, s, id);
    }
  }

  /** A row not yet listed: the next state decides. */
  lemma WaitingRow<R(!new)>(ts: seq<seq<Entry<R>>>, limit: nat, c: Option<Cursor>, s: iset<Entry<R>>, id: nat)
      returns (last: Entry<R>)
    requires limit >= 1 && ts != [] && Agree(s) && Within(ts, s) && Rising(ts) && AlwaysThere(ts, id)
    requires Drained(ts, limit, c) && AdmitsOpt(c, RowOf(ts[0], id)) && RowOf(ts[0], id) !in FindMany(ts[0], c, limit)
    ensures last in s && |ts| >= 2 && Drained(ts[1..], limit, Some(CursorOf(last)))
    ensures HasId(Pages(ts, limit, c), id) <==> HasId(Pages(ts[1..], limit, Some(CursorOf(last))), id)
    ensures Leaps(ts, limit, c, id) <==>
              !Admits(CursorOf(last), RowOf(ts[1], id)) || Leaps(ts[1..], limit, Some(CursorOf(last)), id)
  {
    RestOfStates(ts, s);
    PageMeaning(ts[0], c, limit);
    var p;
    p, last := FullPage(ts[0], limit, c, s);
    NotOnPage(ts[0], p, RowOf(ts[0], id));
    assert Pages(ts, limit, c) == p + Pages(ts[1..], limit, Some(CursorOf(last)));
    assert Admits(CursorOf(last), RowOf(ts[0], id));
  }

  /** A row that is there in every state read is listed, once the pages are drained, if and
      only if it never leaps over the cursor. */
  lemma {:induction false} ListedIff<R(!new)>(ts: seq<seq<Entry<R>>>, limit: nat, c: Option<Cursor>, s: iset<Entry<R>>,
        id: nat)
    requires limit >= 1 && ts != [] && Agree(s) && Within(ts, s) && Rising(ts) && AlwaysThere(ts, id)
    requires Drained(ts, limit, c) && AdmitsOpt(c, RowOf(ts[0], id))
    ensures HasId(Pages(ts, limit, c), id) <==> !Leaps(ts, limit, c, id)
    decreases |ts|
  {
    RestOfStates(ts, s);
    if RowOf(ts[0], id) in FindMany(ts[0], c, limit) {
      ListedRow(ts, limit, c, s, id);
    } else {
      var last := WaitingRow(ts, limit, c, s, id);
      assert ts[1..][0] == ts[1] && WithinTable(ts[1], s);
      if Admits(CursorOf(last), RowOf(ts[1], id)) {
        ListedIff(ts[1..], limit, Some(CursorOf(last)), s, id);
      } else {
        StaysBefore(ts[1..], limit, last, s, id);
      }
    }
  }

  /** In particular one whose key never changes is. */
  lemma {:induction false} SteadyNeverLeaps<R(!new)>(ts: seq<seq<Entry<R>>>, limit: nat, c: Option<Cursor>, id: nat)
    requires AlwaysThere(ts, id)
    requires forall i :: 0 <= i < |ts| ==> SameKey(RowOf(ts[i], id), RowOf(ts[0], id))
    ensures !Leaps(ts, limit, c, id)
    decreases |ts|
  {
    if |ts| >= 2 {
      assert SameKey(RowOf(ts[1], id), RowOf(ts[0], id));
      forall i | 0 <= i < |ts[1..]| ensures SameKey(RowOf(ts[1..][i], id), RowOf(ts[1..][0], id)) {
        assert SameKey(RowOf(ts[i + 1], id), RowOf(ts[0], id));
      }
      SteadyNeverLeaps(ts[1..], limit, NextCursor(FindMany(ts[0], c, limit), limit), id);
    }
  }

  // ------------------------------------------------------------ pages of one row

  lemma TopRow<R(!new)>(t: seq<Entry<R>>, c: Option<Cursor>, e: Entry<R>)
    requires DistinctIds(t) && e in t && AdmitsOpt(c, e)
    requires forall f :: f in t && AdmitsOpt(c, f) ==> !Before(f, e)
    ensures FindMany(t, c, 1) == [e]
  {
    PageMeaning(t, c, 1);
    var p := FindMany(t, c, 1);
    assert p == [] || p[0] in p;
  }

  lemma FirstIn<T>(s: seq<T>)
    ensures s == [] || s[0] in s
  {
  }

  lemma NoRow<R(!new)>(t: seq<Entry<R>>, c: Option<Cursor>, limit: nat)
    requires DistinctIds(t) && forall f :: f in t ==> !AdmitsOpt(c, f)
    ensures FindMany(t, c, limit) == []
  {
    PageMeaning(t, c, limit);
    FirstIn(FindMany(t, c, limit));
  }
}
