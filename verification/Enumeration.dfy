/** Following cursors over a table that does not change: exactly when the pages of a given
    size list every row once, in order. */
module Enumeration {
  import opened Common
  import opened Keyset

  lemma {:induction false} FilterShrinks<R(!new)>(t: seq<Entry<R>>, c: Option<Cursor>, d: Option<Cursor>, e: Entry<R>)
    requires forall f :: f in t && AdmitsOpt(d, f) ==> AdmitsOpt(c, f)
    ensures |Filter(t, d)| <= |Filter(t, c)|
    ensures e in t && AdmitsOpt(c, e) && !AdmitsOpt(d, e) ==> |Filter(t, d)| < |Filter(t, c)|
  {
    if t != [] {
      assert forall f :: f in t[1..] ==> f in t;
      assert t[0] in t;
      FilterShrinks(t[1..], c, d, e);
    }
  }

  /** Every full page leaves fewer rows for the next. */
  lemma CursorAdvances<R(!new)>(t: seq<Entry<R>>, c: Option<Cursor>, limit: nat)
    requires DistinctIds(t) && limit >= 1
    requires NextCursor(FindMany(t, c, limit), limit).Some?
    ensures |Filter(t, NextCursor(FindMany(t, c, limit), limit))| < |Filter(t, c)|
  {
    PageMeaning(t, c, limit);
    var p := FindMany(t, c, limit);
    var last := p[limit - 1];
    assert last in p;
    FilterShrinks(t, c, NextCursor(p, limit), last);
  }

  /** All pages of a table that does not change, from cursor c to the end. */
  ghost function Collect<R(!new)>(t: seq<Entry<R>>, limit: nat, c: Option<Cursor>): seq<Entry<R>>
    requires DistinctIds(t) && limit >= 1
    decreases |Filter(t, c)|
  {
    var p := FindMany(t, c, limit);
    var next := NextCursor(p, limit);
    if next.None? then p
    else CursorAdvances(t, c, limit); p + Collect(t, limit, next)
  }

  /** Following cursors over a fixed table is the moving-table reading with equal states. */
  lemma {:induction false} CollectIsPages<R(!new)>(t: seq<Entry<R>>, limit: nat, c: Option<Cursor>)
      returns (ts: seq<seq<Entry<R>>>)
    requires DistinctIds(t) && limit >= 1
    ensures forall i :: 0 <= i < |ts| ==> ts[i] == t
    ensures Drained(ts, limit, c) && Pages(ts, limit, c) == Collect(t, limit, c)
    decreases |Filter(t, c)|
  {
    var next := NextCursor(FindMany(t, c, limit), limit);
    if next.None? {
      ts := [t];
    } else {
      CursorAdvances(t, c, limit);
      var rest := CollectIsPages(t, limit, next);
      ts := [t] + rest;
      assert ts[1..] == rest;
    }
  }

  ghost function Rows<R(!new)>(t: seq<Entry<R>>): iset<Entry<R>> {
    iset f | f in t
  }

  /** The cursor of e admits exactly the rows behind e. */
  ghost predicate Agrees<R(!new)>(e: Entry<R>, t: seq<Entry<R>>) {
    forall f :: f in t ==> (Before(e, f) <==> Admits(CursorOf(e), f))
  }

  /** The cursor after the first n rows of s. */
  function StartOf<R(!new)>(s: seq<Entry<R>>, n: nat): Option<Cursor>
    requires n <= |s|
  {
    if n == 0 then None else Some(CursorOf(s[n - 1]))
  }

  /** Where a row stands in the order says whether it is behind row n. */
  lemma PlaceOf<R(!new)>(s: seq<Entry<R>>, n: nat, f: Entry<R>) returns (i: nat)
    requires Sorted(s) && n <= |s| && f in s
    ensures i < |s| && s[i] == f
    ensures n > 0 ==> (Before(s[n - 1], f) <==> i >= n)
  {
    i :| 0 <= i < |s| && s[i] == f;
    if 0 < n {
      if i < n - 1 { assert Before(s[i], s[n - 1]); }
      if n <= i { assert Before(s[n - 1], s[i]); }
    }
  }

  /** Where the last row's cursor agrees, the admitted rows are the rest of the order. */
  lemma {:induction false} RestAfter<R(!new)>(t: seq<Entry<R>>, n: nat)
    requires DistinctIds(t) && n <= |SortDesc(t)| && (n > 0 ==> Agrees(SortDesc(t)[n - 1], t))
    ensures SortDesc(Filter(t, StartOf(SortDesc(t), n))) == SortDesc(t)[n..]
  {
    var s := SortDesc(t);
    var c := StartOf(s, n);
    SortSorts(t);
    FilterMeaning(t, c);
    SortSorts(Filter(t, c));
    assert forall j :: 0 <= j < |s[n..]| ==> s[n..][j] == s[n + j];
    forall f ensures f in SortDesc(Filter(t, c)) <==> f in s[n..] {
      if f in t {
        var i := PlaceOf(s, n, f);
        if i >= n { assert s[n..][i - n] == f; }
      }
    }
    SortedUnique(SortDesc(Filter(t, c)), s[n..]);
  }

  /** p are `count` rows of s after row n. */
  ghost predicate IsSlice<T>(p: seq<T>, s: seq<T>, n: nat, count: nat) {
    n + count <= |s| && |p| == count && forall i :: 0 <= i < count ==> p[i] == s[n + i]
  }

  /** `out` is s from row n on. */
  ghost predicate IsRest<T>(out: seq<T>, s: seq<T>, n: nat) {
    n <= |s| && IsSlice(out, s, n, |s| - n)
  }

  /** `out` is the next `limit` rows of s after row n, then `rest`. */
  ghost predicate PageThen<T>(out: seq<T>, s: seq<T>, n: nat, limit: nat, rest: seq<T>) {
    && n + limit <= |s| && |out| == limit + |rest|
    && (forall i :: 0 <= i < limit ==> out[i] == s[n + i])
    && (forall i :: limit <= i < |out| ==> out[i] == rest[i - limit])
  }

  /** From row n on, the pages are right. */
  ghost predicate RestRight<R(!new)>(t: seq<Entry<R>>, s: seq<Entry<R>>, limit: nat, n: nat)
    requires DistinctIds(t) && limit >= 1 && n <= |s|
  {
    forall out :: out == Collect(t, limit, StartOf(s, n)) ==> IsRest(out, s, n)
  }

  lemma CutAt<T>(out: seq<T>, s: seq<T>, n: nat, limit: nat, rest: seq<T>)
    requires PageThen(out, s, n, limit, rest)
    ensures IsRest(out, s, n) <==> IsRest(rest, s, n + limit)
  {
    if IsRest(out, s, n) {
      forall i | 0 <= i < |rest| ensures rest[i] == s[n + limit + i] { assert out[limit + i] == rest[i]; }
    }
  }

  /** So the next page is the next `limit` rows of the order. */
  lemma PageAfter<R(!new)>(t: seq<Entry<R>>, s: seq<Entry<R>>, limit: nat, n: nat) returns (p: seq<Entry<R>>)
    requires DistinctIds(t) && limit >= 1 && s == SortDesc(t) && n <= |s| && (n > 0 ==> Agrees(s[n - 1], t))
    ensures p == FindMany(t, StartOf(s, n), limit)
    ensures IsSlice(p, s, n, if n + limit <= |s| then limit else |s| - n)
  {
    RestAfter(t, n);
    p := FindMany(t, StartOf(s, n), limit);
  }

  lemma CursorAfter<R(!new)>(p: seq<Entry<R>>, s: seq<Entry<R>>, limit: nat, n: nat)
    requires limit >= 1 && IsSlice(p, s, n, limit)
    ensures NextCursor(p, limit) == StartOf(s, n + limit)
  {
    assert p[limit - 1] == s[n + (limit - 1)];
  }

  lemma Concatenated<T>(p: seq<T>, rest: seq<T>, s: seq<T>, n: nat, limit: nat)
    requires IsSlice(p, s, n, limit)
    ensures PageThen(p + rest, s, n, limit, rest)
  {
  }

  lemma CollectFrom<R(!new)>(t: seq<Entry<R>>, limit: nat, c: Option<Cursor>, p: seq<Entry<R>>)
    requires DistinctIds(t) && limit >= 1 && p == FindMany(t, c, limit)
    ensures var next := NextCursor(p, limit);
            Collect(t, limit, c) == if next.None? then p else p + Collect(t, limit, next)
  {
  }

  lemma FullPageThen<R(!new)>(t: seq<Entry<R>>, s: seq<Entry<R>>, limit: nat, n: nat)
    requires DistinctIds(t) && limit >= 1 && s == SortDesc(t) && n + limit <= |s| && (n > 0 ==> Agrees(s[n - 1], t))
    ensures PageThen(Collect(t, limit, StartOf(s, n)), s, n, limit, Collect(t, limit, StartOf(s, n + limit)))
  {
    var p := PageAfter(t, s, limit, n);
    CursorAfter(p, s, limit, n);
    CollectFrom(t, limit, StartOf(s, n), p);
    Concatenated(p, Collect(t, limit, StartOf(s, n + limit)), s, n, limit);
  }

  /** After a full page the rest is right exactly if all was. */
  lemma FullPage<R(!new)>(t: seq<Entry<R>>, s: seq<Entry<R>>, limit: nat, n: nat)
    requires DistinctIds(t) && limit >= 1 && s == SortDesc(t) && n + limit <= |s| && (n > 0 ==> Agrees(s[n - 1], t))
    ensures RestRight(t, s, limit, n) <==> RestRight(t, s, limit, n + limit)
  {
    FullPageThen(t, s, limit, n);
    CutAt(Collect(t, limit, StartOf(s, n)), s, n, limit, Collect(t, limit, StartOf(s, n + limit)));
  }

  lemma LastPage<R(!new)>(t: seq<Entry<R>>, s: seq<Entry<R>>, limit: nat, n: nat)
    requires DistinctIds(t) && limit >= 1 && s == SortDesc(t) && n <= |s| && (n > 0 ==> Agrees(s[n - 1], t))
    requires n + limit > |s|
    ensures RestRight(t, s, limit, n)
  {
    var p := PageAfter(t, s, limit, n);
    CollectFrom(t, limit, StartOf(s, n), p);
    assert IsRest(p, s, n);
  }

  lemma {:induction false} CollectAdmitted<R(!new)>(t: seq<Entry<R>>, limit: nat, c: Option<Cursor>)
    requires DistinctIds(t) && limit >= 1
    ensures forall f :: f in Collect(t, limit, c) ==> f in t && AdmitsOpt(c, f)
    decreases |Filter(t, c)|
  {
    PageMeaning(t, c, limit);
    var p := FindMany(t, c, limit);
    var next := NextCursor(p, limit);
    if next.Some? {
      CursorAdvances(t, c, limit);
      CollectAdmitted(t, limit, next);
      assert p[limit - 1] in p;
    }
  }

  /** The first row that comes out is the first of all admitted rows. */
  lemma FirstRow<R(!new)>(t: seq<Entry<R>>, limit: nat, c: Option<Cursor>, f: Entry<R>)
    requires DistinctIds(t) && limit >= 1 && f in t && AdmitsOpt(c, f)
    ensures var r := Collect(t, limit, c); r != [] && (r[0] == f || Before(r[0], f))
  {
    PageMeaning(t, c, limit);
    var p := FindMany(t, c, limit);
    assert p != [] && p[0] in p;
    if f in p {
      var i :| 0 <= i < |p| && p[i] == f;
      assert i == 0 || Before(p[0], p[i]);
    }
    assert Collect(t, limit, c)[0] == p[0];
  }

  /** Conversely, if what comes out after row n is the rest of the order, the cursor of
      row n agrees: an admitted earlier row would come first, and a later row that is not
      admitted would be missing. */
  lemma {:induction false} RestForcesAgrees<R(!new)>(t: seq<Entry<R>>, limit: nat, n: nat)
    requires DistinctIds(t) && limit >= 1 && 0 < n <= |SortDesc(t)|
    requires RestRight(t, SortDesc(t), limit, n)
    ensures Agrees(SortDesc(t)[n - 1], t)
  {
    var s := SortDesc(t);
    var c := StartOf(s, n);
    SortSorts(t);
    CollectAdmitted(t, limit, c);
    assert IsRest(Collect(t, limit, c), s, n);
    forall f | f in t ensures Before(s[n - 1], f) <==> Admits(CursorOf(s[n - 1]), f) {
      var i := PlaceOf(s, n, f);
      if i >= n {
        assert Collect(t, limit, c)[i - n] == f;
      } else if Admits(CursorOf(s[n - 1]), f) {
        FirstRow(t, limit, c, f);
      }
    }
  }

  /** In steps of `limit` rows, a page that begins after row n or a later one ends after row b. */
  ghost predicate PageEnd(limit: nat, n: nat, b: nat)
    requires limit >= 1
    decreases b - n
  {
    n + limit <= b && (b == n + limit || PageEnd(limit, n + limit, b))
  }

  ghost predicate CursorAgrees<R(!new)>(t: seq<Entry<R>>, s: seq<Entry<R>>, b: nat) {
    0 < b <= |s| && Agrees(s[b - 1], t)
  }

  ghost predicate AllPageEnds(limit: nat, len: nat, n: nat, agree: iset<nat>)
    requires limit >= 1
  {
    forall b: nat :: b <= len && PageEnd(limit, n, b) ==> b in agree
  }

  lemma PageEndsStep(limit: nat, len: nat, n: nat, agree: iset<nat>)
    requires limit >= 1
    ensures n + limit > len ==> AllPageEnds(limit, len, n, agree)
    ensures n + limit <= len ==>
              (AllPageEnds(limit, len, n, agree) <==>
                 n + limit in agree && AllPageEnds(limit, len, n + limit, agree))
  {
    var m := n + limit;
    if m <= len {
      assert PageEnd(limit, n, m);
      forall b: nat | b <= len ensures PageEnd(limit, n, b) <==> b == m || PageEnd(limit, m, b) {}
    }
  }

  /** Page by page: `right` are the rows from which on the pages are right, `agree` those
      whose cursor agrees. */
  lemma {:induction false} PageByPage(limit: nat, len: nat, right: iset<nat>, agree: iset<nat>, n: nat)
    requires limit >= 1 && n <= len && (n == 0 || n in agree)
    requires forall m: nat :: m <= len && (m == 0 || m in agree) && m + limit > len ==> m in right
    requires forall m: nat :: (m == 0 || m in agree) && m + limit <= len ==> (m in right <==> m + limit in right)
    requires forall m: nat :: 0 < m <= len && m in right ==> m in agree
    ensures n in right <==> AllPageEnds(limit, len, n, agree)
    decreases len - n
  {
    PageEndsStep(limit, len, n, agree);
    if n + limit <= len && n + limit in agree { PageByPage(limit, len, right, agree, n + limit); }
  }

  lemma RightFromStart<R(!new)>(t: seq<Entry<R>>, s: seq<Entry<R>>, limit: nat)
    requires DistinctIds(t) && limit >= 1
    ensures RestRight(t, s, limit, 0) <==> Collect(t, limit, None) == s
  {
    var out := Collect(t, limit, None);
    assert IsRest(out, s, 0) <==> out == s;
  }

  /** The rows of the order from which on the pages are right. */
  ghost function RightFrom<R(!new)>(t: seq<Entry<R>>, s: seq<Entry<R>>, limit: nat): iset<nat>
    requires DistinctIds(t) && limit >= 1
  {
    iset n: nat | n <= |s| && RestRight(t, s, limit, n)
  }

  ghost function AgreeAt<R(!new)>(t: seq<Entry<R>>, s: seq<Entry<R>>): iset<nat> {
    iset n: nat | CursorAgrees(t, s, n)
  }

  lemma PageByPageFrom<R(!new)>(t: seq<Entry<R>>, s: seq<Entry<R>>, limit: nat, m: nat)
    requires DistinctIds(t) && limit >= 1 && s == SortDesc(t) && m <= |s|
    ensures (m == 0 || m in AgreeAt(t, s)) && m + limit > |s| ==> m in RightFrom(t, s, limit)
    ensures (m == 0 || m in AgreeAt(t, s)) && m + limit <= |s| ==>
              (m in RightFrom(t, s, limit) <==> m + limit in RightFrom(t, s, limit))
    ensures 0 < m && m in RightFrom(t, s, limit) ==> m in AgreeAt(t, s)
  {
    if m == 0 || m in AgreeAt(t, s) {
      if m + limit > |s| { LastPage(t, s, limit, m); } else { FullPage(t, s, limit, m); }
    }
    if 0 < m && m in RightFrom(t, s, limit) { RestForcesAgrees(t, limit, m); }
  }

  lemma RightIff<R(!new)>(t: seq<Entry<R>>, s: seq<Entry<R>>, limit: nat)
    requires DistinctIds(t) && limit >= 1 && s == SortDesc(t)
    ensures RestRight(t, s, limit, 0) <==> AllPageEnds(limit, |s|, 0, AgreeAt(t, s))
  {
    forall m: nat | m <= |s|
      ensures (m == 0 || m in AgreeAt(t, s)) && m + limit > |s| ==> m in RightFrom(t, s, limit)
      ensures (m == 0 || m in AgreeAt(t, s)) && m + limit <= |s| ==>
                (m in RightFrom(t, s, limit) <==> m + limit in RightFrom(t, s, limit))
      ensures 0 < m && m in RightFrom(t, s, limit) ==> m in AgreeAt(t, s)
    {
      PageByPageFrom(t, s, limit, m);
    }
    PageByPage(limit, |s|, RightFrom(t, s, limit), AgreeAt(t, s), 0);
    assert 0 in RightFrom(t, s, limit) <==> RestRight(t, s, limit, 0);
  }

  /** Pages of `limit` rows list the whole table once, in order, exactly when the cursor of
      every row that ends a full page admits just the rows behind it. */
  lemma EnumeratesAtLimitIff<R(!new)>(t: seq<Entry<R>>, limit: nat)
    requires DistinctIds(t) && limit >= 1
    ensures |SortDesc(t)| == |t|
    ensures Collect(t, limit, None) == SortDesc(t) <==>
              forall b: nat :: b <= |t| && PageEnd(limit, 0, b) ==> CursorAgrees(t, SortDesc(t), b)
  {
    SortSorts(t);
    RightIff(t, SortDesc(t), limit);
    RightFromStart(t, SortDesc(t), limit);
  }

  /** When the orders agree, every limit enumerates the table exactly, in order. */
  lemma CollectEnumerates<R(!new)>(t: seq<Entry<R>>, limit: nat)
    requires DistinctIds(t) && limit >= 1 && Agree(Rows(t))
    ensures Collect(t, limit, None) == SortDesc(t)
  {
    SortSorts(t);
    EnumeratesAtLimitIff(t, limit);
    forall b: nat | b <= |t| && PageEnd(limit, 0, b) ensures CursorAgrees(t, SortDesc(t), b) {
      assert SortDesc(t)[b - 1] in SortDesc(t);
    }
  }

  /** Following cursors from the start yields the sorted table, for every page size a query may ask for. */
  ghost predicate EnumeratesAll<R(!new)>(t: seq<Entry<R>>)
    requires DistinctIds(t)
  {
    forall limit: nat :: 1 <= limit <= 60 ==> Collect(t, limit, None) == SortDesc(t)
  }

  lemma {:induction false} EveryRowEndsAPage(n: nat, b: nat)
    requires n < b
    ensures PageEnd(1, n, b)
    decreases b - n
  {
    if n + 1 < b { EveryRowEndsAPage(n + 1, b); }
  }

  lemma {:induction false} SinglesForceAgrees<R(!new)>(t: seq<Entry<R>>, a: Entry<R>)
    requires DistinctIds(t) && Collect(t, 1, None) == SortDesc(t) && a in t
    ensures Agrees(a, t)
  {
    EnumeratesAtLimitIff(t, 1);
    SortSorts(t);
    var i :| 0 <= i < |t| && SortDesc(t)[i] == a;
    EveryRowEndsAPage(0, i + 1);
    assert CursorAgrees(t, SortDesc(t), i + 1);
  }

  /** The pages enumerate the table for every page size if and only if the sort order and
      the cursor order agree on it. */
  lemma EnumeratesIffAgree<R(!new)>(t: seq<Entry<R>>)
    requires DistinctIds(t)
    ensures EnumeratesAll(t) <==> Agree(Rows(t))
  {
    if Agree(Rows(t)) {
      forall limit: nat | 1 <= limit <= 60 ensures Collect(t, limit, None) == SortDesc(t) {
        CollectEnumerates(t, limit);
      }
    }
    if EnumeratesAll(t) {
      assert 1 <= 1 <= 60;
      assert Collect(t, 1, None) == SortDesc(t);
      forall a | a in t ensures Agrees(a, t) { SinglesForceAgrees(t, a); }
    }
  }

  /** a comes before b by its tie column, against the order of the ids. */
  predicate Inverted<R(!new)>(a: Entry<R>, b: Entry<R>) {
    a.primary == b.primary && a.tie > b.tie && a.id < b.id
  }

  /** The cursor of e agrees exactly when e is in no inverted pair. */
  lemma AgreesMeaning<R(!new)>(e: Entry<R>, t: seq<Entry<R>>)
    requires DistinctIds(t) && e in t
    ensures Agrees(e, t) <==> forall f :: f in t ==> !Inverted(e, f) && !Inverted(f, e)
  {
    forall f | f in t && f.id == e.id ensures f == e {
      var i :| 0 <= i < |t| && t[i] == f;
      var j :| 0 <= j < |t| && t[j] == e;
      assert i == j;
    }
    forall f | f in t
      ensures (Before(e, f) <==> Admits(CursorOf(e), f)) <==> (!Inverted(e, f) && !Inverted(f, e))
    {
      if f.id == e.id { assert f == e; }
    }
  }

  /** In terms of the rows: inside each primary value the tie order must follow the ids. */
  lemma AgreeMeaning<R(!new)>(t: seq<Entry<R>>)
    requires DistinctIds(t)
    ensures Agree(Rows(t)) <==>
              forall a, b :: a in t && b in t && a.primary == b.primary && a.tie > b.tie ==> a.id > b.id
  {
    if forall a, b :: a in t && b in t && a.primary == b.primary && a.tie > b.tie ==> a.id > b.id {
      forall a, b | a in Rows(t) && b in Rows(t) ensures Before(a, b) <==> Admits(CursorOf(a), b) {
        assert a in t && b in t;
      }
    } else {
      var a, b :| a in t && b in t && a.primary == b.primary && a.tie > b.tie && a.id <= b.id;
      assert a in Rows(t) && b in Rows(t) && Before(a, b);
    }
  }
}
