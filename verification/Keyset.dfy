/** Keyset pagination: pages of a table sorted in descending order, each page
    starting after the cursor of the one before. */
module Keyset {
  import opened Common

  /** A row with its sort columns: `primary` first, then `tie`, then the unique `id`. */
  datatype Entry<R> = Entry(primary: int, tie: int, id: nat, row: R)

  /** What a cursor remembers of the last row of a page: not the tie column. */
  datatype Cursor = Cursor(primary: int, id: nat)

  /** The query's order: primary, tie and id, all descending. */
  predicate Before<R(!new)>(a: Entry<R>, b: Entry<R>) {
    || a.primary > b.primary
    || (a.primary == b.primary && (a.tie > b.tie || (a.tie == b.tie && a.id > b.id)))
  }

  /** The cursor predicate of the where clause. */
  predicate Admits<R(!new)>(c: Cursor, e: Entry<R>) {
    e.primary < c.primary || (e.primary == c.primary && e.id < c.id)
  }

  function CursorOf<R(!new)>(e: Entry<R>): Cursor {
    Cursor(e.primary, e.id)
  }

  predicate AdmitsOpt<R(!new)>(c: Option<Cursor>, e: Entry<R>) {
    c.Some? ==> Admits(c.value, e)
  }

  // -------------------------------------------------------------------- query

  function Filter<R(!new)>(t: seq<Entry<R>>, c: Option<Cursor>): seq<Entry<R>> {
    if t == [] then []
    else (if AdmitsOpt(c, t[0]) then [t[0]] else []) + Filter(t[1..], c)
  }

  function Insert<R(!new)>(e: Entry<R>, s: seq<Entry<R>>): seq<Entry<R>> {
    if s == [] || Before(e, s[0]) then [e] + s else [s[0]] + Insert(e, s[1..])
  }

  function SortDesc<R(!new)>(t: seq<Entry<R>>): seq<Entry<R>> {
    if t == [] then [] else Insert(t[0], SortDesc(t[1..]))
  }

  /** findMany with the cursor predicate, the order and `take`. */
  function FindMany<R(!new)>(t: seq<Entry<R>>, c: Option<Cursor>, limit: nat): seq<Entry<R>> {
    var s := SortDesc(Filter(t, c));
    if |s| <= limit then s else s[..limit]
  }

  /** A full page carries a cursor to its last row. */
  function NextCursor<R(!new)>(page: seq<Entry<R>>, limit: nat): Option<Cursor> {
    if |page| == limit && limit > 0 then Some(CursorOf(page[limit - 1])) else None
  }

  // ------------------------------------------------------------------ sorting

  ghost predicate DistinctIds<R(!new)>(t: seq<Entry<R>>) {
    forall i, j :: 0 <= i < j < |t| ==> t[i].id != t[j].id
  }

  ghost predicate Sorted<R(!new)>(s: seq<Entry<R>>) {
    forall i, j :: 0 <= i < j < |s| ==> Before(s[i], s[j])
  }

  lemma {:induction false} InsertSorts<R(!new)>(e: Entry<R>, s: seq<Entry<R>>)
    requires Sorted(s) && forall f :: f in s ==> f.id != e.id
    ensures Sorted(Insert(e, s)) && |Insert(e, s)| == |s| + 1
    ensures forall f :: f in Insert(e, s) <==> f == e || f in s
  {
    if s != [] {
      assert forall f :: f in s <==> f == s[0] || f in s[1..];
      if Before(e, s[0]) {
        forall j | 0 <= j < |s| ensures Before(e, s[j]) { assert j == 0 || Before(s[0], s[j]); }
      } else {
        InsertSorts(e, s[1..]);
        var r := Insert(e, s[1..]);
        forall i | 0 <= i < |r| ensures Before(s[0], r[i]) {
          assert r[i] in r;
          assert s[0] in s && s[0].id != e.id;
          if r[i] == e {
            assert Before(s[0], e);
          } else {
            assert r[i] in s[1..];
            var j :| 0 <= j < |s[1..]| && s[1..][j] == r[i];
            assert Before(s[0], s[j + 1]);
          }
        }
      }
    }
  }

  lemma {:induction false} SortSorts<R(!new)>(t: seq<Entry<R>>)
    requires DistinctIds(t)
    ensures Sorted(SortDesc(t)) && |SortDesc(t)| == |t|
    ensures forall f :: f in SortDesc(t) <==> f in t
  {
    if t != [] {
      SortSorts(t[1..]);
      assert forall f :: f in t <==> f == t[0] || f in t[1..];
      forall f | f in SortDesc(t[1..]) ensures f.id != t[0].id {
        assert f in t[1..];
        var j :| 0 <= j < |t[1..]| && t[1..][j] == f;
        assert t[0].id != t[j + 1].id;
      }
      InsertSorts(t[0], SortDesc(t[1..]));
    }
  }

  lemma {:induction false} FilterMeaning<R(!new)>(t: seq<Entry<R>>, c: Option<Cursor>)
    ensures forall f :: f in Filter(t, c) <==> f in t && AdmitsOpt(c, f)
    ensures DistinctIds(t) ==> DistinctIds(Filter(t, c))
    ensures |Filter(t, c)| <= |t|
  {
    if t != [] {
      FilterMeaning(t[1..], c);
      var r := Filter(t[1..], c);
      assert forall f :: f in t <==> f == t[0] || f in t[1..];
      if DistinctIds(t) {
        forall i | 0 <= i < |r| ensures r[i].id != t[0].id {
          assert r[i] in r;
          assert r[i] in t[1..];
          var j :| 0 <= j < |t[1..]| && t[1..][j] == r[i];
          assert t[0].id != t[j + 1].id;
        }
      }
    }
  }

  /** A sorted list is determined by its elements. */
  lemma {:induction false} SortedUnique<R(!new)>(a: seq<Entry<R>>, b: seq<Entry<R>>)
    requires Sorted(a) && Sorted(b)
    requires forall f :: f in a <==> f in b
    ensures a == b
  {
    assert forall i :: 0 <= i < |a| ==> a[i] in b;
    assert forall i :: 0 <= i < |b| ==> b[i] in a;
    if a != [] && b != [] {
      forall f ensures f in a[1..] <==> f in b[1..] {
        assert f in a[1..] <==> f in a && f != a[0];
        assert f in b[1..] <==> f in b && f != b[0];
      }
      SortedUnique(a[1..], b[1..]);
    }
  }

  /** A prefix of a sorted list is ahead of the rest. */
  lemma PrefixAhead<R(!new)>(s: seq<Entry<R>>, n: nat)
    requires Sorted(s) && n <= |s|
    ensures Sorted(s[..n])
    ensures forall f :: f in s[..n] ==> f in s
    ensures forall f, g :: f in s && f !in s[..n] && g in s[..n] ==> Before(g, f)
  {
    assert forall i {:trigger s[i]} :: 0 <= i < n ==> s[i] == s[..n][i] && s[i] in s[..n];
    forall f, g | f in s && f !in s[..n] && g in s[..n] ensures Before(g, f) {
      var j :| 0 <= j < |s| && s[j] == f;
      var i :| 0 <= i < n && s[..n][i] == g;
      assert Before(s[i], s[j]);
    }
  }

  /** What a page is: sorted, drawn from the admitted rows, ahead of every admitted row it omits. */
  lemma PageMeaning<R(!new)>(t: seq<Entry<R>>, c: Option<Cursor>, limit: nat)
    requires DistinctIds(t)
    ensures var p := FindMany(t, c, limit);
            && Sorted(p) && |p| <= limit
            && (forall f :: f in p ==> f in t && AdmitsOpt(c, f))
            && (forall f :: f in t && AdmitsOpt(c, f) && f !in p ==>
                  |p| == limit && forall g :: g in p ==> Before(g, f))
            && (|p| < limit ==> forall f :: f in t && AdmitsOpt(c, f) ==> f in p)
  {
    FilterMeaning(t, c);
    SortSorts(Filter(t, c));
    var s := SortDesc(Filter(t, c));
    if |s| > limit { PrefixAhead(s, limit); }
  }

  /** A page depends on the rows, not on the order in which the table holds them. */
  lemma {:induction false} FindManyCanonical<R(!new)>(a: seq<Entry<R>>, b: seq<Entry<R>>, c: Option<Cursor>, limit: nat)
    requires DistinctIds(a) && DistinctIds(b) && forall f :: f in a <==> f in b
    ensures FindMany(a, c, limit) == FindMany(b, c, limit)
  {
    FilterMeaning(a, c);
    FilterMeaning(b, c);
    SortSorts(Filter(a, c));
    SortSorts(Filter(b, c));
    SortedUnique(SortDesc(Filter(a, c)), SortDesc(Filter(b, c)));
  }

  // ------------------------------------------------ following cursors over time

  /** The concatenation of the pages read from the table states `ts`, one page each,
      following `nextCursor` from c until a page has none. */
  function Pages<R(!new)>(ts: seq<seq<Entry<R>>>, limit: nat, c: Option<Cursor>): seq<Entry<R>> {
    if ts == [] then []
    else
      var p := FindMany(ts[0], c, limit);
      var next := NextCursor(p, limit);
      p + if next.None? then [] else Pages(ts[1..], limit, next)
  }

  /** The last page was reached within `ts`. */
  predicate Drained<R(!new)>(ts: seq<seq<Entry<R>>>, limit: nat, c: Option<Cursor>) {
    && ts != []
    && var next := NextCursor(FindMany(ts[0], c, limit), limit);
       next.None? || Drained(ts[1..], limit, next)
  }

  /** Sort order and cursor order agree on a set of rows. Without a tie column they
      always do; see `NoTieAgrees`. */
  ghost predicate Agree<R(!new)>(s: iset<Entry<R>>) {
    forall a, b :: a in s && b in s ==> (Before(a, b) <==> Admits(CursorOf(a), b))
  }

  ghost predicate WithinTable<R(!new)>(t: seq<Entry<R>>, s: iset<Entry<R>>) {
    forall f :: f in t ==> f in s
  }

  /** Every table state has distinct ids and draws its rows from s. */
  ghost predicate Within<R(!new)>(ts: seq<seq<Entry<R>>>, s: iset<Entry<R>>) {
    forall i :: 0 <= i < |ts| ==> DistinctIds(ts[i]) && WithinTable(ts[i], s)
  }

  /** While rows come and go between pages, the pages read so far are strictly descending. */
  lemma {:induction false} PagesDescend<R(!new)>(ts: seq<seq<Entry<R>>>, limit: nat, c: Option<Cursor>,
        s: iset<Entry<R>>)
    requires limit >= 1 && Agree(s) && Within(ts, s)
    ensures Sorted(Pages(ts, limit, c))
    ensures forall f :: f in Pages(ts, limit, c) ==> f in s && AdmitsOpt(c, f)
    decreases |ts|
  {
    if ts != [] {
      PageMeaning(ts[0], c, limit);
      var p := FindMany(ts[0], c, limit);
      var next := NextCursor(p, limit);
      assert WithinTable(ts[0], s);
      if next.Some? {
        PagesDescend(ts[1..], limit, next, s);
        var rest := Pages(ts[1..], limit, next);
        var last := p[limit - 1];
        assert last in p;
        forall f | f in rest ensures Before(last, f) && AdmitsOpt(c, f) {}
        forall i, j | 0 <= i < |p| && 0 <= j < |rest| ensures Before(p[i], rest[j]) {
          assert p[i] in p && rest[j] in rest;
          assert Before(last, rest[j]);
          assert i == limit - 1 || Before(p[i], last);
        }
      }
    }
  }

  predicate SameKey<R(!new)>(a: Entry<R>, b: Entry<R>) {
    a.primary == b.primary && a.tie == b.tie && a.id == b.id
  }

  ghost predicate HasKey<R(!new)>(t: seq<Entry<R>>, k: Entry<R>) {
    exists e :: e in t && SameKey(e, k)
  }

  /** A row whose key is present in every table state is on one of the pages once they are
      drained, whatever happens to its other columns. */
  lemma {:induction false} PagesMissNothing<R(!new)>(
      ts: seq<seq<Entry<R>>>, limit: nat, c: Option<Cursor>, s: iset<Entry<R>>, k: Entry<R>)
    requires limit >= 1 && Agree(s) && Within(ts, s) && Drained(ts, limit, c)
    requires AdmitsOpt(c, k) && forall i :: 0 <= i < |ts| ==> HasKey(ts[i], k)
    ensures HasKey(Pages(ts, limit, c), k)
    decreases |ts|
  {
    PageMeaning(ts[0], c, limit);
    assert HasKey(ts[0], k);
    var f :| f in ts[0] && SameKey(f, k);
    var p := FindMany(ts[0], c, limit);
    var next := NextCursor(p, limit);
    if f in p {
      assert f in Pages(ts, limit, c);
    } else {
      var last := p[limit - 1];
      assert last in p && WithinTable(ts[0], s);
      assert Admits(CursorOf(last), f);
      PagesMissNothing(ts[1..], limit, next, s, k);
      var g :| g in Pages(ts[1..], limit, next) && SameKey(g, k);
      assert g in Pages(ts, limit, c);
    }
  }

  /** The sort key of a row never changes: equal ids in any two states have equal keys. */
  ghost predicate StableKeys<R(!new)>(s: iset<Entry<R>>) {
    forall a, b :: a in s && b in s && a.id == b.id ==> SameKey(a, b)
  }

  lemma SortedDistinct<R(!new)>(out: seq<Entry<R>>, s: iset<Entry<R>>)
    requires Sorted(out) && StableKeys(s) && forall f :: f in out ==> f in s
    ensures DistinctIds(out)
  {
    forall i, j | 0 <= i < j < |out| ensures out[i].id != out[j].id {
      assert out[i] in out && out[j] in out && Before(out[i], out[j]);
    }
  }

  /** Load-more over a changing table with immutable keys: no row comes twice, and a row
      present throughout comes exactly once. */
  lemma LoadMoreExactlyOnce<R(!new)>(ts: seq<seq<Entry<R>>>, limit: nat, s: iset<Entry<R>>, k: Entry<R>)
    requires limit >= 1 && Agree(s) && StableKeys(s) && Within(ts, s)
    ensures DistinctIds(Pages(ts, limit, None))
    ensures (Drained(ts, limit, None) && forall i :: 0 <= i < |ts| ==> HasKey(ts[i], k))
            ==> HasKey(Pages(ts, limit, None), k)
  {
    PagesDescend(ts, limit, None, s);
    SortedDistinct(Pages(ts, limit, None), s);
    if Drained(ts, limit, None) && (forall i :: 0 <= i < |ts| ==> HasKey(ts[i], k)) {
      PagesMissNothing(ts, limit, None, s, k);
    }
  }

  /** Rows without a tie column, and with one key per id, always agree. */
  lemma NoTieAgrees<R(!new)>(s: iset<Entry<R>>)
    requires forall f :: f in s ==> f.tie == 0
    ensures Agree(s)
  {
  }
}
