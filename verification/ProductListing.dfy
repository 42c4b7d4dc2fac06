/** `ProductService.findAll`: the four sort orders, their cursors, and load-more. */
module ProductListing {
  import opened Common
  import opened Enumeration
  import opened Keyset
  import opened MovingKeys

  datatype Product = Product(id: nat, createdAt: int, downloads: nat, likes: nat, views: nat)

  datatype Sort = Latest | Popular | Viewed | Liked

  datatype Query = Query(sort: Sort, limit: Option<int>, cursor: Option<Cursor>)

  /** `Math.min(Math.max(limit ?? 24, 1), 60)` */
  function PageSize(limit: Option<int>): (n: nat)
    ensures 1 <= n <= 60
  {
    var l := if limit.Some? then limit.value else 24;
    if l < 1 then 1 else if l > 60 then 60 else l
  }

  /** The columns `orderBy` names for a sort; only `popular` has a second one. */
  function ToEntry(sort: Sort, p: Product): Entry<Product> {
    match sort
    case Latest => Entry(p.createdAt, 0, p.id, p)
    case Popular => Entry(p.downloads, p.likes, p.id, p)
    case Viewed => Entry(p.views, 0, p.id, p)
    case Liked => Entry(p.likes, 0, p.id, p)
  }

  function Entries(sort: Sort, where: Product -> bool, ps: seq<Product>): seq<Entry<Product>> {
    if ps == [] then []
    else
      var n := |ps| - 1;
      Entries(sort, where, ps[..n]) + if where(ps[n]) then [ToEntry(sort, ps[n])] else []
  }

  function RowsOf(es: seq<Entry<Product>>): seq<Product> {
    seq(|es|, i requires 0 <= i < |es| => es[i].row)
  }

  ghost predicate ProductTable(ps: seq<Product>) {
    forall i, j :: 0 <= i < j < |ps| ==> ps[i].id != ps[j].id
  }

  lemma {:induction false} EntriesMeaning(sort: Sort, where: Product -> bool, ps: seq<Product>)
    ensures forall e :: e in Entries(sort, where, ps) <==> e == ToEntry(sort, e.row) && e.row in ps && where(e.row)
    ensures ProductTable(ps) ==> DistinctIds(Entries(sort, where, ps))
  {
    if ps != [] {
      var n := |ps| - 1;
      EntriesMeaning(sort, where, ps[..n]);
      var es := Entries(sort, where, ps[..n]);
      assert forall p :: p in ps <==> p in ps[..n] || p == ps[n];
      if ProductTable(ps) {
        forall i | 0 <= i < |es| ensures es[i].id != ps[n].id {
          assert es[i] in es;
          var j :| 0 <= j < n && ps[j] == es[i].row;
        }
      }
    }
  }

  /** `latest`, `viewed` and `liked`: over a table that does not change, following
      `nextCursor` to the end lists exactly the matching rows, once each, in order,
      for every page size (also when the total is a multiple of it). */
  lemma CursorEnumeratesExactly(sort: Sort, where: Product -> bool, ps: seq<Product>)
    requires ProductTable(ps) && sort != Popular
    ensures DistinctIds(Entries(sort, where, ps))
    ensures EnumeratesAll(Entries(sort, where, ps))
  {
    EntriesMeaning(sort, where, ps);
    var es := Entries(sort, where, ps);
    forall e | e in Rows(es) ensures e.tie == 0 { assert e in es; }
    NoTieAgrees(Rows(es));
    EnumeratesIffAgree(es);
  }

  /** `popular` drops `likesCount` from its cursor, so it does so exactly when, among
      matching products with equal downloads, more likes never go with a smaller id. */
  lemma PopularEnumeratesIff(where: Product -> bool, ps: seq<Product>)
    requires ProductTable(ps)
    ensures DistinctIds(Entries(Popular, where, ps))
    ensures EnumeratesAll(Entries(Popular, where, ps)) <==>
              forall a, b :: (a in ps && b in ps && where(a) && where(b)
                              && a.downloads == b.downloads && a.likes > b.likes) ==> a.id > b.id
  {
    EntriesMeaning(Popular, where, ps);
    var es := Entries(Popular, where, ps);
    EnumeratesIffAgree(es);
    AgreeMeaning(es);
    if Agree(Rows(es)) {
      forall a, b | a in ps && b in ps && where(a) && where(b) && a.downloads == b.downloads && a.likes > b.likes
        ensures a.id > b.id
      {
        assert ToEntry(Popular, a) in es && ToEntry(Popular, b) in es;
      }
    } else {
      var a, b :| a in es && b in es && a.primary == b.primary && a.tie > b.tie && a.id <= b.id;
      assert a.row in ps && b.row in ps;
    }
  }

  /** p is listed before q for its likes, against the order of the ids. */
  predicate OutOfOrder(p: Product, q: Product) {
    p.downloads == q.downloads && p.likes > q.likes && p.id < q.id
  }

  /** p is in such a pair with some matching product. */
  ghost predicate Misplaced(where: Product -> bool, ps: seq<Product>, p: Product) {
    exists q :: q in ps && where(q) && (OutOfOrder(p, q) || OutOfOrder(q, p))
  }

  lemma MisplacedIff(where: Product -> bool, ps: seq<Product>, e: Entry<Product>)
    requires ProductTable(ps) && e in Entries(Popular, where, ps)
    ensures Agrees(e, Entries(Popular, where, ps)) <==> !Misplaced(where, ps, e.row)
  {
    var es := Entries(Popular, where, ps);
    EntriesMeaning(Popular, where, ps);
    AgreesMeaning(e, es);
    forall q | q in ps && where(q)
      ensures ToEntry(Popular, q) in es
      ensures OutOfOrder(e.row, q) <==> Inverted(e, ToEntry(Popular, q))
      ensures OutOfOrder(q, e.row) <==> Inverted(ToEntry(Popular, q), e)
    {
      assert ToEntry(Popular, q).row == q;
    }
    forall f | f in es ensures f == ToEntry(Popular, f.row) && f.row in ps && where(f.row) {}
  }

  /** The product after which the b-th row of the listing ends a page. */
  ghost function ListedAt(where: Product -> bool, ps: seq<Product>, b: nat): Product
    requires 0 < b <= |SortDesc(Entries(Popular, where, ps))|
  {
    SortDesc(Entries(Popular, where, ps))[b - 1].row
  }

  /** For one page size: `popular` lists every matching product once, in order, if and only
      if no full page ends with a product that is out of order with another one. A less
      liked one with a larger id is lost there, a more liked one with a smaller id repeated. */
  lemma PopularAtPageSizeIff(where: Product -> bool, ps: seq<Product>, limit: nat)
    requires ProductTable(ps) && limit >= 1
    ensures DistinctIds(Entries(Popular, where, ps))
    ensures var es := Entries(Popular, where, ps);
            Collect(es, limit, None) == SortDesc(es) <==>
              forall b: nat :: 0 < b <= |SortDesc(es)| && PageEnd(limit, 0, b) ==>
                !Misplaced(where, ps, ListedAt(where, ps, b))
  {
    var es := Entries(Popular, where, ps);
    EntriesMeaning(Popular, where, ps);
    EnumeratesAtLimitIff(es, limit);
    SortSorts(es);
    forall b: nat | 0 < b <= |SortDesc(es)|
      ensures CursorAgrees(es, SortDesc(es), b) <==> !Misplaced(where, ps, ListedAt(where, ps, b))
    {
      assert SortDesc(es)[b - 1] in SortDesc(es);
      MisplacedIff(where, ps, SortDesc(es)[b - 1]);
    }
  }

  lemma TwoEntries(where: Product -> bool, ps: seq<Product>)
    requires |ps| == 2 && where(ps[0]) && where(ps[1])
    ensures |Entries(Popular, where, ps)| == 2
  {
    assert |Entries(Popular, where, ps[..1])| == 1;
  }

  /** Of two products out of order, pages of one or of two rows lose or repeat one; larger
      pages do not. */
  lemma PopularSkipsARow(where: Product -> bool, p: Product, q: Product, limit: nat)
    requires OutOfOrder(p, q) && where(p) && where(q) && limit >= 1
    ensures var es := Entries(Popular, where, [p, q]);
            && ProductTable([p, q]) && DistinctIds(es)
            && (Collect(es, limit, None) == SortDesc(es) <==> limit > 2)
  {
    var ps := [p, q];
    var es := Entries(Popular, where, ps);
    assert p == ps[0] && q == ps[1];
    assert Misplaced(where, ps, p) by { assert q in ps; }
    assert Misplaced(where, ps, q) by { assert p in ps; }
    PopularAtPageSizeIff(where, ps, limit);
    TwoEntries(where, ps);
    EntriesMeaning(Popular, where, ps);
    SortSorts(es);
    if limit <= 2 {
      assert PageEnd(limit, 0, limit);
      assert SortDesc(es)[limit - 1] in es;
      assert ListedAt(where, ps, limit) in ps;
    }
  }

  /** Every state the listing reads has distinct ids, and no product's sort column falls. */
  ghost predicate Growing(sort: Sort, states: seq<seq<Product>>) {
    && (forall i :: 0 <= i < |states| ==> ProductTable(states[i]))
    && (forall i, j, p, q :: (0 <= i < j < |states| && p in states[i] && q in states[j] && p.id == q.id)
                             ==> ToEntry(sort, p).primary <= ToEntry(sort, q).primary)
  }

  /** The matching rows as of each page read. */
  function Listing(sort: Sort, where: Product -> bool, states: seq<seq<Product>>): seq<seq<Entry<Product>>> {
    seq(|states|, i requires 0 <= i < |states| => Entries(sort, where, states[i]))
  }

  lemma ListingRises(sort: Sort, where: Product -> bool, states: seq<seq<Product>>)
    requires Growing(sort, states) && sort != Popular
    ensures var ts := Listing(sort, where, states);
            Agree(AllRows(ts)) && Within(ts, AllRows(ts)) && Rising(ts)
  {
    var ts := Listing(sort, where, states);
    var s := AllRows(ts);
    forall i | 0 <= i < |ts| ensures DistinctIds(ts[i]) && WithinTable(ts[i], s) {
      EntriesMeaning(sort, where, states[i]);
      forall e | e in ts[i] ensures e in s { assert InSome(ts, e); }
    }
    forall e | e in s ensures e.tie == 0 {
      assert InSome(ts, e);
      var i :| 0 <= i < |ts| && e in ts[i];
      EntriesMeaning(sort, where, states[i]);
    }
    NoTieAgrees(s);
    forall i, j | 0 <= i < j < |ts| ensures NeverFalls(ts[i], ts[j]) {
      EntriesMeaning(sort, where, states[i]);
      EntriesMeaning(sort, where, states[j]);
    }
  }

  ghost predicate Matches(where: Product -> bool, ps: seq<Product>, id: nat) {
    exists p :: p in ps && where(p) && p.id == id
  }

  ghost predicate MatchesThroughout(where: Product -> bool, states: seq<seq<Product>>, id: nat) {
    forall i :: 0 <= i < |states| ==> Matches(where, states[i], id)
  }

  lemma MatchesAreThere(sort: Sort, where: Product -> bool, states: seq<seq<Product>>, id: nat)
    requires MatchesThroughout(where, states, id)
    ensures AlwaysThere(Listing(sort, where, states), id)
  {
    var ts := Listing(sort, where, states);
    forall i | 0 <= i < |ts| ensures HasId(ts[i], id) {
      assert Matches(where, states[i], id);
      var p :| p in states[i] && where(p) && p.id == id;
      EntriesMeaning(sort, where, states[i]);
      assert ToEntry(sort, p).row == p && ToEntry(sort, p) in ts[i];
    }
  }

  /** `latest`, `viewed` and `liked` while products are added, removed, edited, stop matching
      and are counted up between pages: none comes twice, and one that matches throughout is
      listed if and only if it does not overtake the cursor. */
  lemma ListingUnderChange(sort: Sort, where: Product -> bool, states: seq<seq<Product>>, limit: nat, id: nat)
    requires Growing(sort, states) && sort != Popular && limit >= 1
    ensures var ts := Listing(sort, where, states);
            && DistinctIds(Pages(ts, limit, None))
            && (Drained(ts, limit, None) && MatchesThroughout(where, states, id) ==>
                  AlwaysThere(ts, id) && (HasId(Pages(ts, limit, None), id) <==> !Leaps(ts, limit, None, id)))
  {
    var ts := Listing(sort, where, states);
    ListingRises(sort, where, states);
    NoneTwice(ts, limit, None, AllRows(ts));
    if Drained(ts, limit, None) && MatchesThroughout(where, states, id) {
      MatchesAreThere(sort, where, states, id);
      ListedIff(ts, limit, None, AllRows(ts), id);
    }
  }

  /** A product's creation time never changes. */
  ghost predicate History(states: seq<seq<Product>>) {
    && (forall i :: 0 <= i < |states| ==> ProductTable(states[i]))
    && (forall i, j, p, q :: (0 <= i < |states| && 0 <= j < |states| && p in states[i] && q in states[j]
                              && p.id == q.id) ==> p.createdAt == q.createdAt)
  }

  lemma LatestIsSteady(where: Product -> bool, states: seq<seq<Product>>, id: nat)
    requires History(states) && AlwaysThere(Listing(Latest, where, states), id)
    ensures var ts := Listing(Latest, where, states);
            forall i :: 0 <= i < |ts| ==> SameKey(RowOf(ts[i], id), RowOf(ts[0], id))
  {
    var ts := Listing(Latest, where, states);
    forall i | 0 <= i < |ts| ensures SameKey(RowOf(ts[i], id), RowOf(ts[0], id)) {
      EntriesMeaning(Latest, where, states[i]);
      EntriesMeaning(Latest, where, states[0]);
      assert RowOf(ts[i], id) in ts[i] && RowOf(ts[0], id) in ts[0];
    }
  }

  /** So with `latest` one that matches throughout comes exactly once. */
  lemma LatestUnderChange(where: Product -> bool, states: seq<seq<Product>>, limit: nat, id: nat)
    requires History(states) && limit >= 1
    ensures var ts := Listing(Latest, where, states); var out := Pages(ts, limit, None);
            && DistinctIds(out)
            && (Drained(ts, limit, None) && MatchesThroughout(where, states, id) ==> HasId(out, id))
  {
    ListingUnderChange(Latest, where, states, limit, id);
    var ts := Listing(Latest, where, states);
    if Drained(ts, limit, None) && MatchesThroughout(where, states, id) {
      LatestIsSteady(where, states, id);
      SteadyNeverLeaps(ts, limit, None, id);
    }
  }

  /** With `liked` a product that loses a like between two pages can come twice. */
  lemma LikedComesTwice(p: Product, q: Product) returns (out: seq<Entry<Product>>)
    requires p.id == q.id && p.likes > q.likes
    ensures out == Pages([[ToEntry(Liked, p)], [ToEntry(Liked, q)]], 1, None)
    ensures out == [ToEntry(Liked, p), ToEntry(Liked, q)]
  {
    var a, b := ToEntry(Liked, p), ToEntry(Liked, q);
    var ts: seq<seq<Entry<Product>>> := [[a], [b]];
    out := Pages(ts, 1, None);
    TopRow(ts[0], None, a);
    TopRow(ts[1], Some(CursorOf(a)), b);
    assert ts[1..] == [[b]] && ts[1..][1..] == [];
    assert Pages(ts[1..], 1, Some(CursorOf(a))) == [b];
  }

  lemma {:induction false} InsertElements<R(!new)>(e: Entry<R>, s: seq<Entry<R>>)
    ensures forall f :: f in Insert(e, s) ==> f == e || f in s
  {
    if s != [] && !Before(e, s[0]) { InsertElements(e, s[1..]); }
  }

  lemma {:induction false} SortElements<R(!new)>(t: seq<Entry<R>>)
    ensures forall f :: f in SortDesc(t) ==> f in t
  {
    if t != [] {
      SortElements(t[1..]);
      InsertElements(t[0], SortDesc(t[1..]));
    }
  }

  lemma RowsKeepTheirEntry(sort: Sort, where: Product -> bool, ps: seq<Product>, c: Option<Cursor>, limit: nat)
    ensures forall e :: e in FindMany(Entries(sort, where, ps), c, limit) ==> e == ToEntry(sort, e.row)
  {
    var t := Entries(sort, where, ps);
    EntriesMeaning(sort, where, ps);
    FilterMeaning(t, c);
    SortElements(Filter(t, c));
    var s := SortDesc(Filter(t, c));
    assert forall e :: e in FindMany(t, c, limit) ==> e in s;
  }

  /** The columns a sort names, as functions of a product. */
  ghost predicate Orders(col: Product -> int, tie: Product -> int, sort: Sort) {
    forall p :: col(p) == ToEntry(sort, p).primary && tie(p) == ToEntry(sort, p).tie
  }

  lemma Columns(sort: Sort) returns (col: Product -> int, tie: Product -> int)
    ensures Orders(col, tie, sort)
    ensures forall p :: col(p) == match sort {
              case Latest => p.createdAt
              case Popular => p.downloads
              case Viewed => p.views
              case Liked => p.likes
            }
    ensures forall p :: tie(p) == if sort == Popular then p.likes else 0
  {
    col, tie := p => ToEntry(sort, p).primary, p => ToEntry(sort, p).tie;
  }

  ghost predicate Ahead(col: Product -> int, tie: Product -> int, a: Product, b: Product) {
    || col(a) > col(b)
    || (col(a) == col(b) && tie(a) > tie(b))
    || (col(a) == col(b) && tie(a) == tie(b) && a.id > b.id)
  }

  ghost predicate Behind(col: Product -> int, tie: Product -> int, c: Option<Cursor>, p: Product) {
    c.None? || col(p) < c.value.primary || (col(p) == c.value.primary && p.id < c.value.id)
  }

  ghost predicate IsPage(col: Product -> int, tie: Product -> int, where: Product -> bool, ps: seq<Product>,
        c: Option<Cursor>, limit: nat, items: seq<Product>)
  {
    && |items| <= limit
    && (forall i, j :: 0 <= i < j < |items| ==> Ahead(col, tie, items[i], items[j]))
    && (forall p :: p in items ==> p in ps && where(p) && Behind(col, tie, c, p))
    && (forall p :: p in ps && where(p) && Behind(col, tie, c, p) && p !in items ==>
          |items| == limit && forall i :: 0 <= i < limit ==> Ahead(col, tie, items[i], p))
  }

  lemma EntryOrder(col: Product -> int, tie: Product -> int, sort: Sort, a: Product, b: Product, c: Option<Cursor>)
    requires Orders(col, tie, sort)
    ensures Before(ToEntry(sort, a), ToEntry(sort, b)) <==> Ahead(col, tie, a, b)
    ensures AdmitsOpt(c, ToEntry(sort, a)) <==> Behind(col, tie, c, a)
  {
    assert col(a) == ToEntry(sort, a).primary && col(b) == ToEntry(sort, b).primary;
  }

  lemma LeftOut(sort: Sort, where: Product -> bool, ps: seq<Product>, c: Option<Cursor>, limit: nat, p: Product)
    requires ProductTable(ps) && p in ps && where(p) && AdmitsOpt(c, ToEntry(sort, p))
    requires var page := FindMany(Entries(sort, where, ps), c, limit); p !in RowsOf(page)
    ensures var page := FindMany(Entries(sort, where, ps), c, limit);
            |page| == limit && forall i :: 0 <= i < limit ==> Before(page[i], ToEntry(sort, p))
  {
    EntriesMeaning(sort, where, ps);
    PageMeaning(Entries(sort, where, ps), c, limit);
    var page, e := FindMany(Entries(sort, where, ps), c, limit), ToEntry(sort, p);
    assert e.row == p && e in Entries(sort, where, ps);
    forall i | 0 <= i < |page| ensures page[i] != e { assert RowsOf(page)[i] == page[i].row; }
    assert forall i :: 0 <= i < |page| ==> page[i] in page;
  }

  /** A page as a list of products. */
  lemma PageOfProducts(sort: Sort, where: Product -> bool, ps: seq<Product>, c: Option<Cursor>, limit: nat,
        col: Product -> int, tie: Product -> int)
    requires ProductTable(ps) && Orders(col, tie, sort)
    ensures IsPage(col, tie, where, ps, c, limit, RowsOf(FindMany(Entries(sort, where, ps), c, limit)))
  {
    EntriesMeaning(sort, where, ps);
    PageMeaning(Entries(sort, where, ps), c, limit);
    var page := FindMany(Entries(sort, where, ps), c, limit);
    var items := RowsOf(page);
    forall i | 0 <= i < |items| ensures page[i] in page && page[i] == ToEntry(sort, items[i]) {}
    forall i, j | 0 <= i < j < |items| ensures Ahead(col, tie, items[i], items[j]) {
      assert Before(page[i], page[j]);
      EntryOrder(col, tie, sort, items[i], items[j], c);
    }
    forall p | p in items ensures p in ps && where(p) && Behind(col, tie, c, p) {
      var i :| 0 <= i < |items| && items[i] == p;
      EntryOrder(col, tie, sort, p, p, c);
    }
    forall p | p in ps && where(p) && Behind(col, tie, c, p) && p !in items
      ensures |items| == limit && forall i :: 0 <= i < limit ==> Ahead(col, tie, items[i], p)
    {
      EntryOrder(col, tie, sort, p, p, c);
      LeftOut(sort, where, ps, c, limit, p);
      forall i | 0 <= i < limit ensures Ahead(col, tie, items[i], p) {
        assert Before(page[i], ToEntry(sort, p));
        EntryOrder(col, tie, sort, items[i], p, c);
      }
    }
  }

  /** The same in the columns themselves. */
  lemma PageColumns(col: Product -> int, tie: Product -> int, where: Product -> bool, ps: seq<Product>,
        c: Option<Cursor>, limit: nat, items: seq<Product>)
    requires IsPage(col, tie, where, ps, c, limit, items)
    ensures |items| <= limit
    ensures forall i, j :: 0 <= i < j < |items| ==>
              || col(items[i]) > col(items[j])
              || (col(items[i]) == col(items[j]) && tie(items[i]) > tie(items[j]))
              || (col(items[i]) == col(items[j]) && tie(items[i]) == tie(items[j]) && items[i].id > items[j].id)
    ensures forall p :: p in items ==>
              && p in ps && where(p)
              && (c.None? || col(p) < c.value.primary || (col(p) == c.value.primary && p.id < c.value.id))
    ensures forall p :: (p in ps && where(p) && p !in items
              && (c.None? || col(p) < c.value.primary || (col(p) == c.value.primary && p.id < c.value.id))) ==>
              && |items| == limit
              && forall i :: 0 <= i < limit ==>
                   || col(items[i]) > col(p)
                   || (col(items[i]) == col(p) && tie(items[i]) > tie(p))
                   || (col(items[i]) == col(p) && tie(items[i]) == tie(p) && items[i].id > p.id)
  {
    forall i, j | 0 <= i < j < |items| ensures Ahead(col, tie, items[i], items[j]) {}
    forall p | p in ps && where(p) && p !in items && Behind(col, tie, c, p)
      ensures |items| == limit && forall i :: 0 <= i < limit ==> Ahead(col, tie, items[i], p)
    {
    }
  }

  class ProductService {
    var products: seq<Product>

    constructor (products: seq<Product>)
      ensures this.products == products
    {
      this.products := products;
    }

    /** The database query of `findAll`. */
    method FindMatching(where: Product -> bool, sort: Sort, c: Option<Cursor>, limit: nat,
          ghost col: Product -> int, ghost tie: Product -> int)
        returns (items: seq<Product>)
      requires Orders(col, tie, sort)
      ensures var page := FindMany(Entries(sort, where, products), c, limit);
              && items == RowsOf(page)
              && (|page| == limit > 0 ==>
                    NextCursor(page, limit) == Some(Cursor(col(items[limit - 1]), items[limit - 1].id)))
      ensures ProductTable(products) ==> IsPage(col, tie, where, products, c, limit, items)
    {
      var matching: seq<Entry<Product>> := [];
      for i := 0 to |products|
        invariant matching == Entries(sort, where, products[..i])
      {
        assert products[..i + 1][..i] == products[..i];
        if where(products[i]) {
          matching := matching + [ToEntry(sort, products[i])];
        }
      }
      assert products[..|products|] == products;
      var page := FindMany(matching, c, limit);
      items := RowsOf(page);
      RowsKeepTheirEntry(sort, where, products, c, limit);
      assert |page| == limit > 0 ==> page[limit - 1] in page;
      if ProductTable(products) { PageOfProducts(sort, where, products, c, limit, col, tie); }
    }

    /** The cursor to the rows behind one. */
    method CursorAfter(sort: Sort, last: Product) returns (c: Cursor)
      ensures c == CursorOf(ToEntry(sort, last))
    {
      match sort
      case Latest => c := Cursor(last.createdAt, last.id);
      case Popular => c := Cursor(last.downloads, last.id);
      case Viewed => c := Cursor(last.views, last.id);
      case Liked => c := Cursor(last.likes, last.id);
    }

    /** `findAll`: one page of the matching products and the cursor to the next. The items are
        matching products behind the cursor, in strictly descending order of the columns of
        the sort and then the id; one that is left out comes after all of them, and then the
        page is full. A full page carries the first column and the id of its last item. */
    method FindAll(where: Product -> bool, q: Query)
        returns (items: seq<Product>, next: Option<Cursor>,
                 ghost n: nat, ghost col: Product -> int, ghost tie: Product -> int)
      ensures n == if q.limit.None? then 24
                   else if q.limit.value < 1 then 1 else if q.limit.value > 60 then 60 else q.limit.value
      ensures forall p :: col(p) == match q.sort {
                case Latest => p.createdAt
                case Popular => p.downloads
                case Viewed => p.views
                case Liked => p.likes
              }
      ensures forall p :: tie(p) == if q.sort == Popular then p.likes else 0
      ensures (forall i, j :: 0 <= i < j < |products| ==> products[i].id != products[j].id) ==>
                && |items| <= n
                && (forall i, j :: 0 <= i < j < |items| ==>
                      || col(items[i]) > col(items[j])
                      || (col(items[i]) == col(items[j]) && tie(items[i]) > tie(items[j]))
                      || (col(items[i]) == col(items[j]) && tie(items[i]) == tie(items[j])
                          && items[i].id > items[j].id))
                && (forall p :: p in items ==>
                      && p in products && where(p)
                      && (q.cursor.None? || col(p) < q.cursor.value.primary
                          || (col(p) == q.cursor.value.primary && p.id < q.cursor.value.id)))
                && (forall p :: (p in products && where(p) && p !in items
                      && (q.cursor.None? || col(p) < q.cursor.value.primary
                          || (col(p) == q.cursor.value.primary && p.id < q.cursor.value.id))) ==>
                      && |items| == n
                      && forall i :: 0 <= i < n ==>
                           || col(items[i]) > col(p)
                           || (col(items[i]) == col(p) && tie(items[i]) > tie(p))
                           || (col(items[i]) == col(p) && tie(items[i]) == tie(p) && items[i].id > p.id))
      ensures |items| <= 60 && (next.Some? ==> items != [] && next.value.id == items[|items| - 1].id)
      ensures (forall i, j :: 0 <= i < j < |products| ==> products[i].id != products[j].id) ==>
                && (forall p :: p in items ==> p in products && where(p))
                && forall i, j :: 0 <= i < j < |items| ==> items[i] != items[j]
      ensures next == if |items| == n then Some(Cursor(col(items[n - 1]), items[n - 1].id)) else None
      ensures var page := FindMany(Entries(q.sort, where, products), q.cursor, n);
              items == RowsOf(page) && next == NextCursor(page, n)
    {
      var limit := PageSize(q.limit);
      n := limit;
      col, tie := Columns(q.sort);
      items := FindMatching(where, q.sort, q.cursor, limit, col, tie);
      if ProductTable(products) { PageColumns(col, tie, where, products, q.cursor, limit, items); }
      next := None;
      if |items| == limit {
        var c := CursorAfter(q.sort, items[limit - 1]);
        next := Some(c);
      }
    }
  }
}
