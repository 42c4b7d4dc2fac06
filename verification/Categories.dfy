/** `CategoriesService` over the category table: the breadcrumb walk, the tree
    build and the writes. */
module Categories {
  import opened Common
  import opened Forest

  // -------------------------------------------------------------- breadcrumbs

  /** Root-to-self path. */
  ghost function PathToRoot(p: Parents, x: Id): (path: seq<Id>)
    requires Closed(p) && x in p && ReachesRoot(p, x)
    ensures |path| == Depth(p, x) + 1
    decreases Depth(p, x)
  {
    DepthParent(p, x);
    if p[x].None? then [x] else PathToRoot(p, p[x].value) + [x]
  }

  /** The path starts at a root, ends at the category, steps from parent to child,
      and lists each ancestor once. */
  lemma {:induction false} PathMeaning(p: Parents, x: Id)
    requires Closed(p) && x in p && ReachesRoot(p, x)
    ensures var path := PathToRoot(p, x); var d := Depth(p, x);
            && path[d] == x && path[0] in p && p[path[0]].None?
            && (forall i :: 0 <= i <= d ==> Up(p, x, d - i) == Some(path[i]))
            && (forall i :: 0 < i <= d ==> path[i] in p && p[path[i]] == Some(path[i - 1]))
    decreases Depth(p, x)
  {
    DepthParent(p, x);
    assert Up(p, x, 0) == Some(x) && Up(p, x, 1) == p[x];
    if p[x].Some? {
      var y, d := p[x].value, Depth(p, x);
      PathMeaning(p, y);
      forall i | 0 <= i <= d ensures Up(p, x, d - i) == Some(PathToRoot(p, x)[i]) {
        if i < d { UpAdd(p, x, 1, d - i - 1); }
      }
    }
  }

  /** The i-th breadcrumb is i steps below its root. */
  lemma PathDepth(p: Parents, x: Id, i: nat)
    requires Closed(p) && x in p && ReachesRoot(p, x) && i <= Depth(p, x)
    ensures var y := PathToRoot(p, x)[i]; y in p && ReachesRoot(p, y) && Depth(p, y) == i
  {
    PathMeaning(p, x);
    assert Up(p, x, Depth(p, x) - i) == Some(PathToRoot(p, x)[i]);
    DepthUp(p, x, Depth(p, x) - i);
  }

  lemma {:induction false} PathHasNoRepeats(p: Parents, x: Id, i: nat, j: nat)
    requires Closed(p) && x in p && ReachesRoot(p, x) && i < j <= Depth(p, x)
    ensures PathToRoot(p, x)[i] != PathToRoot(p, x)[j]
  {
    PathDepth(p, x, i);
    PathDepth(p, x, j);
  }

  lemma PathHasAncestor(p: Parents, x: Id, n: nat)
    requires Closed(p) && x in p && ReachesRoot(p, x) && Up(p, x, n).Some?
    ensures Up(p, x, n).value in PathToRoot(p, x)
  {
    PathMeaning(p, x);
    DepthUp(p, x, n);
    var path, d := PathToRoot(p, x), Depth(p, x);
    assert Up(p, x, d - (d - n)) == Some(path[d - n]);
  }

  lemma PathElement(p: Parents, x: Id, i: nat)
    requires Closed(p) && x in p && ReachesRoot(p, x) && i <= Depth(p, x)
    ensures var y := PathToRoot(p, x)[i];
            && (i == Depth(p, x) ==> y == x)
            && (i < Depth(p, x) ==> Ancestor(p, x, y))
  {
    PathMeaning(p, x);
    assert Up(p, x, Depth(p, x) - i) == Some(PathToRoot(p, x)[i]);
  }

  /** What lies on the path is the category and its ancestors. */
  lemma PathIsAncestry(p: Parents, x: Id, y: Id)
    requires Closed(p) && x in p && ReachesRoot(p, x)
    ensures y in PathToRoot(p, x) <==> y == x || Ancestor(p, x, y)
  {
    if y in PathToRoot(p, x) {
      var i :| 0 <= i < |PathToRoot(p, x)| && PathToRoot(p, x)[i] == y;
      PathElement(p, x, i);
    }
    if y == x {
      assert Up(p, x, 0) == Some(x);
      PathHasAncestor(p, x, 0);
    } else if n: nat :| n >= 1 && Up(p, x, n) == Some(y) {
      PathHasAncestor(p, x, n);
    }
  }

  function Reverse(s: seq<Id>): (r: seq<Id>)
    ensures |r| == |s|
  {
    if s == [] then [] else [s[|s| - 1]] + Reverse(s[..|s| - 1])
  }

  lemma {:induction false} ReverseAt(s: seq<Id>, i: nat)
    requires i < |s|
    ensures Reverse(s)[i] == s[|s| - 1 - i]
  {
    if i > 0 { ReverseAt(s[..|s| - 1], i - 1); }
  }

  lemma PathAt(p: Parents, x: Id, i: nat)
    requires Closed(p) && x in p && ReachesRoot(p, x) && i <= Depth(p, x)
    ensures Up(p, x, Depth(p, x) - i) == Some(PathToRoot(p, x)[i])
  {
    PathMeaning(p, x);
  }

  ghost predicate IsWalk(p: Parents, x: Id, walk: seq<Id>) {
    forall i :: 0 <= i < |walk| ==> Up(p, x, i) == Some(walk[i])
  }

  lemma ReverseWalk(p: Parents, x: Id, walk: seq<Id>, path: seq<Id>)
    requires IsWalk(p, x, walk) && |path| == |walk|
    requires forall i :: 0 <= i < |path| ==> Up(p, x, |walk| - 1 - i) == Some(path[i])
    ensures Reverse(walk) == path
  {
    forall i | 0 <= i < |walk| ensures Reverse(walk)[i] == path[i] {
      ReverseAt(walk, i);
      assert Up(p, x, |walk| - 1 - i) == Some(walk[|walk| - 1 - i]);
    }
  }

  /** A finished walk upwards, reversed, is the path. */
  lemma WalkIsPath(p: Parents, x: Id, walk: seq<Id>)
    requires Closed(p) && x in p && Up(p, x, |walk|).None? && IsWalk(p, x, walk)
    ensures ReachesRoot(p, x) && Reverse(walk) == PathToRoot(p, x)
  {
    assert ReachesRoot(p, x);
    assert walk != [] by { assert Up(p, x, 0) == Some(x); }
    var d := |walk| - 1;
    assert IsDepth(p, x, d);
    DepthUnique(p, x, d, Depth(p, x));
    PathMeaning(p, x);
    ReverseWalk(p, x, walk, PathToRoot(p, x));
  }

  // --------------------------------------------------------------------- tree

  /** The children of x in row order: what is pushed into its node. */
  function Children(p: Parents, rows: seq<Id>, x: Id): (c: seq<Id>) {
    if rows == [] then []
    else
      var last := rows[|rows| - 1];
      Children(p, rows[..|rows| - 1], x) + if last in p && p[last] == Some(x) then [last] else []
  }

  function Roots(p: Parents, rows: seq<Id>): (c: seq<Id>) {
    if rows == [] then []
    else
      var last := rows[|rows| - 1];
      Roots(p, rows[..|rows| - 1]) + if last in p && p[last].None? then [last] else []
  }

  /** Exactly the rows with that parent link, and exactly those with none. */
  lemma {:induction false} ChildrenMeaning(p: Parents, rows: seq<Id>, x: Id)
    ensures forall y :: y in Children(p, rows, x) <==> y in rows && y in p && p[y] == Some(x)
    ensures forall y :: y in Roots(p, rows) <==> y in rows && y in p && p[y].None?
  {
    if rows != [] {
      var n := |rows| - 1;
      ChildrenMeaning(p, rows[..n], x);
      assert forall y :: y in rows <==> y in rows[..n] || y == rows[n];
    }
  }

  /** Both in row order. */
  lemma {:induction false} ChildrenOrder(p: Parents, rows: seq<Id>, x: Id, i: nat, j: nat) returns (a: nat, b: nat)
    requires i < j < |Children(p, rows, x)|
    ensures a < b < |rows| && rows[a] == Children(p, rows, x)[i] && rows[b] == Children(p, rows, x)[j]
  {
    var n := |rows| - 1;
    var before := Children(p, rows[..n], x);
    if j < |before| {
      a, b := ChildrenOrder(p, rows[..n], x, i, j);
    } else {
      b := n;
      ChildrenMeaning(p, rows[..n], x);
      assert before[i] in rows[..n];
      a :| 0 <= a < n && rows[..n][a] == before[i];
    }
  }

  lemma {:induction false} RootsOrder(p: Parents, rows: seq<Id>, i: nat, j: nat) returns (a: nat, b: nat)
    requires i < j < |Roots(p, rows)|
    ensures a < b < |rows| && rows[a] == Roots(p, rows)[i] && rows[b] == Roots(p, rows)[j]
  {
    var n := |rows| - 1;
    var before := Roots(p, rows[..n]);
    if j < |before| {
      a, b := RootsOrder(p, rows[..n], i, j);
    } else {
      b := n;
      ChildrenMeaning(p, rows[..n], 0);
      assert before[i] in rows[..n];
      a :| 0 <= a < n && rows[..n][a] == before[i];
    }
  }

  ghost predicate Snoc(p: Parents, rows: seq<Id>, i: nat, x: Id)
    requires i < |rows| && rows[i] in p
  {
    && Children(p, rows[..i + 1], x)
       == Children(p, rows[..i], x) + (if p[rows[i]] == Some(x) then [rows[i]] else [])
    && Roots(p, rows[..i + 1]) == Roots(p, rows[..i]) + (if p[rows[i]].None? then [rows[i]] else [])
  }

  lemma ChildrenSnoc(p: Parents, rows: seq<Id>, i: nat, x: Id)
    requires i < |rows| && rows[i] in p
    ensures Snoc(p, rows, i, x)
  {
    assert rows[..i + 1][..i] == rows[..i];
  }

  lemma {:induction false} ChildrenDistinct(p: Parents, rows: seq<Id>, x: Id)
    requires Distinct(rows)
    ensures Distinct(Children(p, rows, x)) && Distinct(Roots(p, rows))
  {
    if rows != [] {
      ChildrenDistinct(p, rows[..|rows| - 1], x);
      ChildrenMeaning(p, rows[..|rows| - 1], x);
    }
  }

  /** The nested nodes that the child lists unfold to. */
  datatype Node = Node(id: Id, children: seq<Node>)

  ghost predicate Table(p: Parents, rows: seq<Id>) {
    Closed(p) && Acyclic(p) && Distinct(rows) && forall x :: x in rows <==> x in p
  }

  ghost predicate Level(p: Parents, xs: seq<Id>, d: nat) {
    Closed(p) && Acyclic(p)
    && forall x :: x in xs ==> x in p && ReachesRoot(p, x) && Depth(p, x) == d
  }

  lemma DepthBound(p: Parents, x: Id)
    requires Closed(p) && Acyclic(p) && x in p
    ensures ReachesRoot(p, x) && Depth(p, x) < |p|
  {
    WalkBound(p, x);
    if |p| <= Depth(p, x) { UpPrefix(p, x, |p|, Depth(p, x)); }
  }

  lemma {:induction false} ChildrenLevel(p: Parents, rows: seq<Id>, x: Id)
    requires Table(p, rows) && x in p
    ensures ReachesRoot(p, x) && Level(p, Children(p, rows, x), Depth(p, x) + 1)
  {
    DepthBound(p, x);
    ChildrenMeaning(p, rows, x);
    forall y | y in Children(p, rows, x)
      ensures ReachesRoot(p, y) && Depth(p, y) == Depth(p, x) + 1
    {
      DepthBound(p, y);
      DepthParent(p, y);
    }
  }

  /** How many levels x could still have below it. */
  ghost function Room(p: Parents, x: Id): nat
    requires Closed(p) && Acyclic(p) && x in p
  {
    DepthBound(p, x);
    |p| - Depth(p, x)
  }

  ghost function Unfold(p: Parents, rows: seq<Id>, x: Id): (n: Node)
    requires Table(p, rows) && x in p
    ensures n.id == x && |n.children| == |Children(p, rows, x)|
    decreases Room(p, x), 0
  {
    ChildrenLevel(p, rows, x);
    Node(x, UnfoldAll(p, rows, Children(p, rows, x), Depth(p, x) + 1))
  }

  ghost function UnfoldAll(p: Parents, rows: seq<Id>, xs: seq<Id>, d: nat): (ns: seq<Node>)
    requires Table(p, rows) && Level(p, xs, d)
    ensures |ns| == |xs|
    decreases |p| - d, 1 + |xs|
  {
    if xs == [] then []
    else
      DepthBound(p, xs[0]);
      [Unfold(p, rows, xs[0])] + UnfoldAll(p, rows, xs[1..], d)
  }

  function PreOrder(n: Node): seq<Id> {
    [n.id] + PreOrders(n.children)
  }

  function PreOrders(ns: seq<Node>): seq<Id> {
    if ns == [] then [] else PreOrder(ns[0]) + PreOrders(ns[1..])
  }

  /** y is x or below it. */
  ghost predicate Below(p: Parents, y: Id, x: Id) {
    y == x || Ancestor(p, y, x)
  }

  /** On one level at most one category has y below it. */
  lemma BelowOnce(p: Parents, y: Id, a: Id, b: Id)
    requires Closed(p) && Acyclic(p) && y in p && a in p && b in p
    requires ReachesRoot(p, a) && ReachesRoot(p, b) && Depth(p, a) == Depth(p, b)
    requires Below(p, y, a) && Below(p, y, b)
    ensures a == b
  {
    DepthBound(p, y);
    assert Up(p, y, 0) == Some(y);
    var m: nat :| Up(p, y, m) == Some(a);
    var n: nat :| Up(p, y, n) == Some(b);
    DepthUp(p, y, m);
    DepthUp(p, y, n);
  }

  /** What is strictly below x is below exactly one child of x. */
  lemma BelowChild(p: Parents, rows: seq<Id>, y: Id, x: Id)
    requires Table(p, rows) && x in p && y in p
    ensures Ancestor(p, y, x) <==> exists c :: c in Children(p, rows, x) && Below(p, y, c)
  {
    ChildrenMeaning(p, rows, x);
    if n: nat :| n >= 1 && Up(p, y, n) == Some(x) {
      UpPrefix(p, y, n - 1, n);
      UpAdd(p, y, n - 1, 0);
      var c := Up(p, y, n - 1).value;
      assert p[c] == Some(x) && c in Children(p, rows, x);
      assert Up(p, y, 0) == Some(y);
      assert Below(p, y, c);
    }
    if c :| c in Children(p, rows, x) && Below(p, y, c) {
      assert Up(p, y, 0) == Some(y);
      var n: nat :| Up(p, y, n) == Some(c);
      assert Up(p, y, n + 1) == Some(x);
    }
  }

  ghost function One(b: bool): nat {
    if b then 1 else 0
  }

  lemma CountNode(n: Node, y: Id)
    ensures multiset(PreOrder(n))[y] == One(n.id == y) + multiset(PreOrders(n.children))[y]
  {
  }

  lemma CountNodes(ns: seq<Node>, y: Id)
    requires ns != []
    ensures multiset(PreOrders(ns))[y] == multiset(PreOrder(ns[0]))[y] + multiset(PreOrders(ns[1..]))[y]
  {
  }

  ghost predicate SomeBelow(p: Parents, y: Id, xs: seq<Id>) {
    exists c :: c in xs && Below(p, y, c)
  }

  lemma {:induction false} BelowOrChild(p: Parents, rows: seq<Id>, y: Id, x: Id)
    requires Table(p, rows) && x in p && y in p
    ensures One(Below(p, y, x)) == One(y == x) + One(SomeBelow(p, y, Children(p, rows, x)))
  {
    BelowChild(p, rows, y, x);
    assert !(y == x && Ancestor(p, y, x));
  }

  /** A node's pre-order lists the node and everything below it, once each, and nothing else. */
  lemma {:induction false} SubtreeExactlyOnce(p: Parents, rows: seq<Id>, x: Id, y: Id)
    requires Table(p, rows) && x in p && y in p
    ensures multiset(PreOrder(Unfold(p, rows, x)))[y] == One(Below(p, y, x))
    decreases Room(p, x), 0
  {
    ChildrenLevel(p, rows, x);
    ChildrenDistinct(p, rows, x);
    var kids, d := Children(p, rows, x), Depth(p, x) + 1;
    LevelExactlyOnce(p, rows, kids, d, y);
    BelowOrChild(p, rows, y, x);
    var n := Unfold(p, rows, x);
    assert n.children == UnfoldAll(p, rows, kids, d);
    CountNode(n, y);
  }

  lemma BelowOneSibling(p: Parents, xs: seq<Id>, d: nat, y: Id)
    requires Level(p, xs, d) && Distinct(xs) && y in p && xs != []
    ensures One(SomeBelow(p, y, xs)) == One(Below(p, y, xs[0])) + One(SomeBelow(p, y, xs[1..]))
  {
    assert forall c :: c in xs <==> c == xs[0] || c in xs[1..];
    if Below(p, y, xs[0]) {
      forall c | c in xs[1..] ensures !Below(p, y, c) {
        if Below(p, y, c) { BelowOnce(p, y, xs[0], c); }
      }
    }
  }

  lemma {:induction false} LevelExactlyOnce(p: Parents, rows: seq<Id>, xs: seq<Id>, d: nat, y: Id)
    requires Table(p, rows) && Level(p, xs, d) && Distinct(xs) && y in p
    ensures multiset(PreOrders(UnfoldAll(p, rows, xs, d)))[y] == One(SomeBelow(p, y, xs))
    decreases |p| - d, 1 + |xs|
  {
    if xs != [] {
      DepthBound(p, xs[0]);
      SubtreeExactlyOnce(p, rows, xs[0], y);
      LevelExactlyOnce(p, rows, xs[1..], d, y);
      var ns := UnfoldAll(p, rows, xs, d);
      assert ns[0] == Unfold(p, rows, xs[0]) && ns[1..] == UnfoldAll(p, rows, xs[1..], d);
      CountNodes(ns, y);
      BelowOneSibling(p, xs, d, y);
    }
  }

  lemma RootsLevel(p: Parents, rows: seq<Id>)
    requires Table(p, rows)
    ensures Level(p, Roots(p, rows), 0)
  {
    ChildrenMeaning(p, rows, 0);
    forall x | x in Roots(p, rows) ensures ReachesRoot(p, x) && Depth(p, x) == 0 {
      DepthBound(p, x);
      DepthParent(p, x);
    }
  }

  /** The whole tree lists every category exactly once. */
  lemma {:induction false} TreeExactlyOnce(p: Parents, rows: seq<Id>, y: Id)
    requires Table(p, rows) && y in p
    ensures Level(p, Roots(p, rows), 0)
    ensures multiset(PreOrders(UnfoldAll(p, rows, Roots(p, rows), 0)))[y] == 1
  {
    RootsLevel(p, rows);
    ChildrenDistinct(p, rows, y);
    LevelExactlyOnce(p, rows, Roots(p, rows), 0, y);
    DepthBound(p, y);
    PathMeaning(p, y);
    var r := PathToRoot(p, y)[0];
    PathIsAncestry(p, y, r);
    ChildrenMeaning(p, rows, 0);
    assert r in Roots(p, rows) && Below(p, y, r);
    assert SomeBelow(p, y, Roots(p, rows));
  }

  /** `path` leads from node n down through children. */
  ghost predicate PathIn(n: Node, path: seq<Id>) {
    path != [] && path[0] == n.id
    && (|path| > 1 ==> exists i :: 0 <= i < |n.children| && PathIn(n.children[i], path[1..]))
  }

  lemma {:induction false} UnfoldAllAt(p: Parents, rows: seq<Id>, xs: seq<Id>, d: nat, i: nat)
    requires Table(p, rows) && Level(p, xs, d) && i < |xs|
    ensures UnfoldAll(p, rows, xs, d)[i] == Unfold(p, rows, xs[i])
    decreases i
  {
    DepthBound(p, xs[i]);
    if i > 0 { UnfoldAllAt(p, rows, xs[1..], d, i - 1); }
  }

  /** The k-th child node unfolds the k-th child. */
  lemma UnfoldChild(p: Parents, rows: seq<Id>, x: Id, k: nat)
    requires Table(p, rows) && x in p && k < |Children(p, rows, x)|
    ensures Children(p, rows, x)[k] in p
    ensures Unfold(p, rows, x).children[k] == Unfold(p, rows, Children(p, rows, x)[k])
  {
    ChildrenLevel(p, rows, x);
    UnfoldAllAt(p, rows, Children(p, rows, x), Depth(p, x) + 1, k);
  }

  lemma {:induction false} PathStep(p: Parents, rows: seq<Id>, y: Id, c: Id, rest: seq<Id>)
    requires Table(p, rows) && y in p && c in p && p[c] == Some(y)
    requires PathIn(Unfold(p, rows, c), rest)
    ensures PathIn(Unfold(p, rows, y), [y] + rest)
  {
    ChildrenMeaning(p, rows, y);
    var kids := Children(p, rows, y);
    assert c in kids;
    var k :| 0 <= k < |kids| && kids[k] == c;
    UnfoldChild(p, rows, y, k);
    assert ([y] + rest)[1..] == rest;
    assert PathIn(Unfold(p, rows, y).children[k], rest);
  }

  /** Consecutive breadcrumbs are parent and child. */
  lemma PathLink(p: Parents, x: Id, i: nat)
    requires Closed(p) && x in p && ReachesRoot(p, x) && i <= Depth(p, x)
    ensures var path := PathToRoot(p, x);
            path[i] in p && (i < Depth(p, x) ==> path[i + 1] in p && p[path[i + 1]] == Some(path[i]))
  {
    PathMeaning(p, x);
    PathAt(p, x, i);
    UpAdd(p, x, Depth(p, x) - i, 0);
  }

  lemma {:induction false} PathDown(p: Parents, rows: seq<Id>, x: Id, i: nat)
    requires Table(p, rows) && x in p && ReachesRoot(p, x) && i <= Depth(p, x)
    ensures var y := PathToRoot(p, x)[i];
            y in p && PathIn(Unfold(p, rows, y), PathToRoot(p, x)[i..])
    decreases Depth(p, x) - i
  {
    PathLink(p, x, i);
    var path := PathToRoot(p, x);
    var y := path[i];
    if i < Depth(p, x) {
      PathDown(p, rows, x, i + 1);
      PathStep(p, rows, y, path[i + 1], path[i + 1..]);
      assert path[i..] == [y] + path[i + 1..];
    }
  }

  /** Every breadcrumb path is a root-to-node path in the tree. */
  lemma {:induction false} BreadcrumbsLieInTree(p: Parents, rows: seq<Id>, x: Id)
    requires Table(p, rows) && x in p && ReachesRoot(p, x)
    ensures var r := PathToRoot(p, x)[0];
            r in p && r in Roots(p, rows) && PathIn(Unfold(p, rows, r), PathToRoot(p, x))
  {
    PathDown(p, rows, x, 0);
    PathMeaning(p, x);
    ChildrenMeaning(p, rows, 0);
    assert PathToRoot(p, x)[0..] == PathToRoot(p, x);
  }

  // ------------------------------------------------------------------ service

  class CategoriesService {
    var parents: Parents                   // id -> parent_id
    var productLinks: set<(nat, Id)>       // (product, category)

    ghost predicate Valid()
      reads this
    {
      Closed(parents) && forall l :: l in productLinks ==> l.1 in parents
    }

    constructor ()
      ensures Valid() && Acyclic(parents) && parents == map[]
    {
      parents, productLinks := map[], {};
    }

    /** `id` is the next value of the sequence; an unknown parent violates the foreign key. */
    method Create(id: Id, parent: Option<Id>) returns (r: Result<Id>)
      requires Valid() && id !in parents
      modifies this`parents
      ensures Valid() && (old(Acyclic(parents)) ==> Acyclic(parents))
      ensures r.Ok? <==> parent.None? || parent.value in old(parents)
      ensures parents == if r.Ok? then old(parents)[id := parent] else old(parents)
    {
      if parent.Some? && parent.value !in parents { return Err(Internal); }
      if Acyclic(parents) { CreateAcyclic(parents, id, parent); }
      parents := parents[id := parent];
      r := Ok(id);
    }

    /** `update`: an absent parentId leaves the link alone, an empty one detaches. There
        is no cycle check, so the table stays a forest only under the stated condition. */
    method Update(id: Id, parentId: Option<Option<Id>>) returns (r: Result<Id>)
      requires Valid()
      modifies this`parents
      ensures Valid()
      ensures id == 0 ==> r == Err(BadRequest)
      ensures r.Ok? <==> (
        && id != 0 && id in old(parents)
        && (parentId.Some? && parentId.value.Some? ==> parentId.value.value in old(parents)))
      ensures parents == if r.Ok? && parentId.Some? then old(parents)[id := parentId.value] else old(parents)
      ensures old(Acyclic(parents)) && r.Ok? ==>
        (Acyclic(parents) <==>
           (parentId.Some? && parentId.value.Some? ==>
              parentId.value.value != id && !Ancestor(old(parents), parentId.value.value, id)))
    {
      if id == 0 { return Err(BadRequest); }
      if id !in parents { return Err(NotFound); }
      if parentId.Some? {
        if parentId.value.Some? && parentId.value.value !in parents { return Err(NotFound); }
        if Acyclic(parents) {
          if parentId.value.Some? { ReparentAcyclicIff(parents, id, parentId.value.value); }
          else { DetachAcyclic(parents, id); }
        }
        parents := parents[id := parentId.value];
      }
      r := Ok(id);
    }

    /** The transaction of `remove`, with the parent an earlier read found. It fails if the
        row is gone, or if children would get a parent that is; otherwise a forest stays
        one exactly if that parent does not lie below the category by now. */
    method RemoveTransaction(id: Id, parent: Option<Id>) returns (r: Result<Id>)
      requires Valid()
      modifies this
      ensures Valid()
      ensures r ==
        if id in old(parents)
           && (parent.Some? && (exists x :: x in old(parents) && old(parents)[x] == Some(id)) ==>
                 parent.value in old(parents))
        then Ok(id) else Err(Internal)
      ensures r.Err? ==> parents == old(parents) && productLinks == old(productLinks)
      ensures r.Ok? ==>
        && parents == Relinked(old(parents), id, parent)
        && (forall x :: x in parents <==> x in old(parents) && x != id)
        && (forall x :: x in parents ==>
              parents[x] == if old(parents)[x] != Some(id) then old(parents)[x]
                            else if parent == Some(id) then None else parent)
        && productLinks == set l | l in old(productLinks) && l.1 != id
      ensures r.Ok? && old(Acyclic(parents)) ==>
        (Acyclic(parents) <==> parent.None? || !Ancestor(old(parents), parent.value, id))
    {
      if id !in parents { return Err(Internal); }
      if parent.Some? && parent.value !in parents && exists x :: x in parents && parents[x] == Some(id) {
        return Err(Internal);
      }
      if Acyclic(parents) { StaleRemoveAcyclicIff(parents, id, parent); }
      RelinkedInSteps(parents, id, parent);
      parents := Moved(parents, id, parent);
      productLinks := set l | l in productLinks && l.1 != id;
      parents := Deleted(parents, id);
      r := Ok(id);
    }

    /** `remove`: the children move to the removed category's parent, product links go.
        When nothing comes between the read and the transaction, a forest stays one, with
        the same ancestors among the remaining categories. */
    method Remove(id: Id) returns (r: Result<Id>)
      requires Valid()
      modifies this
      ensures Valid() && (old(Acyclic(parents)) ==> Acyclic(parents))
      ensures r.Ok? <==> id != 0 && id in old(parents)
      ensures r.Err? ==> parents == old(parents) && productLinks == old(productLinks)
      ensures r.Ok? ==>
        && parents == Removed(old(parents), id)
        && (forall x :: x in parents <==> x in old(parents) && x != id)
        && (forall x :: x in parents ==>
              parents[x] == if old(parents)[x] != Some(id) then old(parents)[x]
                            else if old(parents)[id] == Some(id) then None else old(parents)[id])
        && productLinks == set l | l in old(productLinks) && l.1 != id
      ensures r.Ok? && old(Acyclic(parents)) ==>
        forall x, y :: x in parents && y in parents ==>
          (Ancestor(parents, x, y) <==> Ancestor(old(parents), x, y))
    {
      if id == 0 { return Err(BadRequest); }
      if id !in parents { return Err(NotFound); }
      RelinkedIsRemoved(parents, id, parents[id]);
      if Acyclic(parents) { RemovePreservesAncestry(parents, id); }
      r := RemoveTransaction(id, parents[id]);
    }

    /** `breadcrumbs`, given up after `fuel` turns of its loop: with enough of them it
        returns the path from the root, and no number is enough exactly when the walk from
        `id` enters a cycle. */
    method Breadcrumbs(id: Id, fuel: nat) returns (r: Option<Result<seq<Id>>>)
      requires Valid()
      ensures id == 0 ==> r == Some(Err(BadRequest))
      ensures r.None? <==> id != 0 && Up(parents, id, fuel).Some?
      ensures r.Some? && id != 0 && id in parents ==> ReachesRoot(parents, id)
      ensures r.Some? && id != 0 ==> r.value == Ok(if id in parents then PathToRoot(parents, id) else [])
    {
      if id == 0 { return Some(Err(BadRequest)); }
      var path: seq<Id> := [];
      var current := if id in parents then Some(id) else None;
      while current.Some? && |path| < fuel
        invariant |path| <= fuel && current == Up(parents, id, |path|)
        invariant current.Some? ==> current.value in parents
        invariant id !in parents ==> path == []
        invariant IsWalk(parents, id, path)
      {
        path := path + [current.value];
        current := parents[current.value];
      }
      if current.Some? { return None; }
      UpAdd(parents, id, |path|, fuel - |path|);
      if id in parents { WalkIsPath(parents, id, path); }
      r := Some(Ok(Reverse(path)));
    }

    /** The build loop of `tree` over the rows in query order: the child list of each
        node, and the roots. `BreadcrumbsLieInTree` and `TreeExactlyOnce` say what these
        lists unfold to. With a root id the answer is that node alone, or nothing. */
    method Tree(rows: seq<Id>, root: Option<Id>) returns (kids: map<Id, seq<Id>>, roots: seq<Id>)
      requires Valid() && Distinct(rows) && forall x :: x in rows <==> x in parents
      ensures kids.Keys == parents.Keys
      ensures forall x :: x in kids ==> kids[x] == Children(parents, rows, x)
      ensures forall x, y :: x in kids ==> (y in kids[x] <==> y in parents && parents[y] == Some(x))
      ensures root.None? ==> forall y :: y in roots <==> y in parents && parents[y].None?
      ensures roots == if root.None? then Roots(parents, rows) else if root.value in parents then [root.value] else []
    {
      kids := map x | x in parents :: [];
      roots := [];
      for i := 0 to |rows|
        invariant kids.Keys == parents.Keys
        invariant forall x :: x in kids ==> kids[x] == Children(parents, rows[..i], x)
        invariant roots == Roots(parents, rows[..i])
      {
        var n := rows[i];
        var parent := parents[n];
        ghost var before := kids;
        if parent.None? {
          roots := roots + [n];
        } else {
          kids := kids[parent.value := kids[parent.value] + [n]];
        }
        ChildrenSnoc(parents, rows, i, 0);
        forall x | x in kids ensures kids[x] == Children(parents, rows[..i + 1], x) {
          ChildrenSnoc(parents, rows, i, x);
          assert before[x] == Children(parents, rows[..i], x);
        }
      }
      assert rows[..|rows|] == rows;
      ChildrenMeaning(parents, rows, 0);
      forall x | x in kids ensures forall y :: y in kids[x] <==> y in parents && parents[y] == Some(x) {
        ChildrenMeaning(parents, rows, x);
      }
      if root.Some? { roots := if root.value in kids then [root.value] else []; }
    }
  }

  /** `update` can close a cycle: moving a root under its own child. */
  lemma UpdateCanCloseACycle()
    ensures var p: Parents := map[1 := None, 2 := Some(1)];
            Closed(p) && Acyclic(p) && !Acyclic(p[1 := Some(2)])
  {
    var e: Parents := map[];
    assert Acyclic(e);
    CreateAcyclic(e, 1, None);
    CreateAcyclic(e[1 := None], 2, Some(1));
    var p: Parents := map[1 := None, 2 := Some(1)];
    assert p == e[1 := None][2 := Some(1)];
    assert Up(p, 2, 0) == Some(2) && Up(p, 2, 1) == Some(1);
    assert Ancestor(p, 2, 1);
    ReparentAcyclicIff(p, 1, 2);
  }

  /** Two moves that each keep a forest can come between the read and the transaction of
      `remove` and make it close a cycle: category 2 is read under 1, is detached, and 1
      moves below 2. */
  lemma StaleRemoveClosesACycle()
    ensures var p: Parents := map[1 := None, 2 := Some(1), 3 := Some(2)];
            var q := p[2 := None];
            var s := q[1 := Some(3)];
            && Closed(p) && Acyclic(p) && Acyclic(q) && Closed(s) && Acyclic(s)
            && !Acyclic(Relinked(s, 2, p[2]))
  {
    var e: Parents := map[];
    assert Acyclic(e);
    CreateAcyclic(e, 1, None);
    CreateAcyclic(e[1 := None], 2, Some(1));
    CreateAcyclic(e[1 := None][2 := Some(1)], 3, Some(2));
    var p: Parents := map[1 := None, 2 := Some(1), 3 := Some(2)];
    assert p == e[1 := None][2 := Some(1)][3 := Some(2)];
    DetachAcyclic(p, 2);
    var q := p[2 := None];
    assert Up(q, 3, 0) == Some(3) && Up(q, 3, 1) == Some(2) && Up(q, 3, 2) == None;
    forall n: nat ensures Up(q, 3, n) != Some(1) {
      if n >= 2 { UpAdd(q, 3, 2, n - 2); }
    }
    ReparentAcyclicIff(q, 1, 3);
    var s := q[1 := Some(3)];
    assert Up(s, 1, 0) == Some(1) && Up(s, 1, 1) == Some(3) && Up(s, 1, 2) == Some(2);
    assert Ancestor(s, 1, 2);
    StaleRemoveAcyclicIff(s, 2, Some(1));
  }
}
