/** The parent relation of the category table: walks upwards, ancestors, cycles,
    and what the three writes of `CategoriesService` do to them. */
module Forest {
  import opened Common

  type Id = nat
  type Parents = map<Id, Option<Id>>

  /** The foreign key on parent_id. */
  ghost predicate Closed(p: Parents) {
    forall x {:trigger p[x]} :: x in p && p[x].Some? ==> p[x].value in p
  }

  /** The category n steps above x, if the walk gets that far. */
  function Up(p: Parents, x: Id, n: nat): Option<Id> {
    if n == 0 then (if x in p then Some(x) else None)
    else
      var y := Up(p, x, n - 1);
      if y.Some? && y.value in p then p[y.value] else None
  }

  ghost predicate Ancestor(p: Parents, x: Id, y: Id) {
    exists n: nat :: n >= 1 && Up(p, x, n) == Some(y)
  }

  ghost predicate Acyclic(p: Parents) {
    forall x, n: nat :: x in p && n >= 1 ==> Up(p, x, n) != Some(x)
  }

  /** The walk from x ends at a root. */
  ghost predicate ReachesRoot(p: Parents, x: Id) {
    exists n: nat :: Up(p, x, n).None?
  }

  lemma {:induction false} UpAdd(p: Parents, x: Id, a: nat, b: nat)
    requires Closed(p)
    ensures Up(p, x, a).Some? ==> Up(p, x, a).value in p && Up(p, x, a + b) == Up(p, Up(p, x, a).value, b)
    ensures Up(p, x, a).None? ==> Up(p, x, a + b).None?
    decreases a + b
  {
    if b > 0 {
      UpAdd(p, x, a, b - 1);
    } else if a > 0 {
      UpAdd(p, x, a - 1, 0);
    }
  }

  lemma {:induction false} UpPrefix(p: Parents, x: Id, j: nat, k: nat)
    requires Closed(p) && Up(p, x, k).Some? && j <= k
    ensures Up(p, x, j).Some?
  {
    UpAdd(p, x, j, k - j);
  }

  // ------------------------------------------------- acyclic means walks end

  ghost function Visited(p: Parents, x: Id, n: nat): set<Id>
    requires Up(p, x, n).Some? || n == 0
    requires Closed(p)
  {
    if n == 0 then {}
    else UpAdd(p, x, n - 1, 1); Visited(p, x, n - 1) + {Up(p, x, n - 1).value}
  }

  ghost predicate VisitedAt(p: Parents, x: Id, n: nat, y: Id) {
    exists m: nat :: m < n && Up(p, x, m) == Some(y)
  }

  /** An acyclic walk never returns to where it has been. */
  lemma WalkIsFresh(p: Parents, x: Id, n: nat)
    requires Closed(p) && Acyclic(p) && Up(p, x, n).Some?
    ensures forall m: nat :: m < n ==> Up(p, x, m) != Up(p, x, n)
  {
    var y := Up(p, x, n).value;
    UpAdd(p, x, n, 0);
    forall m: nat | m < n ensures Up(p, x, m) != Some(y) { UpAdd(p, x, m, n - m); }
  }

  lemma {:induction false} VisitedSize(p: Parents, x: Id, n: nat)
    requires Closed(p) && Acyclic(p) && (Up(p, x, n).Some? || n == 0)
    ensures Visited(p, x, n) <= p.Keys && |Visited(p, x, n)| == n
    ensures forall y: Id :: y in Visited(p, x, n) ==> VisitedAt(p, x, n, y)
  {
    if n > 0 {
      UpAdd(p, x, n - 1, 1);
      VisitedSize(p, x, n - 1);
      var y := Up(p, x, n - 1).value;
      WalkIsFresh(p, x, n - 1);
      assert Up(p, x, n - 1) == Some(y) && y !in Visited(p, x, n - 1);
      forall z: Id | z in Visited(p, x, n) ensures VisitedAt(p, x, n, z) {
        if z == y {
          assert Up(p, x, n - 1) == Some(z);
        } else {
          assert VisitedAt(p, x, n - 1, z);
        }
      }
    }
  }

  /** In an acyclic table no walk is longer than the table. */
  lemma WalkBound(p: Parents, x: Id)
    requires Closed(p) && Acyclic(p)
    ensures Up(p, x, |p|).None?
  {
    assert |p.Keys| == |p|;
    if Up(p, x, |p|).Some? {
      UpAdd(p, x, |p|, 0);
      VisitedSize(p, x, |p|);
      WalkIsFresh(p, x, |p|);
      SubsetSize(Visited(p, x, |p|) + {Up(p, x, |p|).value}, p.Keys);
    }
  }

  lemma {:induction false} CycleNeverEnds(p: Parents, x: Id, n: nat, k: nat)
    requires Closed(p) && x in p && n >= 1 && Up(p, x, n) == Some(x)
    ensures Up(p, x, k * n) == Some(x)
  {
    if k > 0 {
      CycleNeverEnds(p, x, n, k - 1);
      assert k * n == (k - 1) * n + n;
      UpAdd(p, x, (k - 1) * n, n);
    }
  }

  /** There is no cycle exactly when every walk ends. */
  lemma AcyclicIffWalksEnd(p: Parents)
    requires Closed(p)
    ensures Acyclic(p) <==> forall x :: x in p ==> ReachesRoot(p, x)
  {
    if Acyclic(p) {
      forall x | x in p ensures ReachesRoot(p, x) { WalkBound(p, x); }
    } else {
      var x, n: nat :| x in p && n >= 1 && Up(p, x, n) == Some(x);
      forall k: nat ensures Up(p, x, k).Some? {
        CycleNeverEnds(p, x, n, k);
        assert k <= k * n;
        UpAdd(p, x, k, k * n - k);
      }
    }
  }

  // --------------------------------------------------------------------- depth

  ghost predicate IsDepth(p: Parents, x: Id, n: nat) {
    Up(p, x, n).Some? && Up(p, x, n + 1).None?
  }

  lemma {:induction false} DepthExists(p: Parents, x: Id, n: nat) returns (d: nat)
    requires Closed(p) && x in p && Up(p, x, n).None?
    ensures IsDepth(p, x, d) && d < n
  {
    if Up(p, x, n - 1).None? { d := DepthExists(p, x, n - 1); } else { d := n - 1; }
  }

  lemma DepthUnique(p: Parents, x: Id, a: nat, b: nat)
    requires Closed(p) && IsDepth(p, x, a) && IsDepth(p, x, b)
    ensures a == b
  {
    if a < b { UpAdd(p, x, a + 1, b - a - 1); }
    if b < a { UpAdd(p, x, b + 1, a - b - 1); }
  }

  ghost function Depth(p: Parents, x: Id): (d: nat)
    requires Closed(p) && x in p && ReachesRoot(p, x)
    ensures IsDepth(p, x, d)
  {
    var n: nat :| Up(p, x, n).None?;
    assert exists d :: IsDepth(p, x, d) by { var d := DepthExists(p, x, n); }
    var d :| IsDepth(p, x, d);
    d
  }

  /** The k-th category above x is k levels less deep. */
  lemma DepthUp(p: Parents, x: Id, k: nat)
    requires Closed(p) && x in p && ReachesRoot(p, x) && Up(p, x, k).Some?
    ensures var y := Up(p, x, k).value;
            y in p && ReachesRoot(p, y) && k <= Depth(p, x) && Depth(p, y) == Depth(p, x) - k
  {
    var d := Depth(p, x);
    UpAdd(p, x, k, 0);
    UpPrefix(p, x, if d < k then d + 1 else 0, k);
    var y := Up(p, x, k).value;
    UpAdd(p, x, k, d - k);
    UpAdd(p, x, k, d + 1 - k);
    assert Up(p, y, d + 1 - k).None?;
    assert IsDepth(p, y, d - k);
    DepthUnique(p, y, Depth(p, y), d - k);
  }

  lemma DepthParent(p: Parents, x: Id)
    requires Closed(p) && x in p && ReachesRoot(p, x)
    ensures p[x].None? <==> Depth(p, x) == 0
    ensures p[x].Some? ==> ReachesRoot(p, p[x].value) && Depth(p, p[x].value) == Depth(p, x) - 1
  {
    assert Up(p, x, 0) == Some(x);
    assert Up(p, x, 1) == p[x];
    if p[x].Some? { DepthUp(p, x, 1); } else { DepthUnique(p, x, 0, Depth(p, x)); }
  }

  // -------------------------------------------------------------------- writes

  lemma {:induction false} UpAvoiding(p: Parents, q: Parents, x: Id, y: Id, n: nat)
    requires Closed(p) && Closed(q) && p.Keys <= q.Keys && y in p
    requires forall z :: z in p && z != x ==> q[z] == p[z]
    requires forall m: nat :: m < n ==> Up(p, y, m) != Some(x)
    ensures Up(q, y, n) == Up(p, y, n)
  {
    if n > 0 {
      UpAvoiding(p, q, x, y, n - 1);
      UpAdd(p, y, n - 1, 0);
    }
  }

  /** A walk that ended before still ends when only x's link changed and x's new walk ends. */
  lemma WalkEndsThrough(p: Parents, q: Parents, x: Id, y: Id, k: nat)
    requires Closed(p) && Acyclic(p) && Closed(q) && p.Keys <= q.Keys && y in p
    requires forall z :: z in p && z != x ==> q[z] == p[z]
    requires Up(q, x, k).None?
    ensures ReachesRoot(q, y)
  {
    WalkBound(p, y);
    if m: nat :| Up(p, y, m) == Some(x) {
      forall j: nat | j < m ensures Up(p, y, j) != Some(x) { UpAdd(p, y, j, m - j); UpAdd(p, y, m, 0); }
      UpAvoiding(p, q, x, y, m);
      UpAdd(q, y, m, k);
      assert Up(q, y, m + k).None?;
    } else {
      UpAvoiding(p, q, x, y, |p|);
    }
  }

  /** `update` with a new parent keeps the table acyclic exactly when the new parent
      lies outside the subtree of the moved category. */
  lemma ReparentAcyclicIff(p: Parents, x: Id, q: Id)
    requires Closed(p) && Acyclic(p) && x in p && q in p
    ensures Closed(p[x := Some(q)])
    ensures Acyclic(p[x := Some(q)]) <==> q != x && !Ancestor(p, q, x)
  {
    var p' := p[x := Some(q)];
    if q == x || Ancestor(p, q, x) {
      assert Up(p, q, 0) == Some(q);
      var n: nat :| Up(p, q, n) == Some(x);
      forall m: nat | m < n ensures Up(p, q, m) != Some(x) {
        UpAdd(p, q, m, n - m);
      }
      UpAvoiding(p, p', x, q, n);
      assert Up(p', x, 0) == Some(x);
      assert Up(p', x, 1) == Some(q);
      UpAdd(p', x, 1, n);
      assert Up(p', x, n + 1) == Some(x);
    } else {
      forall m: nat ensures Up(p, q, m) != Some(x) {
        if m == 0 { assert Up(p, q, 0) == Some(q); }
      }
      WalkBound(p, q);
      UpAvoiding(p, p', x, q, |p|);
      assert Up(p', x, 0) == Some(x);
      assert Up(p', x, 1) == Some(q);
      UpAdd(p', x, 1, |p|);
      forall y | y in p' ensures ReachesRoot(p', y) {
        WalkEndsThrough(p, p', x, y, |p| + 1);
      }
      AcyclicIffWalksEnd(p');
    }
  }

  /** Detaching a category never creates a cycle. */
  lemma DetachAcyclic(p: Parents, x: Id)
    requires Closed(p) && Acyclic(p) && x in p
    ensures Closed(p[x := None]) && Acyclic(p[x := None])
  {
    var p' := p[x := None];
    assert Up(p', x, 0) == Some(x);
    assert Up(p', x, 1) == None;
    forall y | y in p' ensures ReachesRoot(p', y) { WalkEndsThrough(p, p', x, y, 1); }
    AcyclicIffWalksEnd(p');
  }

  /** Neither does adding one under an existing category, or as a root. */
  lemma CreateAcyclic(p: Parents, x: Id, parent: Option<Id>)
    requires Closed(p) && Acyclic(p) && x !in p && (parent.Some? ==> parent.value in p)
    ensures Closed(p[x := parent]) && Acyclic(p[x := parent])
    ensures forall y: Id, z: Id :: y in p ==> (Ancestor(p[x := parent], y, z) <==> Ancestor(p, y, z))
  {
    var p' := p[x := parent];
    forall y, n: nat | y in p ensures Up(p', y, n) == Up(p, y, n) {
      forall m: nat | m < n ensures Up(p, y, m) != Some(x) { UpAdd(p, y, m, 0); }
      UpAvoiding(p, p', x, y, n);
    }
    assert Up(p', x, 0) == Some(x);
    assert Up(p', x, 1) == parent;
    forall y | y in p' ensures ReachesRoot(p', y) {
      if y in p {
        WalkBound(p, y);
        assert Up(p', y, |p|).None?;
      } else if parent.Some? {
        WalkBound(p, parent.value);
        assert Up(p', parent.value, |p|).None?;
        UpAdd(p', x, 1, |p|);
      }
    }
    AcyclicIffWalksEnd(p');
    forall y: Id, z: Id | y in p ensures Ancestor(p', y, z) <==> Ancestor(p, y, z) {
      if n: nat :| n >= 1 && Up(p', y, n) == Some(z) { assert Up(p, y, n) == Some(z); }
      if n: nat :| n >= 1 && Up(p, y, n) == Some(z) { assert Up(p', y, n) == Some(z); }
    }
  }

  /** `remove`: the children go to the removed category's parent; should that be the
      category itself, deleting the row sets their links to null. */
  function Removed(p: Parents, id: Id): Parents
    requires id in p
  {
    map x | x in p && x != id :: if p[x] != Some(id) then p[x] else if p[id] == Some(id) then None else p[id]
  }

  lemma RemovedClosed(p: Parents, id: Id)
    requires Closed(p) && id in p
    ensures Closed(Removed(p, id))
  {
  }

  lemma {:induction false} RemovedToOld(p: Parents, id: Id, x: Id, n: nat)
    requires Closed(p) && Acyclic(p) && id in p && x in p && x != id
    ensures Up(Removed(p, id), x, n).Some? ==>
              exists m: nat :: m >= n && Up(p, x, m) == Up(Removed(p, id), x, n)
    decreases n
  {
    var p' := Removed(p, id);
    assert Up(p, id, 0) == Some(id) && Up(p, id, 1) == p[id];
    if n == 0 {
      assert Up(p, x, 0) == Some(x);
    } else if Up(p', x, n).Some? {
      RemovedToOld(p, id, x, n - 1);
      var y := Up(p', x, n - 1).value;
      var m: nat :| m >= n - 1 && Up(p, x, m) == Some(y);
      if p[y] == Some(id) {
        assert Up(p, x, m + 1) == Some(id);
        assert Up(p, x, m + 2) == p[id];
      } else {
        assert Up(p, x, m + 1) == p[y];
      }
    }
  }

  lemma {:induction false} OldToRemoved(p: Parents, id: Id, x: Id, y: Id, n: nat)
    requires Closed(p) && Acyclic(p) && id in p && x in p && x != id && y != id
    requires Up(p, x, n) == Some(y)
    ensures exists m: nat :: m <= n && (n >= 1 ==> m >= 1) && Up(Removed(p, id), x, m) == Some(y)
    decreases n
  {
    var p' := Removed(p, id);
    if n == 0 {
      assert Up(p', x, 0) == Some(y);
    } else {
      var z := Up(p, x, n - 1).value;
      UpAdd(p, x, n - 1, 1);
      if z != id {
        OldToRemoved(p, id, x, z, n - 1);
        var m: nat :| m <= n - 1 && Up(p', x, m) == Some(z);
        assert Up(p', x, m + 1) == Some(y);
      } else {
        assert n >= 2;
        var w := Up(p, x, n - 2).value;
        assert w != id by {
          assert Up(p, id, 0) == Some(id) && Up(p, id, 1) == p[id];
          assert p[w] == Some(id);
        }
        OldToRemoved(p, id, x, w, n - 2);
        var m: nat :| m <= n - 2 && Up(p', x, m) == Some(w);
        assert Up(p', x, m + 1) == Some(y);
      }
    }
  }

  /** Removing a category keeps the forest and every ancestor relation among the rest. */
  lemma RemovePreservesAncestry(p: Parents, id: Id)
    requires Closed(p) && Acyclic(p) && id in p
    ensures Closed(Removed(p, id)) && Acyclic(Removed(p, id))
    ensures forall x, y :: x in p && y in p && x != id && y != id ==>
              (Ancestor(Removed(p, id), x, y) <==> Ancestor(p, x, y))
  {
    var p' := Removed(p, id);
    RemovedClosed(p, id);
    forall x, y | x in p && y in p && x != id && y != id
      ensures Ancestor(p', x, y) <==> Ancestor(p, x, y)
    {
      if n: nat :| n >= 1 && Up(p', x, n) == Some(y) { RemovedToOld(p, id, x, n); }
      if n: nat :| n >= 1 && Up(p, x, n) == Some(y) { OldToRemoved(p, id, x, y, n); }
    }
    forall x, n: nat | x in p' && n >= 1 ensures Up(p', x, n) != Some(x) {
      if Up(p', x, n) == Some(x) {
        assert Ancestor(p', x, x);
      }
    }
  }

  // ------------------------------------------------------ a stale parent in remove

  /** The transaction of `remove`, with the parent that an earlier read found. */
  function Relinked(p: Parents, id: Id, parent: Option<Id>): Parents
    requires id in p
  {
    map x | x in p && x != id :: if p[x] != Some(id) then p[x] else if parent == Some(id) then None else parent
  }

  /** Its first step: the children move. */
  function Moved(p: Parents, id: Id, parent: Option<Id>): Parents {
    map x | x in p :: if p[x] == Some(id) then parent else p[x]
  }

  /** Its last: the row goes, and ON DELETE SET NULL clears what still points to it. */
  function Deleted(p: Parents, id: Id): Parents {
    map x | x in p && x != id :: if p[x] == Some(id) then None else p[x]
  }

  lemma RelinkedInSteps(p: Parents, id: Id, parent: Option<Id>)
    requires id in p
    ensures Deleted(Moved(p, id, parent), id) == Relinked(p, id, parent)
  {
  }

  ghost predicate HasChild(p: Parents, id: Id) {
    exists x :: x in p && p[x] == Some(id)
  }

  /** It is a removal after moving the category back under that parent. */
  lemma RelinkedIsRemoved(p: Parents, id: Id, parent: Option<Id>)
    requires id in p
    ensures Relinked(p, id, parent) == Removed(p[id := if parent == Some(id) then None else parent], id)
    ensures parent == p[id] || !HasChild(p, id) ==> Relinked(p, id, parent) == Removed(p, id)
  {
  }

  /** Below the category the walk is the same until it reaches one of its children. */
  lemma {:induction false} WalkBelow(p: Parents, id: Id, parent: Option<Id>, x: Id, m: nat, n: nat)
    requires Closed(p) && Acyclic(p) && id in p && x in p && m < n && Up(p, x, n) == Some(id)
    ensures Up(Relinked(p, id, parent), x, m) == Up(p, x, m) && Up(p, x, m).Some? && Up(p, x, m) != Some(id)
  {
    UpAdd(p, x, m, n - m);
    if m > 0 {
      WalkBelow(p, id, parent, x, m - 1, n);
    }
  }

  /** A stale parent below the category closes a cycle through the child above it. */
  lemma {:induction false} StaleBelowCycles(p: Parents, id: Id, parent: Id, n: nat)
    requires Closed(p) && Acyclic(p) && id in p && parent in p && n >= 1 && Up(p, parent, n) == Some(id)
    ensures Up(Relinked(p, id, Some(parent)), parent, n) == Some(parent)
  {
    WalkBelow(p, id, Some(parent), parent, n - 1, n);
    UpAdd(p, parent, n - 1, 0);
    assert Up(p, parent, 0) == Some(parent) && Up(p, id, 0) == Some(id);
    assert parent != id;
  }

  lemma ChildAbove(p: Parents, x: Id, id: Id)
    requires Closed(p) && Ancestor(p, x, id)
    ensures HasChild(p, id)
  {
    var n: nat :| n >= 1 && Up(p, x, n) == Some(id);
    UpPrefix(p, x, n - 1, n);
    UpAdd(p, x, n - 1, 0);
    var c := Up(p, x, n - 1).value;
    assert c in p && p[c] == Some(id);
  }

  /** Exactly when the stale parent has come to lie below the category does the removal
      close a cycle. */
  lemma StaleRemoveAcyclicIff(p: Parents, id: Id, parent: Option<Id>)
    requires Closed(p) && Acyclic(p) && id in p && (parent.Some? && HasChild(p, id) ==> parent.value in p)
    ensures Closed(Relinked(p, id, parent))
    ensures Acyclic(Relinked(p, id, parent)) <==> parent.None? || !Ancestor(p, parent.value, id)
  {
    RelinkedIsRemoved(p, id, parent);
    if !HasChild(p, id) {
      RemovePreservesAncestry(p, id);
      if parent.Some? && Ancestor(p, parent.value, id) { ChildAbove(p, parent.value, id); }
    } else if parent.Some? && Ancestor(p, parent.value, id) {
      var n: nat :| n >= 1 && Up(p, parent.value, n) == Some(id);
      StaleBelowCycles(p, id, parent.value, n);
    } else {
      var q := if parent == Some(id) then None else parent;
      if q.Some? { ReparentAcyclicIff(p, id, q.value); } else { DetachAcyclic(p, id); }
      RemovePreservesAncestry(p[id := q], id);
    }
  }
}
