/**
 * The folder hierarchy the `parent_id` column describes, seen as a map from
 * each folder to its parent. A move is safe when the folder it moves is not
 * an ancestor of (or equal to) its new parent; the lemmas here prove that
 * such a move keeps the hierarchy free of cycles, and that a walk up from the
 * new parent bounded by the number of folders decides the condition.
 */
module FolderTree {
  import opened Common
  import opened FolderRepo

  /** Child to parent; root folders have no entry. */
  type Parents = map<Uuid, Uuid>

  /** The folder `n` levels above `x`: `x` itself at 0, `None` once the walk passes a root. */
  function Up(par: Parents, x: Uuid, n: nat): Option<Uuid>
    decreases n
  {
    if n == 0 then Some(x)
    else if x in par then Up(par, par[x], n - 1)
    else None
  }

  /** No folder is its own ancestor. */
  ghost predicate Acyclic(par: Parents) {
    forall x: Uuid, n: nat :: n >= 1 ==> Up(par, x, n) != Some(x)
  }

  /** `a` is `d` or one of its ancestors. */
  ghost predicate AtOrAbove(par: Parents, a: Uuid, d: Uuid) {
    exists k: nat :: Up(par, d, k) == Some(a)
  }

  /** The two maps differ at most at `x`. */
  ghost predicate Agree(p1: Parents, p2: Parents, x: Uuid) {
    && (forall z :: z != x ==> (z in p1 <==> z in p2))
    && (forall z :: z != x && z in p1 ==> p1[z] == p2[z])
  }

  /** Sets the parent of `x`, or makes it a root. */
  function Reparent(par: Parents, x: Uuid, p: Option<Uuid>): (r: Parents)
    ensures Agree(par, r, x)
    ensures p.Some? <==> x in r
    ensures p.Some? ==> r[x] == p.value
  {
    if p.Some? then par[x := p.value] else par - {x}
  }

  /** Walking `m` levels, then `n` more, is walking `m + n`. */
  lemma {:induction false} UpCompose(par: Parents, a: Uuid, m: nat, n: nat)
    ensures Up(par, a, m + n) == if Up(par, a, m).Some? then Up(par, Up(par, a, m).value, n) else None
    decreases m
  {
    if m > 0 && a in par {
      UpCompose(par, par[a], m - 1, n);
    }
  }

  /** A walk that has not reached `x` sees the same folders in two maps that differ only at `x`. */
  lemma {:induction false} UpAgree(p1: Parents, p2: Parents, x: Uuid, y: Uuid, n: nat)
    requires Agree(p1, p2, x)
    requires forall j :: 0 <= j < n ==> Up(p1, y, j) != Some(x)
    ensures Up(p1, y, n) == Up(p2, y, n)
    decreases n
  {
    if n > 0 {
      assert Up(p1, y, 0) != Some(x);
      if y in p1 {
        forall j | 0 <= j < n - 1 ensures Up(p1, p1[y], j) != Some(x) {
          assert Up(p1, y, j + 1) == Up(p1, p1[y], j);
        }
        UpAgree(p1, p2, x, p1[y], n - 1);
      }
    }
  }

  /**
   * Re-parenting `x` under a folder that `x` is not at or above (or making
   * it a root) creates no cycle.
   */
  lemma ReparentKeepsAcyclic(par: Parents, x: Uuid, p: Option<Uuid>)
    requires Acyclic(par)
    requires p.Some? ==> !AtOrAbove(par, x, p.value)
    ensures Acyclic(Reparent(par, x, p))
  {
    var q := Reparent(par, x, p);
    forall y: Uuid, n: nat | n >= 1 ensures Up(q, y, n) != Some(y) {
      if j :| 0 <= j < n && Up(q, y, j) == Some(x) {
        // A new cycle through `y` would pass `x`, giving one through `x` of the same length.
        UpCompose(q, y, j, n - j);
        UpCompose(q, x, n - j, j);
        if x in q {
          forall i | 0 <= i < n - 1 ensures Up(par, p.value, i) != Some(x) {
          }
          UpAgree(par, q, x, p.value, n - 1);
        }
      } else {
        UpAgree(q, par, x, y, n);
      }
    }
  }

  /** Walks up from `d` at most `fuel` levels looking for `a`. */
  function FindAbove(par: Parents, a: Uuid, d: Uuid, fuel: nat): (found: bool)
    ensures found <==> exists k :: 0 <= k <= fuel && Up(par, d, k) == Some(a)
    decreases fuel
  {
    if d == a then
      assert Up(par, d, 0) == Some(a);
      true
    else if fuel == 0 || d !in par then
      assert forall k :: 1 <= k ==> Up(par, d, k) == (if d in par then Up(par, par[d], k - 1) else None);
      false
    else
      var r := FindAbove(par, a, par[d], fuel - 1);
      assert forall k :: 1 <= k <= fuel ==> Up(par, d, k) == Up(par, par[d], k - 1);
      assert r ==> exists k :: 0 <= k <= fuel && Up(par, d, k) == Some(a) by {
        if r {
          var k :| 0 <= k <= fuel - 1 && Up(par, par[d], k) == Some(a);
          assert Up(par, d, k + 1) == Some(a);
        }
      }
      r
  }

  /** The `i`-th folder on the walk up from `d`, or 0 once the walk has ended. */
  function Node(par: Parents, d: Uuid, i: nat): Uuid {
    Up(par, d, i).GetOr(0)
  }

  lemma {:induction false} InjectiveRangeCard(par: Parents, d: Uuid, n: nat)
    requires forall i, j :: 0 <= i < j < n ==> Node(par, d, i) != Node(par, d, j)
    ensures |set i | 0 <= i < n :: Node(par, d, i)| == n
  {
    if n > 0 {
      InjectiveRangeCard(par, d, n - 1);
      RangeSplit(par, d, n);
      var smaller := set i | 0 <= i < n - 1 :: Node(par, d, i);
      assert Node(par, d, n - 1) !in smaller;
    }
  }

  /** The first `n` folders of a walk are the first `n - 1` and the last one. */
  lemma RangeSplit(par: Parents, d: Uuid, n: nat)
    requires n > 0
    ensures (set i | 0 <= i < n :: Node(par, d, i)) == (set i | 0 <= i < n - 1 :: Node(par, d, i)) + {Node(par, d, n - 1)}
  {
  }

  /**
   * In an acyclic hierarchy a walk up that is still on a folder after `k`
   * levels has visited `k` distinct folders that all have a parent, so `k`
   * is at most the number of folders with a parent.
   */
  lemma WalkBound(par: Parents, d: Uuid, k: nat)
    requires Acyclic(par)
    requires Up(par, d, k).Some?
    ensures k <= |par|
  {
    forall i | 0 <= i < k ensures Up(par, d, i).Some? && Node(par, d, i) in par {
      UpCompose(par, d, i, 1);
      UpCompose(par, d, i + 1, k - i - 1);
    }
    forall i, j | 0 <= i < j < k ensures Node(par, d, i) != Node(par, d, j) {
      UpCompose(par, d, i, j - i);
    }
    InjectiveRangeCard(par, d, k);
    var visited := set i | 0 <= i < k :: Node(par, d, i);
    assert visited <= par.Keys;
    CardSubset(visited, par.Keys);
  }

  lemma CardSubset(a: set<Uuid>, b: set<Uuid>)
    requires a <= b
    ensures |a| <= |b|
  {
    assert b == a + (b - a);
  }

  /**
   * With `fuel` at least the number of folders that have a parent, the
   * bounded walk decides whether `a` is at or above `d`.
   */
  lemma FindAboveDecides(par: Parents, a: Uuid, d: Uuid, fuel: nat)
    requires Acyclic(par) && fuel >= |par|
    ensures FindAbove(par, a, d, fuel) <==> AtOrAbove(par, a, d)
  {
    if AtOrAbove(par, a, d) {
      var k: nat :| Up(par, d, k) == Some(a);
      WalkBound(par, d, k);
    }
    if FindAbove(par, a, d, fuel) {
      var k :| 0 <= k <= fuel && Up(par, d, k) == Some(a);
    }
  }

  // ---------------------------------------------------------------------------
  // The hierarchy of a table
  // ---------------------------------------------------------------------------

  /** The parent of every row that has one, soft-deleted rows included. */
  function ParentMap(t: Folders): (par: Parents)
    requires UniqueIds(t)
    ensures forall i :: 0 <= i < |t| ==> (t[i].id in par <==> t[i].parentId.Some?)
    ensures forall i :: 0 <= i < |t| && t[i].parentId.Some? ==> par[t[i].id] == t[i].parentId.value
    ensures forall x :: x in par ==> exists i :: 0 <= i < |t| && t[i].id == x
  {
    map i | 0 <= i < |t| && t[i].parentId.Some? :: t[i].id := t[i].parentId.value
  }

  /** There are no more parent links than rows. */
  lemma ParentMapSize(t: Folders)
    requires UniqueIds(t)
    ensures |ParentMap(t)| <= |t|
  {
    var ids := set i | 0 <= i < |t| :: t[i].id;
    assert ParentMap(t).Keys <= ids;
    CardSubset(ParentMap(t).Keys, ids);
    IdsCard(t, |t|);
  }

  lemma {:induction false} IdsCard(t: Folders, n: nat)
    requires n <= |t|
    ensures |set i | 0 <= i < n :: t[i].id| <= n
  {
    if n > 0 {
      IdsCard(t, n - 1);
      assert (set i | 0 <= i < n :: t[i].id) == (set i | 0 <= i < n - 1 :: t[i].id) + {t[n - 1].id};
    }
  }

  /** Moving the live row `id` re-parents exactly that folder in the hierarchy. */
  lemma MoveToReparents(t: Folders, id: Uuid, target: Option<Uuid>, now: nat, i: nat)
    requires UniqueIds(t)
    requires i < |t| && LiveWithId(id, t[i])
    ensures UniqueIds(MoveTo(t, id, target, now, false).value)
    ensures ParentMap(MoveTo(t, id, target, now, false).value) == Reparent(ParentMap(t), id, target)
  {
    var t' := MoveTo(t, id, target, now, false).value;
    assert forall k :: 0 <= k < |t| ==> t'[k].id == t[k].id;
    var a := ParentMap(t');
    var b := Reparent(ParentMap(t), id, target);
    forall x ensures (x in a <==> x in b) && (x in a ==> a[x] == b[x]) {
      MoveToEntry(t, t', id, target, now, i, x);
    }
  }

  lemma MoveToEntry(t: Folders, t': Folders, id: Uuid, target: Option<Uuid>, now: nat, i: nat, x: Uuid)
    requires UniqueIds(t) && UniqueIds(t')
    requires i < |t| && LiveWithId(id, t[i])
    requires t' == MoveTo(t, id, target, now, false).value
    ensures x in ParentMap(t') <==> x in Reparent(ParentMap(t), id, target)
    ensures x in ParentMap(t') ==> ParentMap(t')[x] == Reparent(ParentMap(t), id, target)[x]
  {
    assert t'[i].parentId == target;
    if x != id {
      if k :| 0 <= k < |t| && t[k].id == x {
        assert t'[k] == t[k];
      } else {
        assert x !in ParentMap(t);
        assert forall k :: 0 <= k < |t'| ==> t'[k].id != x;
      }
    }
  }
}
