/**
 * The image-folder table `image_folders`. Rows are never removed: a soft
 * delete stamps `DeletedAt`, and every query except `Rename` sees live rows
 * only. The struct has a plain `*time.Time` for `DeletedAt`, so the ORM adds
 * no soft-delete scope of its own; each query states its filter.
 */
module FolderRepo {
  import opened Common
  import opened Rows
  import opened Sorting
  import opened Errs

  /** UUIDs as numbers; `uuid.Nil` is 0. */
  type Uuid = nat
  const NilUuid: Uuid := 0

  /**
   * A row. Times are nanoseconds since Go's zero time, so 0 is the zero
   * `time.Time`; a `None` parent is the root and a `None` deletion time a
   * live row.
   */
  datatype Folder = Folder(id: Uuid, parentId: Option<Uuid>, name: string,
                           createdAt: nat, updatedAt: nat, deletedAt: Option<nat>)

  /** The table in storage order. */
  type Folders = seq<Folder>

  /** The primary key: no two rows share an ID. */
  predicate UniqueIds(t: Folders) {
    forall i, j :: 0 <= i < j < |t| ==> t[i].id != t[j].id
  }

  predicate IdTaken(t: Folders, id: Uuid) {
    exists i :: 0 <= i < |t| && t[i].id == id
  }

  predicate Live(f: Folder) { f.deletedAt.None? }

  /** `id = ? AND deleted_at IS NULL`. */
  predicate LiveWithId(id: Uuid, f: Folder) { f.id == id && Live(f) }

  /** `deleted_at IS NULL` and `parent_id IS NULL` or `parent_id = ?`. */
  predicate ChildOf(parent: Option<Uuid>, f: Folder) { Live(f) && f.parentId == parent }

  function FolderName(f: Folder): string { f.name }

  /** `ORDER BY name ASC`. */
  function ByName(): (Folder, Folder) -> bool { StrKeyOrder(FolderName, false) }

  /**
   * `Create`: a nil ID takes the fresh `uuid.New()` value, a zero creation
   * time takes `now`, and the update time is always `now`. A primary key
   * already in the table, or any other failure of the insert, is a database
   * error.
   */
  function Create(t: Folders, folder: Folder, freshId: Uuid, now: nat, dbFails: bool): (r: Result<(Folders, Folder), Failure>)
    requires freshId != NilUuid && !IdTaken(t, freshId)
    requires now > 0
    ensures r.Err? <==> dbFails || (folder.id != NilUuid && IdTaken(t, folder.id))
    ensures r.Err? ==> r.error == DatabaseError
    ensures r.Ok? ==> var (t', row) := r.value;
      && t' == t + [row]
      && row.id != NilUuid && (folder.id != NilUuid ==> row.id == folder.id)
      && row.parentId == folder.parentId && row.name == folder.name && row.deletedAt == folder.deletedAt
      && row.createdAt != 0 && (folder.createdAt != 0 ==> row.createdAt == folder.createdAt)
      && row.updatedAt == now
      && (UniqueIds(t) ==> UniqueIds(t'))
  {
    var id := if folder.id == NilUuid then freshId else folder.id;
    var row := folder.(id := id, createdAt := if folder.createdAt == 0 then now else folder.createdAt, updatedAt := now);
    if dbFails || IdTaken(t, id) then Err(DatabaseError)
    else
      assert forall i :: 0 <= i < |t| ==> t[i].id != row.id;
      Ok((t + [row], row))
  }

  /** `Exists`: a live row has the ID. */
  function Exists(t: Folders, id: Uuid, dbFails: bool): (r: Result<bool, Failure>)
    ensures r.Err? <==> dbFails
    ensures r.Ok? ==> (r.value <==> exists f :: f in t && LiveWithId(id, f))
  {
    if dbFails then Err(DatabaseError)
    else
      var hits := Filter((f: Folder) => LiveWithId(id, f), t);
      assert forall f :: f in hits <==> f in t && LiveWithId(id, f) by {
        forall f ensures f in hits <==> f in t && LiveWithId(id, f) {
          FilterMembers((f: Folder) => LiveWithId(id, f), t, f);
        }
      }
      Ok(|hits| > 0)
  }

  /**
   * `GetByID`: the live row with the ID, or `None` with no error when there
   * is none (missing and soft-deleted alike).
   */
  function GetByID(t: Folders, id: Uuid, dbFails: bool): (r: Result<Option<Folder>, Failure>)
    ensures r.Err? <==> dbFails
    ensures r.Ok? && r.value.Some? ==> r.value.value in t && LiveWithId(id, r.value.value)
    ensures r.Ok? && r.value.None? ==> forall f :: f in t ==> !LiveWithId(id, f)
  {
    if dbFails then Err(DatabaseError)
    else
      var hits := Filter((f: Folder) => LiveWithId(id, f), t);
      if |hits| == 0 then
        assert forall f :: f in t ==> !LiveWithId(id, f) by {
          forall f | f in t ensures !LiveWithId(id, f) {
            FilterMembers((f: Folder) => LiveWithId(id, f), t, f);
          }
        }
        Ok(None)
      else
        FilterMembers((f: Folder) => LiveWithId(id, f), t, hits[0]);
        Ok(Some(hits[0]))
  }

  /** `Exists` and `GetByID` agree: a folder exists exactly when it can be fetched. */
  lemma ExistsIffFound(t: Folders, id: Uuid)
    ensures Exists(t, id, false).value <==> GetByID(t, id, false).value.Some?
  {
  }

  /** Under the primary key, the row `GetByID` finds is the only row with that ID. */
  lemma GetByIDUnique(t: Folders, id: Uuid, i: nat)
    requires UniqueIds(t)
    requires i < |t| && LiveWithId(id, t[i])
    ensures GetByID(t, id, false) == Ok(Some(t[i]))
  {
    var r := GetByID(t, id, false);
    assert t[i] in t;
    var f := r.value.value;
    var j :| 0 <= j < |t| && t[j] == f;
    assert j == i;
  }

  /** The live children of `parent`, in table order. */
  function Children(t: Folders, parent: Option<Uuid>): (r: seq<Folder>)
    ensures forall f :: f in r <==> f in t && ChildOf(parent, f)
  {
    var r := Filter((f: Folder) => ChildOf(parent, f), t);
    assert forall f :: f in r <==> f in t && ChildOf(parent, f) by {
      forall f ensures f in r <==> f in t && ChildOf(parent, f) {
        FilterMembers((f: Folder) => ChildOf(parent, f), t, f);
      }
    }
    r
  }

  /**
   * `ListByParent`: the live children of `parent` (`None` for the root)
   * ordered by name, then `OFFSET` and `LIMIT`, each only when positive.
   */
  function ListByParent(t: Folders, parent: Option<Uuid>, limit: int, offset: int, dbFails: bool): (r: Result<seq<Folder>, Failure>)
    ensures r.Err? <==> dbFails
    ensures r.Ok? ==> forall i :: 0 <= i < |r.value| ==> r.value[i] in t && ChildOf(parent, r.value[i])
    ensures r.Ok? ==> SortedBy(ByName(), r.value)
    ensures r.Ok? && limit > 0 ==> |r.value| <= limit
    ensures r.Ok? && limit <= 0 && offset <= 0 ==> forall f :: f in t && ChildOf(parent, f) ==> f in r.value
    ensures r.Ok? ==> r.value == Window(SortBy(ByName(), Children(t, parent)), limit, offset)
  {
    if dbFails then Err(DatabaseError)
    else
      var sorted := SortBy(ByName(), Children(t, parent));
      StrKeyPreorder(FolderName, false);
      SortBySorted(ByName(), Children(t, parent));
      assert forall f :: f in sorted <==> f in Children(t, parent) by {
        forall f ensures f in sorted <==> f in Children(t, parent) {
          assert f in sorted <==> f in multiset(sorted);
        }
      }
      var w := Window(sorted, limit, offset);
      Ok(w)
  }

  /** Consecutive pages of the listing join into the page of their combined size. */
  lemma ListByParentPages(t: Folders, parent: Option<Uuid>, a: nat, b: nat, offset: nat)
    requires a > 0 && b > 0
    ensures ListByParent(t, parent, a, offset, false).value + ListByParent(t, parent, b, offset + a, false).value
         == ListByParent(t, parent, a + b, offset, false).value
  {
    WindowPages(SortBy(ByName(), Children(t, parent)), a, b, offset);
  }

  /**
   * `ExistsBySameNameInParent`: another live folder under the same parent
   * has the name, leaving out the row `exclude` names.
   */
  function ExistsBySameNameInParent(t: Folders, parent: Option<Uuid>, name: string, exclude: Option<Uuid>, dbFails: bool): (r: Result<bool, Failure>)
    ensures r.Err? <==> dbFails
    ensures r.Ok? ==> (r.value <==> exists f :: f in t && ChildOf(parent, f) && f.name == name && (exclude.None? || f.id != exclude.value))
  {
    if dbFails then Err(DatabaseError)
    else
      var p := (f: Folder) => ChildOf(parent, f) && f.name == name && (exclude.None? || f.id != exclude.value);
      var hits := Filter(p, t);
      assert forall f :: f in hits <==> f in t && p(f) by {
        forall f ensures f in hits <==> f in t && p(f) {
          FilterMembers(p, t, f);
        }
      }
      Ok(|hits| > 0)
  }

  /**
   * `CountChildren` as written: the statements adding the parent filter
   * build new queries whose results are dropped, so only `deleted_at IS
   * NULL` reaches the count.
   */
  function CountChildrenAsWritten(t: Folders, parent: Option<Uuid>, dbFails: bool): (r: Result<nat, Failure>)
    ensures r.Err? <==> dbFails
    ensures r.Ok? ==> r.value == |Filter(Live, t)|
  {
    if dbFails then Err(DatabaseError) else Ok(|Filter(Live, t)|)
  }

  /** The parent argument has no effect on the count as written. */
  lemma CountChildrenIgnoresParent(t: Folders, p: Option<Uuid>, q: Option<Uuid>)
    ensures CountChildrenAsWritten(t, p, false) == CountChildrenAsWritten(t, q, false)
  {
  }

  /** A live folder at the root is counted as a child of an unrelated parent. */
  lemma CountChildrenAsWrittenCountsStrangers()
    ensures var t := [Folder(1, None, "a", 1, 1, None)];
      CountChildrenAsWritten(t, Some(7), false) == Ok(1) && |Children(t, Some(7))| == 0
  {
    var t := [Folder(1, None, "a", 1, 1, None)];
    assert Filter(Live, t) == [t[0]];
    assert !ChildOf(Some(7), t[0]);
    assert Children(t, Some(7)) == [];
  }

  /** `CountChildren` with the parent filter applied, as the other queries apply it. */
  function CountChildren(t: Folders, parent: Option<Uuid>, dbFails: bool): (r: Result<nat, Failure>)
    ensures r.Err? <==> dbFails
    ensures r.Ok? ==> r.value <= |t|
  {
    if dbFails then Err(DatabaseError) else Ok(|Children(t, parent)|)
  }

  /** The corrected count is the length of the unpaged listing of the same parent. */
  lemma CountChildrenMatchesList(t: Folders, parent: Option<Uuid>)
    ensures CountChildren(t, parent, false).value == |ListByParent(t, parent, 0, 0, false).value|
  {
  }

  /**
   * `Rename`: `WHERE id = ?` without `deleted_at IS NULL`, so a soft-deleted
   * row is renamed too. The update is a struct, so an empty name is a zero
   * field and not written; the update time always is.
   */
  function Rename(t: Folders, id: Uuid, newName: string, now: nat, dbFails: bool): (r: Result<Folders, Failure>)
    ensures r.Err? <==> dbFails
    ensures r.Ok? ==> |r.value| == |t|
    ensures r.Ok? ==> forall i :: 0 <= i < |t| && t[i].id != id ==> r.value[i] == t[i]
    ensures r.Ok? ==> forall i :: 0 <= i < |t| && t[i].id == id ==>
      && r.value[i].id == id && r.value[i].parentId == t[i].parentId
      && r.value[i].createdAt == t[i].createdAt && r.value[i].deletedAt == t[i].deletedAt
      && r.value[i].updatedAt == now
      && r.value[i].name == (if newName == "" then t[i].name else newName)
  {
    if dbFails then Err(DatabaseError)
    else
      Ok(Update((f: Folder) => f.id == id,
                (f: Folder) => f.(name := if newName == "" then f.name else newName, updatedAt := now), t))
  }

  /**
   * `Move` as written: only a live row moves. The update is a struct, so a
   * nil parent is a zero field and is not written: a folder cannot be moved
   * to the root this way.
   */
  function Move(t: Folders, id: Uuid, newParent: Option<Uuid>, now: nat, dbFails: bool): (r: Result<Folders, Failure>)
    ensures r.Err? <==> dbFails
    ensures r.Ok? ==> |r.value| == |t|
    ensures r.Ok? ==> forall i :: 0 <= i < |t| && !LiveWithId(id, t[i]) ==> r.value[i] == t[i]
    ensures r.Ok? ==> forall i :: 0 <= i < |t| && LiveWithId(id, t[i]) ==>
      r.value[i] == t[i].(parentId := if newParent.Some? then newParent else t[i].parentId, updatedAt := now)
  {
    if dbFails then Err(DatabaseError)
    else
      Ok(Update((f: Folder) => LiveWithId(id, f),
                (f: Folder) => f.(parentId := if newParent.Some? then newParent else f.parentId, updatedAt := now), t))
  }

  /** Moving to the root as written changes no parent at all. */
  lemma MoveToRootIgnored(t: Folders, id: Uuid, now: nat)
    ensures var t' := Move(t, id, None, now, false).value;
      forall i :: 0 <= i < |t| ==> t'[i].parentId == t[i].parentId
  {
  }

  /** `Move` writing the parent column whatever it is, `NULL` included. */
  function MoveTo(t: Folders, id: Uuid, newParent: Option<Uuid>, now: nat, dbFails: bool): (r: Result<Folders, Failure>)
    ensures r.Err? <==> dbFails
    ensures r.Ok? ==> |r.value| == |t|
    ensures r.Ok? ==> forall i :: 0 <= i < |t| && !LiveWithId(id, t[i]) ==> r.value[i] == t[i]
    ensures r.Ok? ==> forall i :: 0 <= i < |t| && LiveWithId(id, t[i]) ==>
      r.value[i] == t[i].(parentId := newParent, updatedAt := now)
  {
    if dbFails then Err(DatabaseError)
    else Ok(Update((f: Folder) => LiveWithId(id, f), (f: Folder) => f.(parentId := newParent, updatedAt := now), t))
  }

  /** Both forms agree whenever the target is a folder rather than the root. */
  lemma MoveToAgreesBelowRoot(t: Folders, id: Uuid, p: Uuid, now: nat)
    ensures Move(t, id, Some(p), now, false) == MoveTo(t, id, Some(p), now, false)
  {
    var a := Move(t, id, Some(p), now, false).value;
    var b := MoveTo(t, id, Some(p), now, false).value;
    forall i | 0 <= i < |a| ensures a[i] == b[i] {
    }
    assert a == b;
  }

  /** `SoftDelete`: stamps the deletion and update times of the live row with the ID. */
  function SoftDelete(t: Folders, id: Uuid, now: nat, dbFails: bool): (r: Result<Folders, Failure>)
    ensures r.Err? <==> dbFails
    ensures r.Ok? ==> |r.value| == |t|
    ensures r.Ok? ==> forall i :: 0 <= i < |t| && !LiveWithId(id, t[i]) ==> r.value[i] == t[i]
    ensures r.Ok? ==> forall i :: 0 <= i < |t| && LiveWithId(id, t[i]) ==>
      r.value[i] == t[i].(deletedAt := Some(now), updatedAt := now)
  {
    if dbFails then Err(DatabaseError)
    else Ok(Update((f: Folder) => LiveWithId(id, f), (f: Folder) => f.(deletedAt := Some(now), updatedAt := now), t))
  }

  // ---------------------------------------------------------------------------
  // How the operations show through the queries
  // ---------------------------------------------------------------------------

  /** A created live folder can be fetched and exists. */
  lemma CreateThenGet(t: Folders, folder: Folder, freshId: Uuid, now: nat)
    requires freshId != NilUuid && !IdTaken(t, freshId) && now > 0
    requires UniqueIds(t) && Live(folder)
    requires Create(t, folder, freshId, now, false).Ok?
    ensures var (t', row) := Create(t, folder, freshId, now, false).value;
      GetByID(t', row.id, false) == Ok(Some(row)) && Exists(t', row.id, false) == Ok(true)
  {
    var (t', row) := Create(t, folder, freshId, now, false).value;
    GetByIDUnique(t', row.id, |t|);
  }

  /**
   * After a soft delete the folder is gone from every query: it does not
   * exist, cannot be fetched and is listed under no parent.
   */
  lemma SoftDeleteHides(t: Folders, id: Uuid, now: nat, parent: Option<Uuid>)
    ensures var t' := SoftDelete(t, id, now, false).value;
      && Exists(t', id, false) == Ok(false)
      && GetByID(t', id, false) == Ok(None)
      && (forall f :: f in ListByParent(t', parent, 0, 0, false).value ==> f.id != id)
  {
    var t' := SoftDelete(t, id, now, false).value;
    forall f | f in t' ensures !LiveWithId(id, f) {
      var i :| 0 <= i < |t'| && t'[i] == f;
    }
  }

  /**
   * ... and its name is free again: the same-name check after the delete
   * answers as the check that excluded it did before.
   */
  lemma SoftDeleteFreesName(t: Folders, id: Uuid, now: nat, parent: Option<Uuid>, name: string)
    ensures ExistsBySameNameInParent(SoftDelete(t, id, now, false).value, parent, name, None, false)
         == ExistsBySameNameInParent(t, parent, name, Some(id), false)
  {
    var t' := SoftDelete(t, id, now, false).value;
    SameNameAfterDelete(t, t', id, now, parent, name);
  }

  /** The rows a soft delete of `id` leaves: the live `id` rows stamped deleted, the rest unchanged. */
  ghost predicate DeletedFrom(t: Folders, t': Folders, id: Uuid, now: nat) {
    && |t'| == |t|
    && (forall i :: 0 <= i < |t| && !LiveWithId(id, t[i]) ==> t'[i] == t[i])
    && (forall i :: 0 <= i < |t| && LiveWithId(id, t[i]) ==> t'[i] == t[i].(deletedAt := Some(now), updatedAt := now))
  }

  lemma SameNameAfterDelete(t: Folders, t': Folders, id: Uuid, now: nat, parent: Option<Uuid>, name: string)
    requires DeletedFrom(t, t', id, now)
    ensures (exists f :: f in t' && ChildOf(parent, f) && f.name == name)
        <==> (exists f :: f in t && ChildOf(parent, f) && f.name == name && f.id != id)
  {
    if f :| f in t' && ChildOf(parent, f) && f.name == name {
      var i :| 0 <= i < |t'| && t'[i] == f;
      assert t[i] == f && f.id != id;
    }
    if f :| f in t && ChildOf(parent, f) && f.name == name && f.id != id {
      var i :| 0 <= i < |t| && t[i] == f;
      assert t'[i] == f;
    }
  }

  /** Renaming a live folder shows the new name through `GetByID`; other IDs read as before. */
  lemma RenameThenGet(t: Folders, id: Uuid, newName: string, now: nat, other: Uuid)
    requires UniqueIds(t) && newName != ""
    requires exists f :: f in t && LiveWithId(id, f)
    requires other != id
    ensures var t' := Rename(t, id, newName, now, false).value;
      && GetByID(t', id, false).value.Some?
      && GetByID(t', id, false).value.value.name == newName
      && GetByID(t', other, false) == GetByID(t, other, false)
  {
    var t' := Rename(t, id, newName, now, false).value;
    var f :| f in t && LiveWithId(id, f);
    var i :| 0 <= i < |t| && t[i] == f;
    assert UniqueIds(t');
    GetByIDUnique(t', id, i);
    if j :| 0 <= j < |t| && LiveWithId(other, t[j]) {
      GetByIDUnique(t, other, j);
      GetByIDUnique(t', other, j);
    } else {
      forall g | g in t' ensures !LiveWithId(other, g) {
        var k :| 0 <= k < |t'| && t'[k] == g;
      }
    }
  }

  /** Unlike `Move`, `Rename` reaches a soft-deleted row. */
  lemma RenameReachesDeleted()
    ensures var t := [Folder(1, None, "old", 1, 1, Some(2))];
      && Rename(t, 1, "new", 3, false).value[0].name == "new"
      && Move(t, 1, Some(5), 3, false).value[0] == t[0]
  {
  }
}
