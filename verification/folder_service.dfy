/**
 * The image-folder service: validation in front of the folder table. Names
 * are trimmed and must not be empty, a parent must be a live folder, and no
 * two live folders under the same parent may share a name. Each check reads
 * the table through the repository; a failing database fails the first
 * query, so `dbFails` shows as a database error after the checks that need
 * no query.
 */
module FolderService {
  import opened Common
  import opened Text
  import opened Errs
  import opened FolderRepo
  import FolderTree

  /** `normalizeName`: `strings.TrimSpace`. Its result is already trimmed. */
  function NormalizeName(name: string): (n: string)
    ensures GoTrim(n) == n
  {
    TrimIdempotent(GoSpaces, name);
    GoTrim(name)
  }

  /** `ensureFolderExists`: the live folder with the ID, else `CodeNoContent`. */
  function EnsureFolderExists(t: Folders, id: Uuid, dbFails: bool): (r: Result<Folder, Failure>)
    ensures dbFails ==> r == Err(DatabaseError)
    ensures !dbFails ==> (r.Ok? <==> exists f :: f in t && LiveWithId(id, f))
    ensures r.Ok? ==> r.value in t && LiveWithId(id, r.value)
    ensures r.Err? && !dbFails ==> r.error == NoContent
  {
    var found :- GetByID(t, id, dbFails);
    if found.None? then Err(NoContent) else Ok(found.value)
  }

  /** `ensureParentExists`: the root needs no check; a folder must be live, else `CodeNoContent`. */
  function EnsureParentExists(t: Folders, parent: Option<Uuid>, dbFails: bool): (r: Result<(), Failure>)
    ensures r.Ok? <==> parent.None? || (!dbFails && exists f :: f in t && LiveWithId(parent.value, f))
    ensures r.Err? ==> r.error == (if dbFails then DatabaseError else NoContent)
  {
    if parent.None? then Ok(())
    else
      var ok :- Exists(t, parent.value, dbFails);
      if ok then Ok(()) else Err(NoContent)
  }

  /** A live folder other than `exclude` under `parent` already has the name. */
  predicate NameTaken(t: Folders, parent: Option<Uuid>, name: string, exclude: Option<Uuid>) {
    exists f :: f in t && ChildOf(parent, f) && f.name == name && (exclude.None? || f.id != exclude.value)
  }

  /** `ensureNoDuplicateName`: a clash is `CodeDuplicate`. */
  function EnsureNoDuplicateName(t: Folders, parent: Option<Uuid>, name: string, exclude: Option<Uuid>, dbFails: bool): (r: Result<(), Failure>)
    ensures r.Ok? <==> !dbFails && !NameTaken(t, parent, name, exclude)
    ensures r.Err? ==> r.error == (if dbFails then DatabaseError else Duplicate)
  {
    var dup :- ExistsBySameNameInParent(t, parent, name, exclude, dbFails);
    if dup then Err(Duplicate) else Ok(())
  }

  /**
   * `Create`: trims the name, checks the parent and the siblings, and
   * inserts a live folder under the fresh ID `uuid.New()` returns.
   */
  function Create(t: Folders, name: string, parent: Option<Uuid>, freshId: Uuid, now: nat, dbFails: bool): (r: Result<(Folders, Folder), Failure>)
    requires freshId != NilUuid && !IdTaken(t, freshId) && now > 0
    ensures r == Err(InvalidParam) <==> GoTrim(name) == ""
    ensures r == Err(NoContent) <==>
      GoTrim(name) != "" && !dbFails && parent.Some? && !(exists f :: f in t && LiveWithId(parent.value, f))
    ensures r == Err(Duplicate) <==>
      && GoTrim(name) != "" && !dbFails
      && (parent.None? || exists f :: f in t && LiveWithId(parent.value, f))
      && NameTaken(t, parent, GoTrim(name), None)
    ensures r.Ok? <==>
      && GoTrim(name) != "" && !dbFails
      && (parent.None? || exists f :: f in t && LiveWithId(parent.value, f))
      && !NameTaken(t, parent, GoTrim(name), None)
    ensures r.Ok? ==> var (t', row) := r.value;
      t' == t + [row] && row == Folder(freshId, parent, GoTrim(name), now, now, None)
  {
    var n := NormalizeName(name);
    if n == "" then Err(InvalidParam)
    else
      var parentOk :- EnsureParentExists(t, parent, dbFails);
      var nameOk :- EnsureNoDuplicateName(t, parent, n, None, dbFails);
      FolderRepo.Create(t, Folder(freshId, parent, n, 0, 0, None), freshId, now, dbFails)
  }

  /** `Get`: the live folder, or `CodeNoContent`. */
  function Get(t: Folders, id: Uuid, dbFails: bool): (r: Result<Folder, Failure>)
    ensures r.Ok? ==> r.value in t && LiveWithId(id, r.value)
    ensures r == Err(NoContent) <==> !dbFails && forall f :: f in t ==> !LiveWithId(id, f)
  {
    EnsureFolderExists(t, id, dbFails)
  }

  /** `List`: a folder given as the parent must be live; then the repository listing. */
  function List(t: Folders, parent: Option<Uuid>, limit: int, offset: int, dbFails: bool): (r: Result<seq<Folder>, Failure>)
    ensures r == Err(NoContent) <==> !dbFails && parent.Some? && !(exists f :: f in t && LiveWithId(parent.value, f))
    ensures r.Ok? ==> r == ListByParent(t, parent, limit, offset, false)
  {
    var parentOk :- EnsureParentExists(t, parent, dbFails);
    ListByParent(t, parent, limit, offset, dbFails)
  }

  /**
   * `Rename`: trims the new name, requires the folder, and checks the name
   * against the folder's siblings (the folder itself excluded).
   */
  function Rename(t: Folders, id: Uuid, newName: string, now: nat, dbFails: bool): (r: Result<Folders, Failure>)
    ensures r == Err(InvalidParam) <==> GoTrim(newName) == ""
    ensures r == Err(NoContent) <==>
      GoTrim(newName) != "" && !dbFails && forall f :: f in t ==> !LiveWithId(id, f)
    ensures r.Ok? ==> exists f :: f in t && LiveWithId(id, f) && !NameTaken(t, f.parentId, GoTrim(newName), Some(id))
    ensures r.Ok? ==> r == FolderRepo.Rename(t, id, GoTrim(newName), now, false)
    ensures r == Err(Duplicate) ==> exists f :: f in t && LiveWithId(id, f) && NameTaken(t, f.parentId, GoTrim(newName), Some(id))
    ensures r == Err(DatabaseError) <==> GoTrim(newName) != "" && dbFails
    ensures && GoTrim(newName) != "" && !dbFails && (exists f :: f in t && LiveWithId(id, f))
            && (forall f :: f in t && LiveWithId(id, f) ==> !NameTaken(t, f.parentId, GoTrim(newName), Some(id)))
            ==> r.Ok?
  {
    var n := NormalizeName(newName);
    if n == "" then Err(InvalidParam)
    else
      var folder :- EnsureFolderExists(t, id, dbFails);
      var nameOk :- EnsureNoDuplicateName(t, folder.parentId, n, Some(id), dbFails);
      FolderRepo.Rename(t, id, n, now, dbFails)
  }

  /**
   * `Move` as written. After the checks it passes `*targetParentID`, a
   * `uuid.UUID`, to a repository parameter of type `*uuid.UUID`, which does
   * not compile; this models the call that line evidently means, one that
   * dereferences the target pointer: a nil target, the move to the root
   * that the checks just allowed, panics. The only guard on the target is
   * that it is not the folder itself.
   */
  function MoveAsWritten(t: Folders, id: Uuid, target: Option<Uuid>, now: nat, dbFails: bool): (r: Result<Folders, Failure>)
    ensures r == Err(NoContent) ==> !dbFails
    ensures r.Ok? ==> target.Some? && target.value != id
    ensures r == Err(NilDereference) <==>
      && target.None? && !dbFails
      && (exists f :: f in t && LiveWithId(id, f))
      && !NameTaken(t, None, EnsureFolderExists(t, id, false).value.name, Some(id))
  {
    var folder :- EnsureFolderExists(t, id, dbFails);
    var parentOk :- EnsureParentExists(t, target, dbFails);
    if target.Some? && target.value == id then Err(InvalidParam)
    else
      var nameOk :- EnsureNoDuplicateName(t, target, folder.name, Some(id), dbFails);
      if target.None? then Err(NilDereference)
      else FolderRepo.Move(t, id, target, now, dbFails)
  }

  /**
   * `Move` as intended: a nil target moves the folder to the root, and a
   * target the folder is at or above (itself or one of its descendants) is
   * refused like the folder itself, since the move would close a cycle.
   * The walk up from the target is bounded by the number of rows.
   */
  function Move(t: Folders, id: Uuid, target: Option<Uuid>, now: nat, dbFails: bool): (r: Result<Folders, Failure>)
    requires UniqueIds(t)
    ensures r.Ok? ==> exists f :: f in t && LiveWithId(id, f) && !NameTaken(t, target, f.name, Some(id))
    ensures r.Ok? ==> target.None? || !FolderTree.FindAbove(FolderTree.ParentMap(t), id, target.value, |t|)
    ensures r.Ok? ==> r == MoveTo(t, id, target, now, false)
  {
    var folder :- EnsureFolderExists(t, id, dbFails);
    var parentOk :- EnsureParentExists(t, target, dbFails);
    if target.Some? && target.value == id then Err(InvalidParam)
    else if target.Some? && FolderTree.FindAbove(FolderTree.ParentMap(t), id, target.value, |t|) then Err(InvalidParam)
    else
      var nameOk :- EnsureNoDuplicateName(t, target, folder.name, Some(id), dbFails);
      MoveTo(t, id, target, now, dbFails)
  }

  /**
   * The converse of `Move`'s checks: a live folder whose name is free at a
   * live target (or the root) that does not lie below it is moved.
   */
  lemma MoveSucceeds(t: Folders, id: Uuid, target: Option<Uuid>, now: nat)
    requires UniqueIds(t)
    requires exists f :: f in t && LiveWithId(id, f) && !NameTaken(t, target, f.name, Some(id))
    requires target.None? || exists g :: g in t && LiveWithId(target.value, g)
    requires target.None? || !FolderTree.FindAbove(FolderTree.ParentMap(t), id, target.value, |t|)
    ensures Move(t, id, target, now, false).Ok?
  {
    var f :| f in t && LiveWithId(id, f) && !NameTaken(t, target, f.name, Some(id));
    var folder := EnsureFolderExists(t, id, false).value;
    var i :| 0 <= i < |t| && t[i] == f;
    var j :| 0 <= j < |t| && t[j] == folder;
    assert i == j;
    assert EnsureParentExists(t, target, false).Ok?;
    assert EnsureNoDuplicateName(t, target, folder.name, Some(id), false).Ok?;
  }

  /** `Delete`: requires the folder, then soft-deletes that row alone; its children keep their parent. */
  function Delete(t: Folders, id: Uuid, now: nat, dbFails: bool): (r: Result<Folders, Failure>)
    ensures r == Err(NoContent) <==> !dbFails && forall f :: f in t ==> !LiveWithId(id, f)
    ensures r.Ok? ==> |r.value| == |t| && forall i :: 0 <= i < |t| && t[i].id != id ==> r.value[i] == t[i]
    ensures r.Ok? ==> forall i :: 0 <= i < |t| ==> r.value[i].parentId == t[i].parentId
    ensures r.Ok? <==> !dbFails && exists f :: f in t && LiveWithId(id, f)
    ensures r.Ok? ==> forall i :: 0 <= i < |t| && LiveWithId(id, t[i]) ==> r.value[i].deletedAt == Some(now)
    ensures r.Ok? ==> forall f :: f in r.value ==> !LiveWithId(id, f)
  {
    var folder :- EnsureFolderExists(t, id, dbFails);
    SoftDelete(t, id, now, dbFails)
  }

  // ---------------------------------------------------------------------------
  // Invariants the service keeps
  // ---------------------------------------------------------------------------

  /** No two live folders under the same parent share a name. */
  predicate SiblingNamesUnique(t: Folders) {
    forall i, j :: 0 <= i < |t| && 0 <= j < |t| && i != j && Live(t[i]) && Live(t[j]) && t[i].parentId == t[j].parentId
      ==> t[i].name != t[j].name
  }

  lemma CreateKeepsSiblingNamesUnique(t: Folders, name: string, parent: Option<Uuid>, freshId: Uuid, now: nat)
    requires freshId != NilUuid && !IdTaken(t, freshId) && now > 0
    requires SiblingNamesUnique(t) && UniqueIds(t)
    requires Create(t, name, parent, freshId, now, false).Ok?
    ensures SiblingNamesUnique(Create(t, name, parent, freshId, now, false).value.0)
    ensures UniqueIds(Create(t, name, parent, freshId, now, false).value.0)
  {
    var (t', row) := Create(t, name, parent, freshId, now, false).value;
    forall i | 0 <= i < |t| && Live(t[i]) && t[i].parentId == row.parentId ensures t[i].name != row.name {
      assert t[i] in t;
    }
  }

  lemma RenameKeepsSiblingNamesUnique(t: Folders, id: Uuid, newName: string, now: nat)
    requires SiblingNamesUnique(t) && UniqueIds(t)
    requires Rename(t, id, newName, now, false).Ok?
    ensures SiblingNamesUnique(Rename(t, id, newName, now, false).value)
    ensures UniqueIds(Rename(t, id, newName, now, false).value)
  {
    var f :| f in t && LiveWithId(id, f) && !NameTaken(t, f.parentId, GoTrim(newName), Some(id));
    var k :| 0 <= k < |t| && t[k] == f;
    RenameOneKeepsUnique(t, Rename(t, id, newName, now, false).value, k, GoTrim(newName));
  }

  /** Renaming row `k` to a name no other live sibling has keeps names and IDs unique. */
  lemma RenameOneKeepsUnique(t: Folders, t': Folders, k: nat, name: string)
    requires SiblingNamesUnique(t) && UniqueIds(t)
    requires k < |t| && Live(t[k]) && !NameTaken(t, t[k].parentId, name, Some(t[k].id))
    requires |t'| == |t| && forall i :: 0 <= i < |t| && t[i].id != t[k].id ==> t'[i] == t[i]
    requires t'[k].id == t[k].id && t'[k].parentId == t[k].parentId && t'[k].deletedAt == t[k].deletedAt
    requires t'[k].name == name
    ensures SiblingNamesUnique(t') && UniqueIds(t')
  {
    forall i, j | 0 <= i < |t'| && 0 <= j < |t'| && i != j && Live(t'[i]) && Live(t'[j]) && t'[i].parentId == t'[j].parentId
      ensures t'[i].name != t'[j].name
    {
      if i == k {
        assert t'[j] == t[j] && t[j] in t;
      } else if j == k {
        assert t'[i] == t[i] && t[i] in t;
      }
    }
  }

  lemma DeleteKeepsSiblingNamesUnique(t: Folders, id: Uuid, now: nat)
    requires SiblingNamesUnique(t) && UniqueIds(t)
    requires Delete(t, id, now, false).Ok?
    ensures SiblingNamesUnique(Delete(t, id, now, false).value)
    ensures UniqueIds(Delete(t, id, now, false).value)
  {
  }

  lemma MoveKeepsSiblingNamesUnique(t: Folders, id: Uuid, target: Option<Uuid>, now: nat)
    requires SiblingNamesUnique(t) && UniqueIds(t)
    requires Move(t, id, target, now, false).Ok?
    ensures SiblingNamesUnique(Move(t, id, target, now, false).value)
    ensures UniqueIds(Move(t, id, target, now, false).value)
  {
    var f :| f in t && LiveWithId(id, f) && !NameTaken(t, target, f.name, Some(id));
    MoveToKeepsSiblingNamesUnique(t, id, target, now, f);
  }

  /** Moving a live folder to a parent where no other live folder has its name keeps names unique. */
  lemma MoveToKeepsSiblingNamesUnique(t: Folders, id: Uuid, target: Option<Uuid>, now: nat, f: Folder)
    requires SiblingNamesUnique(t) && UniqueIds(t)
    requires f in t && LiveWithId(id, f) && !NameTaken(t, target, f.name, Some(id))
    ensures SiblingNamesUnique(MoveTo(t, id, target, now, false).value)
    ensures UniqueIds(MoveTo(t, id, target, now, false).value)
  {
    var t' := MoveTo(t, id, target, now, false).value;
    var k :| 0 <= k < |t| && t[k] == f;
    assert forall i :: 0 <= i < |t| ==> t'[i].id == t[i].id && t'[i].name == t[i].name && t'[i].deletedAt == t[i].deletedAt;
    forall i, j | 0 <= i < |t'| && 0 <= j < |t'| && i != j && Live(t'[i]) && Live(t'[j]) && t'[i].parentId == t'[j].parentId
      ensures t'[i].name != t'[j].name
    {
      if i == k {
        assert t'[j] == t[j] && t[j] in t;
      } else if j == k {
        assert t'[i] == t[i] && t[i] in t;
      } else {
        assert t'[i] == t[i] && t'[j] == t[j];
      }
    }
  }

  /**
   * The corrected `Move` keeps the hierarchy free of cycles: the bounded
   * walk up from the target sees every folder above it, and re-parenting a
   * folder under anything it is not above closes no cycle.
   */
  lemma MoveKeepsAcyclic(t: Folders, id: Uuid, target: Option<Uuid>, now: nat)
    requires UniqueIds(t) && FolderTree.Acyclic(FolderTree.ParentMap(t))
    requires Move(t, id, target, now, false).Ok?
    ensures UniqueIds(Move(t, id, target, now, false).value)
    ensures FolderTree.Acyclic(FolderTree.ParentMap(Move(t, id, target, now, false).value))
  {
    var par := FolderTree.ParentMap(t);
    var f :| f in t && LiveWithId(id, f) && !NameTaken(t, target, f.name, Some(id));
    var i :| 0 <= i < |t| && t[i] == f;
    FolderTree.MoveToReparents(t, id, target, now, i);
    if target.Some? {
      FolderTree.ParentMapSize(t);
      FolderTree.FindAboveDecides(par, id, target.value, |t|);
    }
    FolderTree.ReparentKeepsAcyclic(par, id, target);
  }

  /** Two folders, `b` inside `a`. */
  function TwoLevels(): Folders {
    [Folder(1, None, "a", 1, 1, None), Folder(2, Some(1), "b", 1, 1, None)]
  }

  /** The checks `Move` runs on moving `a` under `b` all pass on `TwoLevels`. */
  lemma TwoLevelsChecks()
    ensures UniqueIds(TwoLevels())
    ensures EnsureFolderExists(TwoLevels(), 1, false) == Ok(TwoLevels()[0])
    ensures EnsureParentExists(TwoLevels(), Some(2), false) == Ok(())
    ensures !NameTaken(TwoLevels(), Some(2), "a", Some(1))
  {
    TwoLevelsFindsA();
    TwoLevelsHasB();
    TwoLevelsNameFree();
  }

  lemma TwoLevelsFindsA()
    ensures UniqueIds(TwoLevels())
    ensures EnsureFolderExists(TwoLevels(), 1, false) == Ok(TwoLevels()[0])
  {
    GetByIDUnique(TwoLevels(), 1, 0);
  }

  lemma TwoLevelsHasB()
    ensures EnsureParentExists(TwoLevels(), Some(2), false) == Ok(())
  {
    var t := TwoLevels();
    assert t[1] in t && LiveWithId(2, t[1]);
  }

  lemma TwoLevelsNameFree()
    ensures !NameTaken(TwoLevels(), Some(2), "a", Some(1))
  {
  }

  /** In `TwoLevels`, `a` is the parent of `b`, so it is above `b`. */
  lemma TwoLevelsAbove()
    ensures UniqueIds(TwoLevels())
    ensures FolderTree.FindAbove(FolderTree.ParentMap(TwoLevels()), 1, 2, 2)
  {
    var t := TwoLevels();
    var par := FolderTree.ParentMap(t);
    assert t[1].id in par;
    assert par[2] == 1;
    assert FolderTree.Up(par, 2, 1) == Some(1);
  }

  /**
   * As written, moving a folder under its own child succeeds and leaves the
   * two folders each other's parent.
   */
  lemma MoveAsWrittenMakesCycle()
    ensures MoveAsWritten(TwoLevels(), 1, Some(2), 5, false).Ok?
    ensures var t' := MoveAsWritten(TwoLevels(), 1, Some(2), 5, false).value;
      UniqueIds(t') && !FolderTree.Acyclic(FolderTree.ParentMap(t'))
  {
    var t := TwoLevels();
    TwoLevelsChecks();
    var t' := FolderRepo.Move(t, 1, Some(2), 5, false).value;
    assert MoveAsWritten(t, 1, Some(2), 5, false) == Ok(t');
    SwappedParents(t');
  }

  /** Two folders that are each other's parent make a cycle. */
  lemma SwappedParents(t': Folders)
    requires |t'| == 2 && t'[0].id == 1 && t'[1].id == 2
    requires t'[0].parentId == Some(2) && t'[1].parentId == Some(1)
    ensures UniqueIds(t') && !FolderTree.Acyclic(FolderTree.ParentMap(t'))
  {
    var par := FolderTree.ParentMap(t');
    assert t'[0].id in par && t'[1].id in par;
    assert par[1] == 2 && par[2] == 1;
    assert FolderTree.Up(par, 1, 2) == Some(1);
  }

  /** The corrected `Move` refuses the same request: `a` is above `b`. */
  lemma MoveRefusesCycle()
    ensures Move(TwoLevels(), 1, Some(2), 5, false) == Err(InvalidParam)
  {
    TwoLevelsChecks();
    TwoLevelsAbove();
  }

  /**
   * As written, moving a folder to the root passes every check and then
   * panics; the corrected `Move` makes it a root folder.
   */
  lemma MoveToRootPanics()
    ensures MoveAsWritten(TwoLevels(), 2, None, 5, false) == Err(NilDereference)
    ensures Move(TwoLevels(), 2, None, 5, false).Ok?
    ensures Move(TwoLevels(), 2, None, 5, false).value[1].parentId == None
  {
    TwoLevelsFindsB();
    TwoLevelsRootFree();
  }

  lemma TwoLevelsFindsB()
    ensures UniqueIds(TwoLevels())
    ensures TwoLevels()[1] in TwoLevels() && LiveWithId(2, TwoLevels()[1]) && TwoLevels()[1].name == "b"
    ensures GetByID(TwoLevels(), 2, false) == Ok(Some(TwoLevels()[1]))
  {
    GetByIDUnique(TwoLevels(), 2, 1);
  }

  lemma TwoLevelsRootFree()
    ensures !NameTaken(TwoLevels(), None, "b", Some(2))
  {
  }
}
