/**
 * The image table `images`, a soft-delete table like the folder table: a
 * soft delete stamps `DeletedAt`, and every query states
 * `deleted_at IS NULL`.
 */
module ImageRepo {
  import opened Common
  import opened Rows
  import opened Sorting
  import opened Errs
  import opened FolderRepo

  /**
   * A row. `sha256` is the hex digest of the content; uploads that share
   * content get their own rows and share a storage key.
   */
  datatype Image = Image(id: Uuid, folderId: Option<Uuid>, storageKey: string, originName: string, mime: string,
                         size: int, sha256: Option<string>, createdAt: nat, updatedAt: nat, deletedAt: Option<nat>)

  type Images = seq<Image>

  predicate UniqueImageIds(t: Images) {
    forall i, j :: 0 <= i < j < |t| ==> t[i].id != t[j].id
  }

  predicate ImageIdTaken(t: Images, id: Uuid) {
    exists i :: 0 <= i < |t| && t[i].id == id
  }

  predicate LiveImage(m: Image) { m.deletedAt.None? }

  predicate LiveImageWithId(id: Uuid, m: Image) { m.id == id && LiveImage(m) }

  /** `deleted_at IS NULL` and `folder_id IS NULL` or `folder_id = ?`. */
  predicate InFolder(folder: Option<Uuid>, m: Image) { LiveImage(m) && m.folderId == folder }

  /** `sha256 = ? AND deleted_at IS NULL`. */
  predicate LiveWithHash(hash: string, m: Image) { LiveImage(m) && m.sha256 == Some(hash) }

  function OriginName(m: Image): string { m.originName }

  /** `ORDER BY origin_name DESC`. */
  function ByNameDesc(): (Image, Image) -> bool { StrKeyOrder(OriginName, true) }

  /** The row with the smallest ID, the one `First` returns (it orders by primary key). */
  function FirstById(s: seq<Image>): (m: Image)
    requires |s| > 0
    ensures m in s
    ensures forall x :: x in s ==> m.id <= x.id
  {
    if |s| == 1 then s[0]
    else
      var rest := FirstById(s[1..]);
      assert forall x :: x in s[1..] ==> x in s;
      assert forall x :: x in s ==> x == s[0] || x in s[1..];
      if s[0].id <= rest.id then s[0] else rest
  }

  /** `GetBySha256`: the live image with that digest (the lowest ID among several), or `None`. */
  function GetBySha256(t: Images, hash: string, dbFails: bool): (r: Result<Option<Image>, Failure>)
    ensures r.Err? <==> dbFails
    ensures r.Ok? && r.value.Some? ==> r.value.value in t && LiveWithHash(hash, r.value.value)
    ensures r.Ok? && r.value.Some? ==> forall m :: m in t && LiveWithHash(hash, m) ==> r.value.value.id <= m.id
    ensures r.Ok? ==> (r.value.None? <==> forall m :: m in t ==> !LiveWithHash(hash, m))
  {
    if dbFails then Err(DatabaseError)
    else
      var hits := Filter((m: Image) => LiveWithHash(hash, m), t);
      assert forall m :: m in hits <==> m in t && LiveWithHash(hash, m) by {
        forall m ensures m in hits <==> m in t && LiveWithHash(hash, m) {
          FilterMembers((m: Image) => LiveWithHash(hash, m), t, m);
        }
      }
      if |hits| == 0 then Ok(None) else Ok(Some(FirstById(hits)))
  }

  /** `GetByID`: the live image with the ID, or `None`. */
  function GetByID(t: Images, id: Uuid, dbFails: bool): (r: Result<Option<Image>, Failure>)
    ensures r.Err? <==> dbFails
    ensures r.Ok? && r.value.Some? ==> r.value.value in t && LiveImageWithId(id, r.value.value)
    ensures r.Ok? ==> (r.value.None? <==> forall m :: m in t ==> !LiveImageWithId(id, m))
  {
    if dbFails then Err(DatabaseError)
    else
      var hits := Filter((m: Image) => LiveImageWithId(id, m), t);
      assert forall m :: m in hits <==> m in t && LiveImageWithId(id, m) by {
        forall m ensures m in hits <==> m in t && LiveImageWithId(id, m) {
          FilterMembers((m: Image) => LiveImageWithId(id, m), t, m);
        }
      }
      if |hits| == 0 then Ok(None) else Ok(Some(hits[0]))
  }

  /** The live images of a folder (`None` for the root), in table order. */
  function FolderImages(t: Images, folder: Option<Uuid>): (r: seq<Image>)
    ensures forall m :: m in r <==> m in t && InFolder(folder, m)
    ensures |r| <= |t|
  {
    var r := Filter((m: Image) => InFolder(folder, m), t);
    assert forall m :: m in r <==> m in t && InFolder(folder, m) by {
      forall m ensures m in r <==> m in t && InFolder(folder, m) {
        FilterMembers((m: Image) => InFolder(folder, m), t, m);
      }
    }
    r
  }

  /** `CountByFolder`: the number of live images in the folder; this query keeps its folder filter. */
  function CountByFolder(t: Images, folder: Option<Uuid>, dbFails: bool): (r: Result<nat, Failure>)
    ensures r.Err? <==> dbFails
    ensures r.Ok? ==> r.value <= |t|
    ensures r.Ok? ==> (r.value == 0 <==> forall m :: m in t ==> !InFolder(folder, m))
  {
    if dbFails then Err(DatabaseError)
    else
      var r := FolderImages(t, folder);
      assert |r| > 0 ==> r[0] in r;
      Ok(|r|)
  }

  /** `ListByFolder`: live images of the folder by original name, descending, then `OFFSET`/`LIMIT` when positive. */
  function ListByFolder(t: Images, folder: Option<Uuid>, limit: int, offset: int, dbFails: bool): (r: Result<seq<Image>, Failure>)
    ensures r.Err? <==> dbFails
    ensures r.Ok? ==> forall i :: 0 <= i < |r.value| ==> r.value[i] in t && InFolder(folder, r.value[i])
    ensures r.Ok? ==> SortedBy(ByNameDesc(), r.value)
    ensures r.Ok? && limit > 0 ==> |r.value| <= limit
    ensures r.Ok? && limit <= 0 && offset <= 0 ==> forall m :: m in t && InFolder(folder, m) ==> m in r.value
    ensures r.Ok? ==> r.value == Window(SortBy(ByNameDesc(), FolderImages(t, folder)), limit, offset)
  {
    if dbFails then Err(DatabaseError)
    else
      var sorted := SortBy(ByNameDesc(), FolderImages(t, folder));
      StrKeyPreorder(OriginName, true);
      SortBySorted(ByNameDesc(), FolderImages(t, folder));
      assert forall m :: m in sorted <==> m in FolderImages(t, folder) by {
        forall m ensures m in sorted <==> m in FolderImages(t, folder) {
          assert m in sorted <==> m in multiset(sorted);
        }
      }
      Ok(Window(sorted, limit, offset))
  }
  /** Consecutive pages of the listing join into the page of their combined size. */
  lemma ListByFolderPages(t: Images, folder: Option<Uuid>, a: nat, b: nat, offset: nat)
    requires a > 0 && b > 0
    ensures ListByFolder(t, folder, a, offset, false).value + ListByFolder(t, folder, b, offset + a, false).value
         == ListByFolder(t, folder, a + b, offset, false).value
  {
    WindowPages(SortBy(ByNameDesc(), FolderImages(t, folder)), a, b, offset);
  }


  /** The count and the unpaged listing of a folder agree. */
  lemma CountMatchesList(t: Images, folder: Option<Uuid>)
    ensures CountByFolder(t, folder, false).value == |ListByFolder(t, folder, 0, 0, false).value|
  {
  }

  /** `Create`: as for folders, a nil ID is replaced, a zero creation time set, the update time always set. */
  function Create(t: Images, image: Image, freshId: Uuid, now: nat, dbFails: bool): (r: Result<(Images, Image), Failure>)
    requires freshId != NilUuid && !ImageIdTaken(t, freshId) && now > 0
    ensures r.Err? <==> dbFails || (image.id != NilUuid && ImageIdTaken(t, image.id))
    ensures r.Ok? ==> var (t', row) := r.value;
      && t' == t + [row]
      && row.id != NilUuid && (image.id != NilUuid ==> row.id == image.id)
      && row == image.(id := row.id, createdAt := row.createdAt, updatedAt := now)
      && row.createdAt != 0 && (image.createdAt != 0 ==> row.createdAt == image.createdAt)
      && (UniqueImageIds(t) ==> UniqueImageIds(t'))
  {
    var id := if image.id == NilUuid then freshId else image.id;
    var row := image.(id := id, createdAt := if image.createdAt == 0 then now else image.createdAt, updatedAt := now);
    if dbFails || ImageIdTaken(t, id) then Err(DatabaseError)
    else
      assert forall i :: 0 <= i < |t| ==> t[i].id != row.id;
      Ok((t + [row], row))
  }

  /** `ExistsBySameNameInFolder`: another live image in the folder has the original name, `exclude` left out. */
  function ExistsBySameNameInFolder(t: Images, folder: Option<Uuid>, name: string, exclude: Option<Uuid>, dbFails: bool): (r: Result<bool, Failure>)
    ensures r.Err? <==> dbFails
    ensures r.Ok? ==> (r.value <==> exists m :: m in t && InFolder(folder, m) && m.originName == name && (exclude.None? || m.id != exclude.value))
  {
    if dbFails then Err(DatabaseError)
    else
      var p := (m: Image) => InFolder(folder, m) && m.originName == name && (exclude.None? || m.id != exclude.value);
      var hits := Filter(p, t);
      assert forall m :: m in hits <==> m in t && p(m) by {
        forall m ensures m in hits <==> m in t && p(m) {
          FilterMembers(p, t, m);
        }
      }
      Ok(|hits| > 0)
  }

  /** `Move`: only a live row moves; a nil folder is a zero struct field and is not written. */
  function Move(t: Images, id: Uuid, newFolder: Option<Uuid>, now: nat, dbFails: bool): (r: Result<Images, Failure>)
    ensures r.Err? <==> dbFails
    ensures r.Ok? ==> |r.value| == |t|
    ensures r.Ok? ==> forall i :: 0 <= i < |t| && !LiveImageWithId(id, t[i]) ==> r.value[i] == t[i]
    ensures r.Ok? ==> forall i :: 0 <= i < |t| && LiveImageWithId(id, t[i]) ==>
      r.value[i] == t[i].(folderId := if newFolder.Some? then newFolder else t[i].folderId, updatedAt := now)
  {
    if dbFails then Err(DatabaseError)
    else
      Ok(Update((m: Image) => LiveImageWithId(id, m),
                (m: Image) => m.(folderId := if newFolder.Some? then newFolder else m.folderId, updatedAt := now), t))
  }

  /** `SoftDelete`: stamps the live row with the ID. */
  function SoftDelete(t: Images, id: Uuid, now: nat, dbFails: bool): (r: Result<Images, Failure>)
    ensures r.Err? <==> dbFails
    ensures r.Ok? ==> |r.value| == |t|
    ensures r.Ok? ==> forall i :: 0 <= i < |t| && !LiveImageWithId(id, t[i]) ==> r.value[i] == t[i]
    ensures r.Ok? ==> forall i :: 0 <= i < |t| && LiveImageWithId(id, t[i]) ==>
      r.value[i] == t[i].(deletedAt := Some(now), updatedAt := now)
  {
    if dbFails then Err(DatabaseError)
    else Ok(Update((m: Image) => LiveImageWithId(id, m), (m: Image) => m.(deletedAt := Some(now), updatedAt := now), t))
  }

  /** A soft-deleted image no longer answers `GetByID` and is no longer found by its digest unless another live copy is. */
  lemma SoftDeleteHidesImage(t: Images, id: Uuid, now: nat, hash: string)
    ensures var t' := SoftDelete(t, id, now, false).value;
      && GetByID(t', id, false) == Ok(None)
      && (GetBySha256(t', hash, false).value.Some? ==> GetBySha256(t', hash, false).value.value.id != id)
  {
    var t' := SoftDelete(t, id, now, false).value;
    forall m | m in t' ensures !LiveImageWithId(id, m) {
      var i :| 0 <= i < |t'| && t'[i] == m;
    }
  }

  /** `Move` never touches a soft-deleted row. */
  lemma MoveSkipsDeleted(t: Images, id: Uuid, f: Option<Uuid>, now: nat, i: nat)
    requires i < |t| && !LiveImage(t[i])
    ensures Move(t, id, f, now, false).value[i] == t[i]
  {
  }
}
