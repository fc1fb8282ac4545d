/**
 * `imageService.Upload`: validates the request, spools the body to a
 * temporary file, names the object after the SHA-256 digest of its content,
 * and records a new image row. Content already recorded by a live image is
 * not stored again: the new row points at the existing object.
 *
 * The object store is a map from key to the digest of the object stored
 * there. The digest of the body, the number of bytes copied, the fresh
 * `uuid.New()` value and the clock are inputs; so are failures of the
 * database, the temporary file and the store.
 */
module ImageService {
  import opened Common
  import opened Text
  import opened Errs
  import opened FolderRepo
  import opened ImageRepo

  type Store = map<string, string>

  /** `filepath.Ext`: the suffix from the last `.` of the final path element, or "" when it has none. */
  function Ext(path: string): (e: string)
    ensures e == "" || (e[0] == '.' && HasSuffix(path, e))
    ensures forall k :: 0 < k < |e| ==> e[k] != '.' && e[k] != '/'
    ensures e == "" ==> forall i :: 0 <= i < |path| && path[i] == '.' ==> exists j :: i < j < |path| && path[j] == '/'
  {
    if |path| == 0 then ""
    else
      var c := path[|path| - 1];
      var init := path[..|path| - 1];
      if c == '/' then ""
      else if c == '.' then "."
      else
        var e := Ext(init);
        if e == "" then
          assert forall i :: 0 <= i < |init| && path[i] == '.' ==> exists j :: i < j < |init| && init[j] == '/';
          ""
        else
          assert path == init + [c];
          e + [c]
  }

  /** The object key: the first two hex digits, `/`, the whole digest, and the lower-cased extension. */
  function StorageKey(hash: string, filename: string): (key: string)
    requires |hash| >= 2
  {
    hash[..2] + "/" + hash + ToLower(Ext(filename))
  }

  /** The digest a key was made from: the 64 characters after the `xx/` directory. */
  function KeyHash(key: string): string {
    if |key| >= 67 then key[3..67] else ""
  }

  /** The key names its digest: the digest can be read back, and the directory is its first two digits. */
  lemma KeyHashOfStorageKey(hash: string, filename: string)
    requires |hash| == 64
    ensures KeyHash(StorageKey(hash, filename)) == hash
    ensures HasPrefix(StorageKey(hash, filename), hash[..2] + "/")
  {
    var key := StorageKey(hash, filename);
    assert key[3..67] == hash;
    assert key[..3] == hash[..2] + "/";
  }

  /** Keys of distinct content differ, whatever the file names. */
  lemma StorageKeysSeparateContent(h1: string, h2: string, f1: string, f2: string)
    requires |h1| == 64 && |h2| == 64 && h1 != h2
    ensures StorageKey(h1, f1) != StorageKey(h2, f2)
  {
    KeyHashOfStorageKey(h1, f1);
    KeyHashOfStorageKey(h2, f2);
  }

  /** What the handler passes in. */
  datatype Request = Request(folderId: Option<Uuid>, filename: string, hasBody: bool, contentType: string, size: int)

  /** What the model takes as given: the body's digest and length, fresh values, and which parts fail. */
  datatype Env = Env(hash: string, written: nat, freshId: Uuid, now: nat, dbFails: bool, fileFails: bool, storeFails: bool)

  /** The four request checks, in order; each failure is `CodeInvalidParam`. */
  predicate ValidRequest(req: Request) {
    && GoTrim(req.filename) != ""
    && req.hasBody
    && req.size > 0
    && HasPrefix(ToLower(GoTrim(req.contentType)), "image/")
  }

  /** The row an upload records, pointing at `key`. */
  function NewRow(req: Request, env: Env, key: string): Image {
    Image(env.freshId, req.folderId, key, GoTrim(req.filename), GoTrim(req.contentType), env.written,
          Some(env.hash), env.now, env.now, None)
  }

  /** True when some live image already holds content with this digest. */
  predicate KnownContent(images: Images, hash: string) {
    exists m :: m in images && LiveWithHash(hash, m)
  }

  /** The folder check: a given folder must be a live row. */
  predicate FolderFound(folders: Folders, folder: Option<Uuid>) {
    folder.None? || exists f :: f in folders && LiveWithId(folder.value, f)
  }

  /**
   * After the checks and the temporary file: reuse the object of a live image
   * with the same digest, or store the content under its own key (unless an
   * object is already there), then insert the row.
   */
  function Record(images: Images, store: Store, req: Request, env: Env): (r: Result<(Images, Store, Image), Failure>)
    requires |env.hash| == 64
    requires env.freshId != NilUuid && !ImageIdTaken(images, env.freshId) && env.now > 0
    ensures r.Err? <==> env.dbFails || (!KnownContent(images, env.hash) && env.storeFails)
    ensures r.Err? ==> r.error == DatabaseError || r.error == StorageError
    ensures r.Ok? ==> var (images', store', row) := r.value;
      && images' == images + [row]
      && row.id == env.freshId && row.folderId == req.folderId && LiveImage(row)
      && row.originName == GoTrim(req.filename) && row.mime == GoTrim(req.contentType)
      && row.size == env.written && row.sha256 == Some(env.hash)
    ensures r.Ok? && KnownContent(images, env.hash) ==>
      && r.value.1 == store
      && r.value.2.storageKey == GetBySha256(images, env.hash, false).value.value.storageKey
    ensures r.Ok? && !KnownContent(images, env.hash) ==>
      var key := StorageKey(env.hash, GoTrim(req.filename));
      && r.value.2.storageKey == key
      && r.value.1 == (if key in store then store else store[key := env.hash])
  {
    var existing :- GetBySha256(images, env.hash, env.dbFails);
    if existing.Some? then
      WithStore(ImageRepo.Create(images, NewRow(req, env, existing.value.storageKey), env.freshId, env.now, env.dbFails), store)
    else if env.storeFails then Err(StorageError)
    else
      var key := StorageKey(env.hash, GoTrim(req.filename));
      var store' := if key in store then store else store[key := env.hash];
      WithStore(ImageRepo.Create(images, NewRow(req, env, key), env.freshId, env.now, env.dbFails), store')
  }

  function WithStore(created: Result<(Images, Image), Failure>, store: Store): Result<(Images, Store, Image), Failure> {
    match created
    case Ok((t, row)) => Ok((t, store, row))
    case Err(e) => Err(e)
  }

  /** `Upload`: the request checks, the folder check, the temporary file, then `Record`. */
  function Upload(images: Images, folders: Folders, store: Store, req: Request, env: Env): (r: Result<(Images, Store, Image), Failure>)
    requires |env.hash| == 64
    requires env.freshId != NilUuid && !ImageIdTaken(images, env.freshId) && env.now > 0
    ensures r == Err(InvalidParam) <==> !ValidRequest(req)
    ensures r == Err(NoContent) <==> ValidRequest(req) && !env.dbFails && !FolderFound(folders, req.folderId)
    ensures r == Err(FileError) <==>
      ValidRequest(req) && (req.folderId.None? || (!env.dbFails && FolderFound(folders, req.folderId))) && env.fileFails
    ensures r.Ok? <==>
      && ValidRequest(req) && FolderFound(folders, req.folderId)
      && !env.dbFails && !env.fileFails && (KnownContent(images, env.hash) || !env.storeFails)
    ensures r.Ok? ==> r == Record(images, store, req, env)
  {
    if GoTrim(req.filename) == "" || !req.hasBody || req.size <= 0 || !HasPrefix(ToLower(GoTrim(req.contentType)), "image/") then
      Err(InvalidParam)
    else
      var folderOk :- if req.folderId.None? then Ok(true) else FolderRepo.Exists(folders, req.folderId.value, env.dbFails);
      if !folderOk then Err(NoContent)
      else if env.fileFails then Err(FileError)
      else Record(images, store, req, env)
  }

  /** A successful upload records one row and leaves its object in the store. */
  lemma UploadStores(images: Images, folders: Folders, store: Store, req: Request, env: Env)
    requires |env.hash| == 64
    requires env.freshId != NilUuid && !ImageIdTaken(images, env.freshId) && env.now > 0
    requires Upload(images, folders, store, req, env).Ok?
    ensures var (images', store', row) := Upload(images, folders, store, req, env).value;
      && images' == images + [row] && row.sha256 == Some(env.hash)
      && (KnownContent(images, env.hash) ==> store' == store)
      && (!KnownContent(images, env.hash) ==> store'.Keys == store.Keys + {StorageKey(env.hash, GoTrim(req.filename))})
  {
  }

  // ---------------------------------------------------------------------------
  // Invariants uploads keep
  // ---------------------------------------------------------------------------

  /** Every live image points at an object in the store. */
  predicate Backed(images: Images, store: Store) {
    forall i :: 0 <= i < |images| && LiveImage(images[i]) ==> images[i].storageKey in store
  }

  /** Live images of the same content share one object. */
  predicate SharedKeys(images: Images) {
    forall i, j ::
      (0 <= i < |images| && 0 <= j < |images| && LiveImage(images[i]) && LiveImage(images[j])
       && images[i].sha256.Some? && images[i].sha256 == images[j].sha256)
      ==> images[i].storageKey == images[j].storageKey
  }

  /** Uploads keep every live image backed by a stored object and never remove or replace an object. */
  lemma UploadKeepsBacked(images: Images, folders: Folders, store: Store, req: Request, env: Env)
    requires |env.hash| == 64
    requires env.freshId != NilUuid && !ImageIdTaken(images, env.freshId) && env.now > 0
    requires Backed(images, store)
    requires Upload(images, folders, store, req, env).Ok?
    ensures var (images', store', _) := Upload(images, folders, store, req, env).value;
      Backed(images', store') && (forall k :: k in store ==> k in store' && store'[k] == store[k])
  {
    var (images', store', row) := Upload(images, folders, store, req, env).value;
    forall i | 0 <= i < |images'| && LiveImage(images'[i]) ensures images'[i].storageKey in store' {
      if i < |images| {
        assert images'[i] == images[i];
      }
    }
  }

  /** Uploads keep live copies of the same content on one object. */
  lemma UploadKeepsSharedKeys(images: Images, folders: Folders, store: Store, req: Request, env: Env)
    requires |env.hash| == 64
    requires env.freshId != NilUuid && !ImageIdTaken(images, env.freshId) && env.now > 0
    requires SharedKeys(images)
    requires Upload(images, folders, store, req, env).Ok?
    ensures SharedKeys(Upload(images, folders, store, req, env).value.0)
  {
    var (images', store', row) := Upload(images, folders, store, req, env).value;
    var n := |images|;
    assert images'[n] == row;
    forall i, j | 0 <= i < |images'| && 0 <= j < |images'| && LiveImage(images'[i]) && LiveImage(images'[j])
      && images'[i].sha256.Some? && images'[i].sha256 == images'[j].sha256
      ensures images'[i].storageKey == images'[j].storageKey
    {
      if i == n && j < n {
        assert images[j] in images && LiveWithHash(env.hash, images[j]);
        var first := GetBySha256(images, env.hash, false).value.value;
        var k :| 0 <= k < |images| && images[k] == first;
      } else if j == n && i < n {
        assert images[i] in images && LiveWithHash(env.hash, images[i]);
        var first := GetBySha256(images, env.hash, false).value.value;
        var k :| 0 <= k < |images| && images[k] == first;
      } else if i < n && j < n {
        assert images'[i] == images[i] && images'[j] == images[j];
      }
    }
  }

  /** The content-type check accepts exactly the types that start with `image/` in any mix of case. */
  lemma ContentTypeIgnoresCase(ct: string)
    ensures HasPrefix(ToLower(ct), "image/") <==> |ct| >= 6 && EqualFold(ct[..6], "image/")
  {
    LowerImage();
    if |ct| >= 6 {
      LowerPrefix(ct, 6);
    }
  }

  lemma LowerImage()
    ensures ToLower("image/") == "image/" && |"image/"| == 6
  {
  }

  /** Lower-casing commutes with taking a prefix. */
  lemma LowerPrefix(s: string, n: nat)
    requires n <= |s|
    ensures ToLower(s)[..n] == ToLower(s[..n])
  {
    var a, b := ToLower(s)[..n], ToLower(s[..n]);
    forall i | 0 <= i < n ensures a[i] == b[i] {
      assert s[..n][i] == s[i];
    }
  }

  /** The extension is taken from the last element only, keeps its case, and is lower-cased in the key. */
  lemma ExtExamples()
    ensures Ext("photo.JPG") == ".JPG" && ToLower(Ext("photo.JPG")) == ".jpg"
    ensures Ext("archive.tar.gz") == ".gz"
    ensures Ext("dir.d/x") == ""
  {
    assert "photo.J"[..6] == "photo.";
    assert Ext("photo.J") == ".J";
    assert "photo.JP"[..7] == "photo.J";
    assert Ext("photo.JP") == ".JP";
    assert "photo.JPG"[..8] == "photo.JP";
    assert Ext("photo.JPG") == ".JPG";
    var lower := ToLower(".JPG");
    assert lower[0] == '.' && lower[1] == 'j' && lower[2] == 'p' && lower[3] == 'g';
    assert "archive.tar.g"[..12] == "archive.tar.";
    assert Ext("archive.tar.g") == ".g";
    assert "archive.tar.gz"[..13] == "archive.tar.g";
    assert "dir.d/x"[..6] == "dir.d/";
  }
}
