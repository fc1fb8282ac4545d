# A Dafny model of the blog's core

This project models the sequential core of a personal blog: a Go backend (Fiber/Echo handlers over PostgreSQL, Redis and S3) and a Nuxt frontend. The backend is in the middle of a refactor, so several components exist twice, as an earlier copy under `backend/internal/` and a newer one under `backend/`. Each copy is modelled as its own member over shared datatypes.

What is modelled:

- **View counts.** Reading a post bumps a Redis key `blog:post:view_count:<id>`. An hourly job drains those keys page by page, using either `PopBatch` or a pipelined `GETDEL`. It parses each count and post id, sums them per post, and writes one additive `CASE` update per page. The main property is conservation: per page, the delta written equals the sum of the valid counts popped.
- **Links.** The batched status write, the overview arithmetic (abnormal and pending counts by subtraction), the enabled filter and the conflict on create.
- **Hourly jobs.** The tick rule `next = truncate(now, 1h) + 1h` and the wait-or-cancel loop.
- **Image folders and images.** Soft-delete tables, plus the service-layer validation on top: trimmed names, parents that must exist, unique sibling names, the storage key `hex[:2]/hex+ext`, and SHA-256 de-duplication on upload.
- **Small backend decisions.**
  - Error code to HTTP status, using the status codes of section 15 of RFC 9110.
  - Configuration validation, plus the server address and database DSN strings.
  - User roles as JSON strings (RFC 8259).
  - `Authorization: Bearer` parsing, per section 2.1 of RFC 6750, with the scheme matched case-insensitively as in section 11.1 of RFC 9110.
  - The role gate.
  - Captcha and refresh-token rules over an abstract cache.
  - The per-IP sliding-window rate limiter.
  - RSS item construction.
- **Frontend.**
  - The markdown-it token stream to Vue node builder, in both versions.
  - HAST to VNode conversion, including `data*` prop renaming.
  - The `==x==` to `<mark>` splitter.
  - `formatDate`.
  - The loading bar, scroll handler, sidebar and responsive-breakpoint composables.

The cache and database are maps or sequences of rows. A cache scan is a given sequence of pages. The following are parameters of the model rather than computations inside it:

- the clock;
- cancellation;
- random draws;
- hashes, JWTs and bcrypt;
- the markdown-it tokenizer;
- the highlighters;
- database and cache failures.

Shared pieces live in their own modules:

- `Common`: `Option` and `Result`.
- `Text`: Go and JavaScript string functions and the decimal codecs with their round trips.
- `Sorting`: an insertion sort proved to return a sorted permutation.
- `Rows`: table filters, `LIMIT`/`OFFSET` windows and `UPDATE ... WHERE`.
- `Errs`: the backend's error kinds.
- `VNodes`: Vue nodes and their text.

## Model

| member | source | states |
|---|---|---|
| ErrCode.MapToHTTPStatus | backend/pkg/errs/code.go:43-66 | every code maps to one of the listed HTTP statuses, and only `CodeOK` maps to 200 |
| ErrCode.StatusPreimages | backend/pkg/errs/code.go:43-66 | for each status, exactly which codes produce it; every other code, the infrastructure ones included, is a 500 |
| ErrCode.StatusClasses | backend/pkg/errs/code.go:5-41 | only `CodeOK` gets a 2xx; the 5000-5004 codes and the codes the switch leaves out fall to 500 |
| PostRepo.GetAllPosts | backend/internal/repo/post_repo.go:28-41 | a failing query is a database failure; otherwise exactly the published, live posts are listed |
| PostRepo.GetPostByID | backend/internal/repo/post_repo.go:66-83 | a hit has the requested id; a database failure, and only it, yields the database error rather than not-found |
| PostRepo.GetPostByIDMatchesListing | backend/internal/repo/post_repo.go:66-83 | a post is found by id exactly when a published post with that id is in the listing, and the found post is that one |
| PostRepo.UpdateViewCounts | backend/internal/repo/post_repo.go:85-103 | an empty map issues nothing; every id in the map gains its delta, every other row is untouched, and a failed statement changes nothing |
| PostRepo.UpdateViewCountsCommute | backend/internal/repo/post_repo.go:85-103 | two batches applied in either order give the same table, each row having gained both deltas |
| LinkRepo.GetAllLinks | backend/internal/repository/link.go:32-39 | a failing query is `CodeDatabaseError`; otherwise exactly the live links are returned |
| LinkRepo.GetAllEnabledLinks | backend/internal/repository/link.go:41-48 | a failing query is `CodeDatabaseError`; otherwise exactly the enabled links among all live links |
| LinkRepo.CreateLink | backend/internal/repository/link.go:50-59 | a duplicate id or URL is `CodeConflict`, other failures `CodeDatabaseError`; success adds the link under a fresh id and nothing else |
| LinkRepo.CreateKeepsUrlsUnique | backend/internal/repository/link_repo.go:43-56 | a successful create keeps ids consistent and URLs unique |
| LinkRepo.UpdateLinkStatusBatch | backend/internal/repository/link.go:61-86 | an empty map is a no-op; only listed ids take their new status, the rest keep theirs; a failure is `CodeDatabaseError` and changes nothing |
| LinkRepo.UpdateLinkStatusBatchIdempotent | backend/internal/repository/link_repo.go:63-87 | writing the same batch twice is the same as writing it once |
| LinkRepo.GetOverview | backend/internal/repository/link.go:88-114 | a failed aggregate `Scan` is, and is the only way to get, `CodeDatabaseError`; otherwise the total is the number of links and equals normal plus abnormal |
| LinkRepo.OverviewCounts | backend/internal/repository/link_repo.go:89-115 | abnormal (total minus normal) counts exactly the links with a non-normal status, pending (total minus enabled) exactly the disabled ones; neither is negative |
| Scheduler.NextWake | backend/internal/scheduler/jobs/view_count_flush.go:15-17 | the next wake is a whole hour, strictly after now and at most an hour later |
| Scheduler.NextWakeIsFirstBoundary | backend/scheduler/jobs/check_link_status.go:13-15 | no whole hour lies strictly between now and the next wake |
| Scheduler.Schedule | backend/internal/scheduler/jobs/view_count_flush.go:12-28 | each uncancelled turn runs exactly one pass at its next boundary, whatever the pass returns; the first cancelled turn ends the loop |
| Scheduler.PassesIncrease | backend/scheduler/jobs/check_link_status.go:11-26 | with a clock that moves forward, passes fall on whole hours in strictly increasing order |
| Scheduler.NoCatchUp | backend/internal/scheduler/jobs/view_count_flush.go:13-17 | an hour boundary passed while a pass ran gets no pass of its own |
| ViewCount.Key | backend/internal/service/post.go:67 | every view-count key starts with `blog:post:view_count:` |
| ViewCount.ParseKeyIdOfKey | backend/internal/service/post.go:106-113 | the key written for a post is read back by the flush as that post's id |
| ViewCount.ShortKeyIgnored | backend/internal/service/post.go:106-109 | a key with fewer than four `:`-separated parts is skipped |
| ViewCount.ParseKeyId | backend/internal/service/post.go:106-113 | an accepted post id is an unsigned 64-bit value |
| ViewCount.ParseCount | backend/internal/service/post.go:101-104 | an accepted count is a non-zero signed 64-bit value; negatives are kept |
| ViewCount.Contribution | backend/internal/service/post.go:100-115 | an entry contributes exactly when both its count and its key parse, and then contributes that id and count |
| ViewCount.Aggregate | backend/internal/service/post.go:99-116 | the per-page update map; what it promises is stated by ViewCount.AggregatePointwise and ViewCount.AggregateConserves |
| ViewCount.AggregatePointwise | backend/internal/service/post.go:99-116 | each post's delta is the sum of the valid counts naming it, and a post is in the map exactly when some valid entry names it |
| ViewCount.AggregateEmpty | backend/internal/service/post.go:118 | the update map is empty exactly when no entry of the page is valid, so no write is issued |
| ViewCount.SumForAppend | backend/internal/service/post.go:115 | a post's sum over two runs of entries is the sum of the two |
| ViewCount.AggregateConserves | backend/internal/service/post.go:99-116 | the deltas of the update map add up to the sum of all valid counts of the page |
| ViewCount.Incr | backend/internal/service/post.go:67 | Redis `INCR`: a missing key becomes 1, a present one goes up by one, other keys are untouched; a down cache is an error |
| ViewCount.GetPostByID | backend/internal/service/post.go:59-73 | a failed fetch returns before any increment; a successful one returns the repository's post and touches only that post's key; a failed increment is only logged |
| ViewCount.ReadCountsForPost | backend/internal/service/post_service.go:56-69 | a read of a published post adds one to the count the flush will attribute to it |
| ViewFlush.PopKeys | backend/internal/service/post.go:94 | popping removes exactly the listed keys the cache held and returns their values |
| ViewFlush.PopBatch | backend/internal/service/post.go:94-97 | a fault is reported yet whatever was popped before it is returned and processed; without a fault every present key is popped |
| ViewFlush.GetDelAll | backend/internal/service/post_service.go:89-99 | pipelined `GETDEL`: commands after the failure point fail; every key read is removed with its value; without failure every present key is taken |
| ViewFlush.EmptyValueSkipped | backend/internal/service/post_service.go:103-111 | a key that vanished reads as an empty value, which is skipped |
| ViewFlush.ParsedSumsValues | backend/internal/service/post_service.go:101-123 | skipping failed replies and parsing the rest aggregates the same as the values taken |
| ViewFlush.TakePage | backend/internal/service/post_service.go:89-123 | the page's entries are removed from the cache; with `PopBatch` an error is reported exactly when the take faults; a failed pipeline skips the page without counting it, otherwise the counted entries aggregate as the removed ones |
| ViewFlush.WriteAccounts | backend/internal/repo/post_repo.go:85-103 | a page's write adds its aggregate to each live post, keeping the running account of written entries |
| ViewFlush.PageStep | backend/internal/service/post.go:94-122 | one page keeps the account; it records exactly one error for a failed take and one for a failed write of a non-empty batch, so at most one per fault, and with `PopBatch` a take fault always records one |
| ViewFlush.PageIteration | backend/internal/service/post.go:87-126 | one loop iteration on a scanned page keeps the account; errors never shrink and grow by at most one per take fault and one per write failure of a non-empty page; with `PopBatch` a take fault always adds one; the pass ends only at cursor 0 |
| ViewFlush.ErrorsStep | backend/internal/service/post.go:94-122 | one iteration keeps the recorded errors between the `PopBatch` take faults and the take faults plus write failures of the steps so far, and zero exactly on a clean trace |
| ViewFlush.ScanFailedIteration | backend/internal/service/post.go:81-84 | a failed scan ends the pass with the cache error and leaves the state as it was |
| ViewFlush.PageIterationStep | backend/internal/service/post.go:85-126 | a scanned page keeps the trace, the account and the error bound, and moves the cursor to the one the scan returned |
| ViewFlush.Iterate | backend/internal/service/post.go:80-126 | one loop iteration keeps the trace, the account and the error bound |
| ViewFlush.Pass | backend/internal/service/post.go:80-127 | the loop ends on a failed scan, at cursor 0 or at the end of the trace, with the trace followed, the account kept and the error bound held |
| ViewFlush.Flush | backend/internal/service/post.go:76-132 | scans start at cursor 0 and follow the cursors; only a scan error or cursor 0 ends the pass; every removed count is removed once and written ones are added to their posts; a pass reaching cursor 0 returns `nil` exactly when no error was recorded, and otherwise the internal error carrying the number recorded; that number is at most the take faults plus write failures, and with `PopBatch` at least the take faults; `nil` means everything removed was written |
| FolderRepo.Create | backend/repository/image_folder.go:44-58 | a nil id takes the fresh one and a zero creation time takes now; the update time is now; an id clash or other insert failure is a database error; the row is appended and ids stay unique |
| FolderRepo.Exists | backend/repository/image_folder.go:60-68 | true exactly when a live folder with that id exists; a query failure is a database error |
| FolderRepo.GetByID | backend/repository/image_folder.go:92-104 | returns a live folder with that id, or nothing exactly when there is none |
| FolderRepo.ExistsIffFound | backend/repository/image_folder.go:60-104 | `Exists` holds exactly when `GetByID` finds the folder |
| FolderRepo.GetByIDUnique | backend/repository/image_folder.go:92-104 | with unique ids, the live row with that id is the one returned |
| FolderRepo.Children | backend/repository/image_folder.go:107-113 | exactly the live folders under the given parent, the root when the parent is nil |
| FolderRepo.ListByParent | backend/repository/image_folder.go:106-128 | live children of the parent only, ordered by name, and exactly the page of that ordered list that `OFFSET` and `LIMIT` select, each clause applied only when positive; at most `limit` rows, and all of them without limit and offset |
| FolderRepo.ListByParentPages | backend/repository/image_folder.go:115-122 | a page and the page right after it join into the page of their combined size, so paging visits the ordered children in order |
| FolderRepo.ExistsBySameNameInParent | backend/repository/image_folder.go:70-90 | true exactly when a live folder under that parent has that name and is not the excluded one |
| FolderRepo.CountChildrenAsWritten | backend/repository/image_folder.go:29-42 | as written: the parent condition is built on a discarded query, so every live folder is counted |
| FolderRepo.CountChildrenIgnoresParent | backend/repository/image_folder.go:32-36 | as written, the count is the same whatever parent is asked for |
| FolderRepo.CountChildrenAsWrittenCountsStrangers | backend/repository/image_folder.go:29-42 | a folder at the root is counted as a child of an unrelated parent |
| FolderRepo.CountChildren | backend/repository/image_folder.go:29-42 | corrected count: never more than the table's size |
| FolderRepo.CountChildrenMatchesList | backend/repository/image_folder.go:29-42 | the corrected count equals the length of the unpaged listing of the same parent |
| FolderRepo.Rename | backend/repository/image_folder.go:143-154 | only rows with that id change, deleted ones included; they take the new name (an empty name is skipped by struct updates) and now as update time |
| FolderRepo.Move | backend/repository/image_folder.go:130-141 | only the live row with that id changes; a nil parent is skipped by struct updates, so the parent is kept |
| FolderRepo.MoveToRootIgnored | backend/repository/image_folder.go:133-136 | as written, a move to the root leaves every parent as it was |
| FolderRepo.MoveTo | backend/repository/image_folder.go:130-141 | corrected move: the live row takes the new parent, root included |
| FolderRepo.MoveToAgreesBelowRoot | backend/repository/image_folder.go:130-141 | to a non-root parent the corrected and the written move agree |
| FolderRepo.SoftDelete | backend/repository/image_folder.go:156-168 | only the live row with that id gets its deletion time; everything else is unchanged |
| FolderRepo.CreateThenGet | backend/repository/image_folder_test.go:74-95 | a created live folder is found and exists |
| FolderRepo.SoftDeleteHides | backend/repository/image_folder_test.go:278-318 | after soft delete the folder neither exists, is found, nor is listed |
| FolderRepo.SoftDeleteFreesName | backend/repository/image_folder_test.go:179-220 | after soft delete its name is free, the same as excluding it from the check |
| FolderRepo.RenameThenGet | backend/repository/image_folder_test.go:222-242 | a renamed folder is found under its new name and other folders are unchanged |
| FolderRepo.RenameReachesDeleted | backend/repository/image_folder.go:143-159 | rename matches on id alone and renames a deleted row, while move skips it |
| FolderService.NormalizeName | backend/service/image_folder.go:29-31 | a normalized name has no surrounding white space |
| FolderService.EnsureFolderExists | backend/service/image_folder.go:33-42 | the live folder with that id, no-content when there is none, the database error when the lookup fails |
| FolderService.EnsureParentExists | backend/service/image_folder.go:44-56 | the root always passes; a given parent passes exactly when it is a live folder |
| FolderService.EnsureNoDuplicateName | backend/service/image_folder.go:58-67 | passes exactly when no other live sibling has the name; otherwise a duplicate error |
| FolderService.Create | backend/service/image_folder.go:69-91 | each error exactly in its case, checked in order (blank name, missing parent, duplicate); success appends the trimmed folder under a fresh id |
| FolderService.Get | backend/service/image_folder.go:93-95 | the live folder with that id, or no-content exactly when there is none |
| FolderService.List | backend/service/image_folder.go:97-105 | a missing parent is no-content; otherwise the repository listing |
| FolderService.Rename | backend/service/image_folder.go:107-123 | a blank name is invalid, a missing folder no-content, a failing database a database error; a live sibling with the trimmed name is a duplicate; an existing folder whose trimmed name is free among its siblings is renamed, and success is exactly the repository rename |
| FolderService.MoveAsWritten | backend/service/image_folder.go:125-146 | as written, only moving directly under itself is refused. Line 145 passes `*targetParentID`, a `uuid.UUID`, where the repository takes a `*uuid.UUID`, so the file does not compile; it is modelled as the evidently intended dereferencing call, which on a move to the root dereferences nil |
| FolderService.Move | backend/service/image_folder.go:125-146 | corrected: success means the folder exists, the name is free at the target and the target is not at or below the folder; the row takes the new parent, root included |
| FolderService.MoveSucceeds | backend/service/image_folder.go:125-146 | corrected, conversely: every move of an existing folder to the root or to a live target not below it, with the name free there, succeeds |
| FolderService.Delete | backend/service/image_folder.go:148-156 | succeeds exactly when the database works and the folder is live; then its row is stamped deleted so no live row has its id, other rows are unchanged and no parent changes |
| FolderService.CreateKeepsSiblingNamesUnique | backend/service/image_folder.go:78-90 | creating keeps live sibling names and ids unique |
| FolderService.RenameKeepsSiblingNamesUnique | backend/service/image_folder.go:118-122 | renaming keeps live sibling names and ids unique |
| FolderService.DeleteKeepsSiblingNamesUnique | backend/service/image_folder.go:148-156 | deleting keeps live sibling names and ids unique |
| FolderService.MoveKeepsSiblingNamesUnique | backend/service/image_folder.go:141-145 | moving keeps live sibling names and ids unique |
| FolderService.MoveKeepsAcyclic | backend/service/image_folder.go:136-139 | the corrected move never makes a folder its own ancestor |
| FolderService.MoveAsWrittenMakesCycle | backend/service/image_folder.go:136-139 | as written, moving a folder under its own child is accepted and makes a cycle |
| FolderService.MoveRefusesCycle | backend/service/image_folder.go:136-139 | the corrected move refuses the same request as invalid |
| FolderService.MoveToRootPanics | backend/service/image_folder.go:131-145 | with line 145 read as the evidently intended dereferencing call (as written it does not compile), a move to the root reaches a nil dereference; corrected, it puts the folder at the root |
| FolderTree.Reparent | backend/repository/image_folder.go:130-141 | changing one folder's parent leaves every other folder's parent alone |
| FolderTree.UpCompose | backend/repository/image_folder.go:130-141 | walking up m and then n steps is walking up m plus n |
| FolderTree.ReparentKeepsAcyclic | backend/service/image_folder.go:136-139 | re-parenting a folder under something not below it keeps the tree acyclic |
| FolderTree.FindAbove | backend/service/image_folder.go:136-139 | the bounded ancestor walk finds the folder exactly when it is within that many steps above |
| FolderTree.WalkBound | backend/service/image_folder.go:136-139 | in an acyclic tree no ancestor is further up than the number of folders |
| FolderTree.FindAboveDecides | backend/service/image_folder.go:136-139 | with as many steps as folders, the walk decides whether one folder is at or above another |
| FolderTree.ParentMap | backend/repository/image_folder.go:130-141 | the parent map has exactly the folders with a parent, each mapped to it |
| FolderTree.MoveToReparents | backend/repository/image_folder.go:130-141 | the corrected move re-parents exactly the moved folder in the parent map |
| ImageRepo.FirstById | backend/repository/image.go:29-31 | `First` returns the matching row with the smallest primary key |
| ImageRepo.GetBySha256 | backend/repository/image.go:28-39 | the live image with that digest and the smallest id, or nothing exactly when no live image has it |
| ImageRepo.GetByID | backend/repository/image.go:72-84 | a live image with that id, or nothing exactly when there is none |
| ImageRepo.FolderImages | backend/repository/image.go:42-47 | exactly the live images in the folder, the root when the folder is nil |
| ImageRepo.CountByFolder | backend/repository/image.go:41-54 | zero exactly when the folder holds no live image |
| ImageRepo.ListByFolder | backend/repository/image.go:86-109 | live images of the folder only, ordered by original name descending, and exactly the page of that ordered list that `OFFSET` and `LIMIT` select, each clause applied only when positive; at most `limit` rows, and all of them without limit and offset |
| ImageRepo.ListByFolderPages | backend/repository/image.go:95-108 | a page and the page right after it join into the page of their combined size |
| ImageRepo.CountMatchesList | backend/repository/image.go:41-109 | the count equals the length of the unpaged listing |
| ImageRepo.Create | backend/repository/image.go:56-70 | a nil id takes the fresh one and a zero creation time takes now; an id clash or other failure is a database error; the row is appended and ids stay unique |
| ImageRepo.ExistsBySameNameInFolder | backend/repository/image.go:124-150 | true exactly when a live image in the folder has that original name and is not the excluded one |
| ImageRepo.Move | backend/repository/image.go:111-122 | only the live image with that id changes; a nil folder is skipped by struct updates |
| ImageRepo.SoftDelete | backend/repository/image.go:152-164 | only the live image with that id gets its deletion time |
| ImageRepo.SoftDeleteHidesImage | backend/repository/image.go:152-164 | a deleted image is found neither by id nor by digest |
| ImageRepo.MoveSkipsDeleted | backend/repository/image.go:111-122 | a deleted image is never moved |
| ImageService.Ext | backend/service/image.go:99 | `filepath.Ext`: empty, or a dot-led suffix of the name holding no further dot or slash, and empty only when every dot is followed by a slash |
| ImageService.KeyHashOfStorageKey | backend/service/image.go:97-100 | the object key starts with the first two digest digits and a slash, and the digest can be read back from it |
| ImageService.StorageKeysSeparateContent | backend/service/image.go:97-100 | different contents never share an object key |
| ImageService.Record | backend/service/image.go:97-153 | known content reuses the existing image's key and stores nothing; new content is stored under its key unless the object exists; the new row carries the fresh id, trimmed name and type, size and digest |
| ImageService.Upload | backend/service/image.go:45-154 | each error exactly in its case, checked in order (bad request, missing folder, temporary-file failure); success is the recorded upload |
| ImageService.UploadStores | backend/service/image.go:102-153 | an upload adds one row with the content's digest; known content adds no object, new content adds exactly its key |
| ImageService.UploadKeepsBacked | backend/service/image.go:125-153 | uploads keep every live image backed by a stored object and never remove or replace one |
| ImageService.UploadKeepsSharedKeys | backend/service/image.go:102-123 | live images of the same content keep sharing one object |
| ImageService.ContentTypeIgnoresCase | backend/service/image.go:59-61 | a content type passes the check exactly when its first six characters spell `image/` in any mix of case |
| ImageService.ExtExamples | backend/service/image.go:99-100 | the extension is the last dot-suffix, lower-cased, and a dot in a directory name is no extension |
| AuthMiddleware.SplitFirstSpace | backend/internal/middleware/auth_middleware.go:33 | `SplitN(s, " ", 2)`: one part exactly when there is no space, otherwise the text before the first space and the rest |
| AuthMiddleware.SplitFirstSpaceUnique | backend/internal/middleware/auth_middleware.go:33 | any split at a first space is the one returned |
| AuthMiddleware.Handle | backend/internal/middleware/auth_middleware.go:27-58 | a missing header is rejected as such; a request passes exactly when the header is a Bearer scheme (any case), one space and a non-empty token whose claimed user id `uuid.Parse` accepts (canonical, `urn:uuid:`, 32 hex digits, or 38 characters with the canonical form inside and the two ends unchecked), and then carries that id unchanged |
| AuthMiddleware.BearerTokenReachesParser | backend/internal/middleware/auth_middleware.go:37-50 | with a Bearer scheme and a token, the outcome is the parser's error, the user id, or an invalid-id rejection |
| AuthMiddleware.SchemeAloneRejected | backend/internal/middleware/auth_middleware.go:33-36 | a header of the scheme alone is an invalid header |
| AuthMiddleware.EmptyTokenRejected | backend/internal/middleware/auth_middleware.go:37-40 | any spelling of `Bearer` followed by a bare space is an empty token, rejected before the parser is called |
| AuthMiddleware.Store | backend/internal/middleware/auth_middleware.go:52-56 | a passed request stores its user id in the locals; a rejected one leaves them alone |
| AuthMiddleware.GetUserUUID | backend/internal/middleware/auth_middleware.go:60-64 | the stored value and true exactly when it is a string; otherwise empty and false |
| AuthMiddleware.PassedRequestHasUser | backend/internal/middleware/auth_middleware.go:52-64 | after a passed request the user id reads back unchanged: the raw claim, in whichever of the forms `uuid.Parse` accepts it came |
| AuthMiddleware.BracesUnchecked | backend/internal/middleware/auth_middleware.go:48-50 | the 38-character form passes with any single-byte characters in place of the braces, since `uuid.Parse` drops the first byte and never reads the last |
| RoleGate.GateAsWritten | backend/middleware/role.go:25-38 | as written, every request is refused, because the required roles never reach the role check |
| RoleGate.GateAsWrittenDeniesAdmin | backend/middleware/role.go:31-34 | an administrator asking for an administrator route is refused |
| RoleGate.Gate | backend/middleware/role.go:25-38 | corrected: a request proceeds exactly when it carries a user id and that user holds one of the roles |
| RoleGate.GateAsksHasRole | backend/middleware/role.go:31-34 | the corrected gate proceeds exactly when the role check with the route's roles says yes |
| RoleGate.GateAdmitsAdmin | backend/middleware/role.go:25-38 | the corrected gate admits the administrator |
| UserRoles.RoleName | backend/entity/user.go:23-34 | reader and admin get their names; any other value is `unknown` |
| UserRoles.QuoteJson | backend/entity/user.go:33 | a string needing no escapes is encoded as itself between quotes |
| UserRoles.MarshalJSON | backend/internal/entity/user.go:17-28 | the encoding is a plain JSON string |
| UserRoles.UnmarshalRole | backend/entity/user.go:15-20 | only the two defined roles are ever decoded |
| UserRoles.MarshalRoundTrip | backend/entity/user.go:23-34 | the two defined roles decode back to themselves; every other value encodes as `"unknown"` |
| UserRoles.MarshalSeparatesRoles | backend/internal/entity/user.go:17-28 | two values share an encoding only when both are undefined roles |
| UserRoles.GenerateUsername | backend/entity/user.go:52-54 | `user_` followed by six lower-case letters or digits |
| Random.RandomString | backend/utils/random.go:20-31 | as long as asked; each character is the drawn alphabet character, or `a` when the draw failed |
| Random.RandomStringStaysInAlphabet | backend/utils/random.go:20-31 | when the alphabet holds `a`, every character is in the alphabet |
| AuthService.FirstLive | backend/service/auth.go:238-252 | the first live account satisfying the condition, or none exactly when no live account does |
| AuthService.LookupKind | backend/service/auth.go:268-300 | a captcha type has metadata exactly when it names one of the three kinds |
| AuthService.DefaultType | backend/service/auth.go:173-175 | an empty captcha type becomes `Register`; any other type is kept |
| AuthService.CaptchaKeysAvoidRefreshKeys | backend/service/auth.go:185-256 | a captcha entry's key never coincides with a refresh-token key |
| AuthService.SendCaptchaMail | backend/service/auth.go:164-195 | a registered address is refused; an unknown type is refused with nothing cached; otherwise a six-character code is cached for five minutes under `type:address` before it is mailed, and only a mail failure after that is reported with the code cached |
| AuthService.UnsentCaptchaStaysCached | backend/service/auth.go:185-192 | when the mail fails, the code stays in the cache |
| AuthService.EarlierCaptchaInAlphabet | backend/internal/service/auth_service.go:170-175 | the earlier variant's codes are drawn from the captcha alphabet |
| AuthService.CaptchaMatchesAnyCase | backend/service/auth.go:82 | a captcha typed in another case still matches |
| AuthService.Register | backend/service/auth.go:77-131 | a captcha mismatch is rejected first; success needs a match, a hash, a free address, tokens and a cache write, and appends the reader account and caches its refresh token |
| AuthService.RegisterKeepsCaptcha | backend/internal/service/auth_service.go:69-118 | registering leaves the captcha in the cache, so it still matches afterwards |
| AuthService.MissingCaptchaMatchesBlank | backend/service/auth.go:81-82 | with no cached captcha, a blank submitted captcha matches, because a missing key reads as empty |
| AuthService.Login | backend/service/auth.go:133-161 | an unknown address is user-not-found; success means the first live account with that address verified the password, and caches the new refresh token under its id |
| AuthService.RefreshAccessToken | backend/service/auth.go:198-235 | a parse failure is returned as is, an unknown user is user-not-found; success needs the cached token to match ignoring case, and replaces it with the new refresh token |
| AuthService.RefreshRotatesToken | backend/service/auth.go:218-229 | a refresh token, once used, no longer refreshes |
| AuthService.RefreshedTokenRefreshes | backend/service/auth.go:218-229 | the refresh token handed out refreshes in turn |
| AuthService.HasRole | backend/service/auth.go:238-252 | an unknown user is an error; otherwise true exactly when the user's role is among those asked for |
| AuthService.HasRoleOfNoRoles | backend/service/auth.go:248-251 | asked with no roles, the check never says yes |
| Rss.ItemLink | backend/internal/service/rss_service.go:44 | every item link is the domain, `/blog/`, and the post id |
| Rss.LinkIdOfItemLink | backend/internal/service/rss_service.go:44 | the post id reads back from its item link |
| Rss.ItemLinkInjective | backend/internal/service/rss_service.go:44-48 | different posts get different links, so the GUIDs are distinct |
| Rss.NewestFirst | backend/internal/service/rss_service.go:37-39 | the comparison `sort.Slice` is given: later update time first; Rss.Ordered states the resulting order |
| Rss.Ordered | backend/internal/service/rss_service.go:37-39 | the posts are reordered, none lost or added, newest first |
| Rss.ItemOf | backend/internal/service/rss_service.go:43-51 | one item from one post; Rss.Items and Rss.FeedItemsNamePosts state what it carries |
| Rss.Items | backend/internal/service/rss_service.go:41-52 | one item per post, in the same order, built from that post |
| Rss.ItemsOrdered | backend/internal/service/rss_service.go:37-52 | sorting does not change which items the feed holds |
| Rss.GenerateFeed | backend/internal/service/rss_service.go:26-66 | a listing error is passed on, no posts is no-content; otherwise an RSS 2.0 channel named after the site, one item per post, newest first, built at the newest post's time |
| Rss.FeedItemsNamePosts | backend/internal/service/rss_service.go:43-51 | every item's GUID is its link, and the link names a post whose title the item carries |
| RateLimiter.Key | backend/internal/middleware/logger_middleware.go:81 | every key is `rate_limit:` followed by the client IP, which reads back from it, so different clients never share a set |
| RateLimiter.Cleanup | backend/internal/middleware/logger_middleware.go:91-98 | exactly the entries scored from 0 up to a minute ago are removed; the rest keep their scores |
| RateLimiter.Admit | backend/internal/middleware/logger_middleware.go:100-122 | a request is refused exactly when the count succeeded and reached the limit; an admitted one is recorded unless the add failed; each Redis failure is only logged |
| RateLimiter.HandleAsWritten | backend/internal/middleware/logger_middleware.go:78-135 | as written: the member recorded is the current second; other clients' sets are untouched |
| RateLimiter.CleanedHoldsAMinute | backend/internal/middleware/logger_middleware.go:91-101 | after cleanup, a set keyed by whole seconds holds at most sixty entries |
| RateLimiter.AsWrittenNeverRejects | backend/internal/middleware/logger_middleware.go:107-116 | as written, requests are never refused, since one member per second keeps the count below the limit |
| RateLimiter.AsWrittenAdmitsWholeBurst | backend/internal/middleware/logger_middleware.go:113-116 | as written, a burst within one second is admitted in full |
| RateLimiter.AsWrittenAdmitsOneHundredAndOne | backend/internal/middleware/logger_middleware.go:83-116 | as written, 101 requests in one second all pass a limit of 100 |
| RateLimiter.Handle | backend/internal/middleware/logger_middleware.go:78-135 | corrected: each request is recorded under its own member; other clients' sets are untouched |
| RateLimiter.BurstFillsToLimit | backend/internal/middleware/logger_middleware.go:100-116 | corrected, a burst is admitted up to the room the limit leaves and no further |
| RateLimiter.RejectsBeyondLimit | backend/internal/middleware/logger_middleware.go:83-110 | corrected, of 101 requests in one second exactly 100 pass |
| Config.ValidateConfig | backend/config/validator.go:8-35 | no failure exactly when every check passes; otherwise the first check in order that fails |
| Config.DefaultSecretOnlyInProduction | backend/config/validator.go:21-24 | the sample JWT secret passes exactly outside production |
| Config.GetAddr | backend/internal/config/config.go:45-46 | the address is the host and a colon before the port |
| Config.LastColon | backend/internal/config/config.go:45-46 | the position of the last colon, or none exactly when there is no colon |
| Config.SplitAddr | backend/internal/config/config.go:45-46 | reading an address back at its last colon; its round trip with the address is Config.SplitGetAddr |
| Config.SplitGetAddr | backend/internal/config/config.go:45-46 | an address splits back at its last colon into the host and the port |
| Config.WholeSeconds | backend/internal/config/config.go:70 | whole seconds of a duration, truncated toward zero |
| Config.GetDSN | backend/internal/config/config.go:63-71 | the connection string; what it promises is stated by Config.DsnJoinsPairs, Config.DsnSplitsIntoPairs and Config.DsnIgnoresSslMode |
| Config.DsnJoinsPairs | backend/internal/config/config.go:63-71 | the connection string is its seven key=value pairs joined by spaces |
| Config.DsnSplitsIntoPairs | backend/internal/config/config.go:63-71 | with space-free values it splits back into the same seven pairs |
| Config.DsnIgnoresSslMode | backend/internal/config/config.go:63-71 | the configured SSL mode never reaches the connection string |
| Config.WholeSecondsExamples | backend/internal/config/config.go:70 | 2.9 s gives 2 and -1.5 s gives -1 |
| VNodes.TextContentAppend | frontend/app/utils/parseMarkdown.ts:28-34 | the text of two runs of sibling nodes is the first run's text followed by the second's |
| Markdown.FromEntries | frontend/app/utils/parseMarkdown.ts:47 | every attribute name becomes a prop, and every prop's value is one of that name's attribute values |
| Markdown.FromEntriesLastWins | frontend/app/utils/parseMarkdown.ts:47 | of several attributes with one name, the prop holds the value of the last one |
| Markdown.NextKey | frontend/app/utils/parseMarkdown.ts:36-42 | the key is the type, a dash and how many keys of that type came before; only that type's counter goes up, by one |
| Markdown.KeyInjective | frontend/app/utils/parseMarkdown.ts:38-42 | two keys are equal only for the same type and the same count, so keys of one type never repeat |
| Markdown.AfterLastDashOfKey | frontend/app/utils/parseMarkdown.ts:41 | in a key the count is exactly what follows the last dash |
| Markdown.Push | frontend/app/utils/parseMarkdown.ts:28-34 | the nodes are appended, in order, to the children of the innermost open element, or to the result when nothing is open; the other open elements, the result (when something is open) and the counters are unchanged |
| Markdown.Step | frontend/app/utils/parseMarkdown.ts:44-62 | a token fails exactly when it is a `_close` (and not an `_open`) that finds nothing open, or, in the earlier version, a fence whose language highlight.js cannot resolve |
| Markdown.Emit | frontend/app/utils/parseMarkdown.ts:75-88 | a `text` token adds itself and an inline code span a `code` element holding it, each only when non-empty; the current version keys the `code` element `code-<n>` and takes that key, the earlier version keeps no key counters |
| Markdown.EmitCurrent | frontend/app/utils/parseMarkdown.ts:90-137 | a task-list checkbox becomes an `input` carrying its attributes, a rule a keyed `hr`; an image and a fence each take one key of their type (`img`, `pre`); a token type with no case of its own (warned about) adds nothing and takes no key |
| Markdown.CurrentImage | frontend/app/utils/parseMarkdown.ts:104-119 | an image with attributes becomes one `NuxtImg`; one without attributes adds nothing |
| Markdown.NuxtImgProps | frontend/app/utils/parseMarkdown.ts:107-115 | the image carries its key, class `img` and lazy loading, and `src` and `alt` from its last attributes of those names; `src` is `""` when it has none |
| Markdown.ImageProps | app/utils/parseMarkdown.ts:84-89 | only `src` and `alt` are taken from the attributes, each the last of its name; `src` is set exactly when some attribute has that name, unless a default is asked for |
| Markdown.CurrentFence | frontend/app/utils/parseMarkdown.ts:121-129 | a `CodeWrapper` given the trimmed code and its key; the language is the trimmed info string when Shiki has it loaded (or it is `plaintext`), and `plaintext` otherwise |
| Markdown.EmitEarlier | app/utils/parseMarkdown.ts:80-125 | in the earlier version only images, fences and raw HTML add nodes: an image with attributes is an `img` with only `src` and `alt`, `html_block` a `div` and `html_inline` a `span` with the content as `innerHTML`; rules and unknown types add nothing |
| Markdown.EarlierFence | app/utils/parseMarkdown.ts:92-114 | a `mermaid` fence adds nothing; any other a `pre` whose `code` has class `language-<lang>` (the trimmed info, else `plaintext`) and the trimmed highlighted HTML, beside a line-number column with one entry per line of that HTML |
| Markdown.UnknownLanguageThrows | app/utils/parseMarkdown.ts:92-97 | an earlier-version fence in a language highlight.js cannot resolve makes the whole conversion throw |
| Markdown.CurrentHighlightable | frontend/app/utils/parseMarkdown.ts:121-125 | the current version never throws for a fence: an unloaded language falls back to `plaintext` |
| Markdown.Inline | frontend/app/utils/parseMarkdown.ts:64-73 | an `inline` token that converts leaves the key counters and the depth of the enclosing call unchanged |
| Markdown.RunCrashes | frontend/app/utils/parseMarkdown.ts:44-62 | the loop finishes exactly when no `_close` ever meets an empty stack and no earlier-version fence names an unknown language; without such a fence its only crash is the empty pop; the depth it ends at is the nesting walk's |
| Markdown.InlineCrashes | frontend/app/utils/parseMarkdown.ts:64-73 | an `inline` token succeeds exactly when its children never close more than they open and hold no fence the highlighter rejects, and it leaves the depth alone |
| Markdown.ConvertCrashes | frontend/app/utils/parseMarkdown.ts:18-26 | the conversion throws exactly when some `_close` finds nothing open or some earlier-version fence names a language highlight.js does not know |
| Markdown.Convert | frontend/app/utils/parseMarkdown.ts:18-26 | the conversion itself; what it promises is stated by Markdown.ConvertCrashes (when it throws) and Markdown.ConvertText (that it keeps the text) |
| Markdown.Run | frontend/app/utils/parseMarkdown.ts:44-139 | the token loop; what it promises is stated by Markdown.RunCrashes and Markdown.RunText |
| Markdown.StepDepth | frontend/app/utils/parseMarkdown.ts:46-62 | a tagged `_open` pushes one element, an untagged one pushes none, a `_close` pops one, anything else keeps the depth |
| Markdown.StepText | frontend/app/utils/parseMarkdown.ts:44-137 | each non-inline token adds exactly its own text (a `text` or `code_inline` content) to what is placed, in order |
| Markdown.RunText | frontend/app/utils/parseMarkdown.ts:44-139 | on well-nested tokens whose fences the highlighter accepts, the loop succeeds and the placed text grows by the tokens' text in order |
| Markdown.InlineText | frontend/app/utils/parseMarkdown.ts:64-73 | a balanced `inline` token with no rejected fence places its children's text at the current parent and keeps the depth |
| Markdown.ConvertText | frontend/app/utils/parseMarkdown.ts:13-16 | on well-nested tokens whose fences the highlighter accepts (all, in the current version) the result's text is the document's text: nothing is lost or reordered |
| Markdown.UntaggedOpenUnbalances | frontend/app/utils/parseMarkdown.ts:49-58 | for any element holding an element with an empty tag, the inner `_open` pushes nothing while its `_close` still pops, so the outer `_close` throws |
| Markdown.EndKinds | frontend/app/utils/parseMarkdown.ts:46-56 | the `_open` and `_close` token types of any element fall in the open and close cases respectively, never the other |
| Markdown.KeysRestartPerInline | frontend/app/utils/parseMarkdown.ts:64-73 | an `inline` token's children are converted with fresh counters: the same nodes whatever the outer counters, which stay unchanged |
| Markdown.ImageWithoutAttrsTakesKey | frontend/app/utils/parseMarkdown.ts:104-118 | an image without attributes adds nothing but still uses up an `img` key |
| Hast.Dashify | app/utils/astToVNode.ts:102 | putting a dash before each capital never shortens the key |
| Hast.PropName | app/utils/astToVNode.ts:91-104 | a `data` key whose fifth character is unchanged by upper-casing is renamed to a lower-case name still starting with `data`; every other key is kept as it is |
| Hast.CamelOfDashed | app/utils/astToVNode.ts:98-103 | camel-casing the dashed, lower-cased form of a dash-free name gives the name back |
| Hast.PropNameRoundTrip | app/utils/astToVNode.ts:91-104 | a renamed dash-free key is recovered from its prop name by camel-casing what follows `data` |
| Hast.CamelKeyRenamed | app/utils/astToVNode.ts:93-104 | `dataFooBar` becomes `data-foo-bar`: for any two capitalised words after `data`, each capital is lower-cased behind a dash and the rest is kept |
| Hast.OtherKeysRenamed | app/utils/astToVNode.ts:93-97 | the test is "unchanged by upper-casing", not "upper-case": `data1X` is renamed to `data1-x`, while `database` is kept |
| Hast.PropValue | app/utils/astToVNode.ts:106-112 | null and undefined are dropped; booleans and strings pass unchanged; everything kept is a string or a boolean |
| Hast.TransformProperties | app/utils/astToVNode.ts:86-118 | the property loop; what it promises is stated by Hast.TransformPropertiesKeys and Hast.TransformPropertiesLastWins |
| Hast.TransformPropertiesKeys | app/utils/astToVNode.ts:86-118 | a prop name is present exactly when some non-null property is renamed to it |
| Hast.TransformPropertiesLastWins | app/utils/astToVNode.ts:89-117 | each prop holds the converted value of the last non-null property renamed to it |
| Hast.NodeToVNode | app/utils/astToVNode.ts:123-155 | elements and text nodes become nodes; comments and unknown types give nothing |
| Hast.ChildrenToVNodes | app/utils/astToVNode.ts:132-135 | dropping nulls never adds children |
| Hast.RootToVNodes | app/utils/astToVNode.ts:125-128 | a root gives at most one node per child |
| Hast.ChildrenKeepText | app/utils/astToVNode.ts:130-147 | the converted children show exactly the HAST children's text, in order |
| Hast.NodeKeepsText | app/utils/astToVNode.ts:123-155 | a converted node shows its HAST node's text; a dropped node had none to show |
| Hast.RootKeepsNodes | app/utils/astToVNode.ts:125-128 | the result has one node per element or text child, each the conversion of that child, in order |
| Hast.Kept | app/utils/astToVNode.ts:126-128 | the children kept are exactly the elements and text nodes |
| Hast.Spread | app/utils/highlight.ts:13 | the props have exactly the property names of the element |
| Hast.SpreadLastWins | app/utils/highlight.ts:13 | each prop holds the value of the last property of its name: the spread copies the values unchanged, a later one winning |
| Hast.HighlightToVNodes | app/utils/highlight.ts:5-18 | at most one node per HAST node |
| Hast.HighlightKeepsText | app/utils/highlight.ts:5-18 | the highlighted code shows exactly the text of its HAST |
| Hast.HighlightKeepsOrder | app/utils/highlight.ts:8-15 | one node per element or text, in order: a text becomes that string, an element keeps its tag |
| RehypeMark.FirstFence | app/utils/rehypeMark.ts:9 | a `==` found lies at or after the start and inside the text |
| RehypeMark.NextRun | app/utils/rehypeMark.ts:9-15 | a match found opens at or after the search point, holds at least one character, and closes inside the text |
| RehypeMark.Scan | app/utils/rehypeMark.ts:15-43 | the split into plain and marked pieces; what it promises is stated by RehypeMark.ScanRoundTrip and RehypeMark.ScanWellFormed |
| RehypeMark.FirstFenceSpec | app/utils/rehypeMark.ts:9 | the search finds the first `==` at or after the start, or reports that there is none |
| RehypeMark.NextRunSpec | app/utils/rehypeMark.ts:9-15 | the next match is the first `==` followed by at least one character and a later `==`, closed at the nearest such `==`; none when no such opening remains |
| RehypeMark.ScanRoundTrip | app/utils/rehypeMark.ts:15-43 | the plain pieces and the marked pieces (with their `==` fences put back) rebuild the text exactly |
| RehypeMark.ScanWellFormed | app/utils/rehypeMark.ts:15-43 | every plain piece is non-empty and holds no further match; every marked piece is non-empty and the shortest possible (lazy) |
| RehypeMark.UnmarkedScan | app/utils/rehypeMark.ts:38-43 | a text without a match stays one text node, or none when it is empty |
| RehypeMark.RescanPlain | app/utils/rehypeMark.ts:16-21 | the plain text between matches holds no match of its own |
| RehypeMark.NodesOfPieces | app/utils/rehypeMark.ts:17-42 | one node per piece, in order: text for plain, a `mark` element around the text for marked |
| RehypeMark.SplitText | app/utils/rehypeMark.ts:8-43 | the loop builds exactly the nodes of the text's pieces, in order |
| RehypeMark.VisitText | app/utils/rehypeMark.ts:6-46 | without a parent or an index nothing changes; otherwise the text node is replaced in place by its pieces' nodes and its siblings are kept |
| RehypeMark.VisitUnmarked | app/utils/rehypeMark.ts:38-46 | a text with no match is kept as it is, unless it is empty, in which case it is removed |
| RehypeMark.MarkExample | app/utils/rehypeMark.ts:15-43 | `a==b==c` becomes the text `a`, a `mark` holding `b`, and the text `c` |
| FormatDate.Rank | frontend/app/utils/format.ts:6-16 | every token has its place in the order the replacements run |
| FormatDate.Repeat | frontend/app/utils/format.ts:8-13 | the padding is that many copies of the character |
| FormatDate.Key | frontend/app/utils/format.ts:7-13 | each token's key is non-empty and starts with the token's letter |
| FormatDate.PadStart | frontend/app/utils/format.ts:8-13 | `padStart`: the result is the target width, or the string when it is already that long, and it is the string behind leading zeros |
| FormatDate.Format | frontend/app/utils/format.ts:1-4 | an invalid date formats as the empty string |
| FormatDate.ReplaceAll | frontend/app/utils/format.ts:17 | the global replace; what it promises is stated by FormatDate.ReplaceHead, FormatDate.ReplaceSkip and FormatDate.ReplaceAbsent |
| FormatDate.ReplaceHead | frontend/app/utils/format.ts:17 | a global replace turns a leading key into the value and goes on after it |
| FormatDate.ReplaceSkip | frontend/app/utils/format.ts:17 | text holding no key's first letter passes through the replace unchanged |
| FormatDate.ReplaceAbsent | frontend/app/utils/format.ts:17 | a replace whose key's first letter does not occur changes nothing |
| FormatDate.Value | frontend/app/utils/format.ts:6-14 | the text of one field; what it promises is stated by FormatDate.FieldReadsBack and FormatDate.FieldValuesClean |
| FormatDate.FieldValuesClean | frontend/app/utils/format.ts:6-14 | no field's value contains a token letter, so a later pass never rewrites an earlier value |
| FormatDate.Pass | frontend/app/utils/format.ts:16-19 | the reduce over the tokens in order; what it promises is stated by FormatDate.PassStep and FormatDate.FormatRendersTokens |
| FormatDate.PassStep | frontend/app/utils/format.ts:16-19 | each pass of the reduce turns exactly one token's occurrences into its value and leaves the rest |
| FormatDate.FormatRendersTokens | frontend/app/utils/format.ts:1-20 | a format built from tokens and other characters renders each token as its field's value, each other character as itself |
| FormatDate.Literals | frontend/app/utils/format.ts:16-19 | a string read as literal parts has one part per character |
| FormatDate.FormatKeepsLiterals | frontend/app/utils/format.ts:16-19 | a format with no token letters comes back unchanged |
| FormatDate.SpellLiterals | frontend/app/utils/format.ts:16-19 | literal parts spell the string they came from |
| FormatDate.RenderLiterals | frontend/app/utils/format.ts:16-19 | literal parts render as themselves whatever the field values |
| FormatDate.DefaultLayout | frontend/app/utils/format.ts:1-20 | the default format gives year-month-day hours:minutes:seconds with those separators |
| FormatDate.PadRoundTrip | frontend/app/utils/format.ts:8-13 | a number below ten to the width pads to exactly that many digits that read back as the number |
| FormatDate.FieldReadsBack | frontend/app/utils/format.ts:8-13 | month, day, hours, minutes and seconds give two digits and milliseconds three, each reading back as the field |
| LoadingBar.StartBar | frontend/app/composables/useLoadingBar.ts:7-9 | a start raises the count and shows the bar unless the count was negative |
| LoadingBar.DoneBar | frontend/app/composables/useLoadingBar.ts:10-14 | a done lowers a positive count by one and leaves any other count alone, so it never goes below zero |
| LoadingBar.ResetBar | frontend/app/composables/useLoadingBar.ts:15-17 | a reset hides the bar |
| LoadingBar.DoneUndoesStart | frontend/app/composables/useLoadingBar.ts:7-14 | a done right after a start restores the count |
| LoadingBar.StartUndoesDone | frontend/app/composables/useLoadingBar.ts:7-14 | a start right after a done restores the count exactly when something was pending |
| LoadingBar.RunNeverNegative | frontend/app/composables/useLoadingBar.ts:1-17 | the count never goes negative, whatever callers do |
| LoadingBar.RunAtLeastNet | frontend/app/composables/useLoadingBar.ts:10-14 | without resets the count is at least the starting count plus starts minus dones |
| LoadingBar.RunIsNet | frontend/app/composables/useLoadingBar.ts:7-14 | when no prefix has more dones than pending starts, the count is exactly the starting count plus starts minus dones |
| LoadingBar.MatchedPairsHide | frontend/app/composables/useLoadingBar.ts:1-14 | n starts followed by n dones leave the bar hidden |
| LoadingBar.Repeat | frontend/app/composables/useLoadingBar.ts:7-14 | a run of n copies of one call |
| LoadingBar.NetRepeat | frontend/app/composables/useLoadingBar.ts:7-14 | n copies of a call change the balance by n times that call's change |
| LoadingBar.NetAppend | frontend/app/composables/useLoadingBar.ts:7-14 | the balance of two runs is the sum of their balances |
| LoadingBar.RunAppend | frontend/app/composables/useLoadingBar.ts:1-17 | two runs of calls act one after the other on the shared counter |
| LoadingBar.ResetHides | frontend/app/composables/useLoadingBar.ts:15-17 | after a reset the bar is hidden whatever came before |
| LoadingBar.StrayDoneIgnored | frontend/app/composables/useLoadingBar.ts:10-14 | a done with nothing pending is lost, so a later start shows the bar |
| Responsive.UseResponsive | frontend/app/composables/useResponsive.ts:36-44 | the width is passed through; mobile exactly below 768, desktop exactly from 768 |
| Responsive.ExactlyOneLayout | frontend/app/composables/useResponsive.ts:37-38 | every width is exactly one of mobile and desktop |
| Responsive.DesktopIsUpwardClosed | frontend/app/composables/useResponsive.ts:38 | widening the viewport never turns desktop into mobile |
| Responsive.BreakpointEdge | frontend/app/composables/useResponsive.ts:37-38 | 768 is desktop and 767 is mobile |
| Sidebar.Watch | frontend/app/composables/useSidebar.ts:8-17 | a change of layout sets `open` to the new layout; the same layout changes nothing; collapsed is never touched |
| Sidebar.UseSidebar | frontend/app/composables/useSidebar.ts:2-17 | a new sidebar is open exactly on a desktop width, and expanded |
| Sidebar.ToggleOpen | frontend/app/composables/useSidebar.ts:19-21 | only `open` changes, and it flips |
| Sidebar.ToggleCollapsed | frontend/app/composables/useSidebar.ts:23-25 | only `collapsed` changes, and it flips |
| Sidebar.Toggles | frontend/app/composables/useSidebar.ts:19-25 | there are no more toggles of a kind than events |
| Sidebar.RunTracksLayout | frontend/app/composables/useSidebar.ts:8-17 | the watch always remembers the layout of the latest width seen |
| Sidebar.CollapsedCountsToggles | frontend/app/composables/useSidebar.ts:23-25 | collapsed flips once per collapse toggle and nothing else touches it |
| Sidebar.ManualToggleStands | frontend/app/composables/useSidebar.ts:8-21 | while the layout stays the same, `open` flips once per open toggle and resizes do nothing to it |
| Sidebar.RunAppend | frontend/app/composables/useSidebar.ts:8-25 | two runs of events act one after the other |
| Sidebar.LayoutChangeWins | frontend/app/composables/useSidebar.ts:10-14 | a resize across the breakpoint sets `open` to the new layout, overriding any manual toggle |
| Sidebar.PhoneThenDesktop | frontend/app/composables/useSidebar.ts:8-21 | opened on a phone and rotated to a desktop width, the sidebar is open; a desktop sidebar shrunk to a phone closes |
| ScrollHandler.Resolve | frontend/app/composables/useScrollHandler.ts:20-28 | with two arguments the target is the window; with three, the given target |
| ScrollHandler.NewHandler | frontend/app/composables/useScrollHandler.ts:20-29 | a new handler has reported nothing yet and uses the given threshold |
| ScrollHandler.Handle | frontend/app/composables/useScrollHandler.ts:39-48 | with no target nothing happens; otherwise the state becomes whether the offset reaches the threshold, and the callback runs exactly when that state changed, with it |
| ScrollHandler.Register | frontend/app/composables/useScrollHandler.ts:52-59 | registering evaluates at once: the first evaluation always reports, an unchanged state does not |
| ScrollHandler.Run | frontend/app/composables/useScrollHandler.ts:39-48 | at most one call per scroll event, and the threshold never changes |
| ScrollHandler.RunAlternates | frontend/app/composables/useScrollHandler.ts:39-48 | the callback is edge-triggered: no two calls in a row pass the same value, the first differs from what was last reported, and the handler remembers the latest |
| ScrollHandler.SameSideCallsOnce | frontend/app/composables/useScrollHandler.ts:39-48 | while every scroll stays on one side of the threshold the callback runs at most once, never if that side was already reported, and only with that side |
| ScrollHandler.FirstEvaluationReports | frontend/app/composables/useScrollHandler.ts:52-59 | the first evaluation on a present target reports whether it is past the threshold |
| ScrollHandler.ScrollExample | frontend/app/composables/useScrollHandler.ts:39-48 | scrolling 0, 50, 150, (no target), 20 against 100 reports false, true, false |
| Rows.Start | backend/repository/image_folder.go:119-121 | the offset is applied only when positive and never runs past the end |
| Rows.Window | backend/repository/image_folder.go:115-122 | a positive limit caps the rows returned; the rows are the ordered rows from the offset on, in order |
| Rows.WindowAll | backend/repository/image_folder.go:115-122 | with neither limit nor offset every row is returned |
| Rows.WindowPages | backend/repository/image_folder.go:115-122 | two consecutive pages together are the page spanning both |
| Rows.FilterMembers | backend/repository/image_folder.go:106-112 | a row is selected exactly when it is in the table and meets the condition |
| Rows.FilterIdempotent | backend/repository/image_folder.go:106-112 | selecting again by the same condition selects the same rows |
| Sorting.SortBy | backend/internal/service/rss_service.go:37-39 | sorting returns a permutation of the posts |
| Sorting.SortBySorted | backend/internal/service/rss_service.go:37-39 | under a total preorder the sorted posts are in order |
| Sorting.StrLeTotal | backend/repository/image_folder.go:123 | any two names are ordered one way or the other |
| Sorting.StrLeTrans | backend/repository/image_folder.go:123 | name order is transitive |
| Sorting.StrLeAntisymmetric | backend/repository/image_folder.go:123 | two names each ordered before the other are equal |
| Text.ParseUint64 | backend/internal/service/post_service.go:117 | `strconv.ParseUint(s, 10, 64)`: an accepted value fits 64 unsigned bits and carries no sign; its round trip is Text.ParseUint64OfNatToString |
| Text.ParseInt64 | backend/internal/service/post_service.go:108 | `strconv.ParseInt(s, 10, 64)`: an accepted value lies in the int64 range, and a negative one was written with a minus sign; its round trip is Text.ParseInt64OfIntToString |
| Text.ParseUint64OfNatToString | backend/internal/service/post_service.go:117 | every decimal rendering of an in-range unsigned value parses back to it |
| Text.ParseInt64OfIntToString | backend/internal/service/post_service.go:108 | every decimal rendering of an int64 parses back to it |
| Text.Split | backend/internal/service/post_service.go:113 | `strings.Split` on one character: at least one part, none holding the separator |
| Text.JoinSplit | backend/internal/service/post_service.go:113 | joining the parts of a split restores the key |
| Text.SplitJoin | backend/internal/service/post_service.go:113 | a key joined from colon-free parts splits back into exactly those parts |
| Text.GoTrim | backend/service/image_folder.go:30 | `strings.TrimSpace`; what it promises is stated by Text.TrimSpec and Text.TrimIdempotent |
| Text.JsTrim | frontend/app/utils/parseMarkdown.ts:122 | JavaScript `trim`, with its own set of white-space characters; same contract as Text.GoTrim through Text.TrimSpec |
| Text.TrimSpec | backend/service/image_folder.go:30 | trimming removes exactly the leading and trailing white space |
| Text.TrimIdempotent | backend/service/image_folder.go:30 | trimming twice is trimming once |

## Left out

- ViewCount.AggregateConserves: per-post sums are unbounded integers; Go's `int64` wrap-around on overflow is not modelled.
- ViewFlush.PopBatch: the Redis implementation of `PopBatch` is not part of this model. It is modelled from its interface and its call site: keys are popped in order, and a failure pops only a prefix.
- The goroutine that increments a view count after a fetch is a step of the model (`ViewCount.Incr`), not a thread. Its failure is only logged, as in the source.
- Scheduler.Schedule: timers, `select` and goroutine launches become an injected clock and a given sequence of cancel choices.
- The link probing behind `CheckLinkStatus` (fan-out, timeouts, HTTPS rule) is not part of this model. Only the hourly wrapper and the batched status write are modelled.
- Database and cache failures are flags or replies given to the model, mostly one per call. Driver error texts and wrapping messages are left out. Where one flag covers two calls, the state between them is not represented:
- ImageService.Upload: one `dbFails` covers both `GetBySha256` and `Create`, and one `storeFails` covers both `Exists` and `Upload`. An object uploaded before the row insert fails, left behind in the store, is not represented, since a failed upload returns no store.
- AuthService.RefreshAccessToken: one `cacheFails` covers both the `Get` of the stored token and the final `Set`. New tokens issued and then lost to a failing `Set` are not represented.
- ViewFlush.GetDelAll: a failed pipeline reply is treated as a command that did not run. go-redis reports a connection error on every command even when the server already ran the `GETDEL`s, so counts deleted on the server and never written are not represented.
- FolderRepo.ListByParent and ImageRepo.ListByFolder: `ORDER BY name` and `ORDER BY origin_name DESC` sort by the database's collation; the model orders by code point, with ties in the order its insertion sort leaves them.
- Folder, image and user UUIDs are natural numbers. Fresh ids come from the caller, standing in for `uuid.New()`.
- Timestamps (`CreatedAt`, `UpdatedAt`, `DeletedAt`) are integers. A soft delete is a deleted flag.
- Image `Download` and `Delete` in the service only pass through to the object store and are not modelled.
- ImageService.Upload: SHA-256 and the bytes copied are inputs, as are the object store's answers. Hashing and I/O are library work.
- JWT signing and parsing, bcrypt and the random source are parameters. The mail service and its templates are left out, as is the metadata text of captcha mails.
- AuthService.Register: the request's field validation (struct tags) is not modelled. The earlier service names new users with `util.GenerateUsername()`, which is not part of this model (the `util` package here holds no such function). The model gives those names the shape of `entity.GenerateUsername`: "user_" followed by six characters.
- AuthService.HasRole: the role lookup `GetRoleByUUID` is assumed to return the stored role of a live user, a database failure or a missing user. It queries `gorm.G[*entity.UserRole]`, a generic query over an integer type with no table of its own; whether GORM can run that query at all is not modelled.
- RoleGate.Gate: rests on the same assumption about `GetRoleByUUID` as AuthService.HasRole.
- Lower-casing and the case-insensitive comparisons (`strings.EqualFold`, JavaScript `toUpperCase`) map ASCII letters only. Unicode case folding is not modelled.
- Config.WholeSeconds: the float conversion in `Timeout.Seconds()` is modelled as integer truncation toward zero. Rounding of very large durations is not modelled.
- The configuration loaders (viper, files, environment) and the loggers are left out. Validation works on a given configuration record.
- Rss.GenerateFeed: the XML encoding and the date text of the feed are not modelled. The model sorts with an insertion sort, while `sort.Slice` leaves posts with equal timestamps in an unspecified order. So the contract states order and permutation, not one particular arrangement of ties.
- RateLimiter.Handle: the `Expire` call on the key only bounds Redis memory and is not modelled. Cache errors are flags that let the request through. Each request is handled as one atomic step; in the source the cleanup, count and add of concurrent requests interleave without synchronisation, so several requests can read the same count and together exceed the limit, which is not represented.
- The markdown converter: the markdown-it tokenizer, Shiki's set of loaded languages, the set of language names highlight.js resolves (its registered names and aliases, in any case) and highlight.js's rendering are parameters. The model starts from the token stream. The throw of `hljs.highlight` for a language it cannot resolve is modelled; `console.warn` output is left out.
- Hast.TransformProperties: the properties are taken in insertion order. `Object.entries` lists integer-like keys first, in ascending order; with numeric HAST property names the last-wins order can differ, which is not modelled.
- Hast.PropValue: HAST numbers are integers. JavaScript's `String()` of non-integer numbers is not modelled.
- The `elementReplacers` table has no entries of its own, and the model lets no element take the replacer branch.
- Hast.NodeToVNode: tag names that are members of `Object.prototype` are not modelled. `elementReplacers` is a plain object literal, so `elementReplacers[el.tagName]` finds inherited members: for `constructor` the replacer is `Object`, which returns the HAST element itself, and for `hasOwnProperty` or `valueOf` the call throws. The model converts every element as an ordinary element.
- RehypeMark.VisitText: the traversal by `unist-util-visit` is not modelled, only the visitor for one text node. Around a removed empty text node, the traversal's skipping of the next sibling is not modelled.
- FormatDate.Format: parsing the input into a `Date`, the local time zone and the `Date` getters are left out. The fields come in as a record. Each `new RegExp(key, "g")` key contains no regular-expression metacharacters, so it is modelled as a literal replace-all.
- The two copies of `useLoadingBar.ts` are identical and are modelled once, by `LoadingBar`.
- ScrollHandler.Handle: attaching and removing the scroll listener, and the unmount cleanup, are not modelled. Scroll offsets are integers, though browsers report floats. The callback's calls are the model's output trace.
- The sidebar: Vue's `watch` fires only when `isDesktop` changes, while the model calls the callback on every resize. This gives the same state, because the callback's own guard ignores an unchanged value.
- Responsive.UseResponsive: `useClientWidth` (the SSR cookie width and the resize listener) is not part of this model. The width is an input.
- HTTP handlers, routers, DTOs and the other DOM composables are framework plumbing and are left out. So are the theme store, the API token-refresh queue and the stale root-level copies whose signatures no longer match their callers.

## Findings

| source | as written | input that shows it | evidently intended | confidence | as-written member | corrected member |
|---|---|---|---|---|---|---|
| backend/repository/image_folder.go:29-42 | `CountChildren` calls `query.Where(...)` for the parent without assigning the result, so the parent filter is dropped | a table holding one live folder, at the root; counting the children of folder 7 gives 1, though folder 7 has none | count only the live folders under the given parent, as `ListByParent` does | high, not executed | FolderRepo.CountChildrenAsWrittenCountsStrangers | FolderRepo.CountChildrenMatchesList |
| backend/service/image_folder.go:136-139 | `Move` refuses only a target equal to the folder itself | folder 2 under folder 1; moving folder 1 under folder 2 is accepted and makes 1 and 2 each other's ancestor | refuse any target inside the moved folder's own subtree | high, not executed | FolderService.MoveAsWrittenMakesCycle | FolderService.MoveRefusesCycle |
| backend/service/image_folder.go:131-145 | the comment allows moving to the root, but the call passes `*targetParentID`, a `uuid.UUID`, where the repository's `Move` takes a `*uuid.UUID`: as written the file does not compile. With the call the author evidently meant, which dereferences the pointer, a nil target panics | a move with a nil target parent reaches a nil pointer dereference | a nil target moves the folder to the root | high, not executed | FolderService.MoveToRootPanics | FolderService.Move |
| backend/repository/image_folder.go:130-141 | `Move` writes the new parent through a struct `Updates`, which skips nil fields | moving a live folder to the root (nil parent) leaves its parent unchanged | set `parent_id` to NULL | medium, not executed | FolderRepo.MoveToRootIgnored | FolderRepo.MoveToAgreesBelowRoot |
| backend/middleware/role.go:31 | `HasRole` is called without the route's `roles`, and an empty role list contains nothing | an administrator calling a route that requires the administrator role is refused | pass the route's roles, so a user holding one of them proceeds | high, not executed | RoleGate.GateAsWrittenDeniesAdmin | RoleGate.GateAdmitsAdmin |
| backend/internal/middleware/logger_middleware.go:113-116 | the sorted-set member is the whole-second timestamp, so requests in one second collapse into one entry | 101 requests from one IP within one second are all admitted, and the set never holds more than 60 entries | record each request under its own member, so the 101st request in a window is refused | high, not executed | RateLimiter.AsWrittenAdmitsOneHundredAndOne | RateLimiter.RejectsBeyondLimit |
