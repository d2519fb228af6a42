# Explodd server core, modelled in Dafny

Explodd is a multi-user web file browser. Every user sees a virtual namespace (`/alice`,
`/alice/work/...`). A path registry maps virtual prefixes of each user onto real folders.
This project models the part of the server that decides what a request sees:

- **Path registry** (`UserPath`): the `user_paths` table with the `users` it joins
  against, the upsert `setPath`, and the two lookups `getRealPath` (by username, returns a
  spliced path) and `getRealPathById` (by id or name, returns the row). Both try the exact
  row first, then the home row `/{username}`, then the longest registered prefix. The table
  is a class whose fields `setPath` updates; the lookups are functions of its state.
- **Resolvers**:
  - `FileUtils` models `fileUtils.ts`. Its `getPhysicalPath` has six branches: the
    administrator's dashboard, Windows drive paths, the home lookup, the `/stats`
    refusal, cross-user paths `/{other}/rest`, and the caller's own namespace. It also
    chooses which directory `fs.ensureDir` is asked to create. The module also has the
    virtual-path composition of `getFileInfo` and `getFileType`.
  - `PathUtils` models `pathUtils.ts`: the id-keyed `getPhysicalPath` with its root
    fallback, and the reverse `getVirtualPath`.
- **Metadata indexer** (`FileIndexer`): the `file_metadata` table is a class field of type
  map, keyed by physical path. Its methods are:
  - the recursive walk `indexFileOrDirectory`, over a finite tree datatype that stands for
    what `fs.stat` and `fs.readdir` report;
  - `indexAllRootPaths`;
  - the upward size walk `updateParentDirectorySizes`, which uses a SQL `SUM`;
  - `updateFileMetadata` and `deleteFileMetadata`.

  Each method is proved equal to a specification function. The properties are proved
  about those functions.
- **Listing route** (`Listing`): `GET /api/files` of `server/index.ts`. It covers the
  path guard and the special routes, the administrator's synthesised root, and
  `getFileInfo` (where a folder's size comes from and the one-day staleness test). After
  that come the search, type, extension and size filters, pagination, and the sort of the
  page in place. The route is a function of a `Server` value: the registry, the working
  directory, a filesystem map, the metadata table and the clock.
- **Permissions** (`ServerPermissions`, `ClientPermissions`): `hasPermission` of the
  server and `hasPermission`/`hasPermissions` of the client.

Helper modules: `Wrappers` (Option), `Strings` (the JavaScript string operations used),
`NodePath` (posix `path.join`, `dirname`, `basename`, `extname`), and `JsNumber`
(`parseInt`, `Array.prototype.slice`, `Math.ceil` of a quotient).

Modelling conventions:
- The host is posix, so `path.sep` is `/`.
- Timestamps are integers in milliseconds, and `CURRENT_TIMESTAMP` is a `now` parameter.
- SQL NULL is `None`.
- The process working directory and `ROOT_PATH` are parameters.
- The random record `id` and the constant `isFavorite: false` are not part of the records.

## Model

| member | source | states |
|---|---|---|
| UserPath.UserIdByName | server/db/models/UserPath.ts:173-178 | A found id belongs to a user row with that name; no id exactly when no user has the name. |
| UserPath.UsernameById | server/db/models/UserPath.ts:127 | A found name belongs to a user row with that id; none exactly when no user has the id. |
| UserPath.GetByUserId | server/db/models/UserPath.ts:15-17 | Returns exactly the rows of the given user, and no more rows than the table holds. |
| UserPath.GetByUsernameAndVirtualPath | server/db/models/UserPath.ts:29-36 | A returned row is in the table, has the virtual path, and joins to a user of that name; nothing is returned exactly when no row satisfies the join. |
| UserPath.ExactById | server/db/models/UserPath.ts:116-119 | The same as the join, but keyed by user id. |
| UserPath.JoinIsById | server/db/models/UserPath.ts:29-36 | When usernames and ids are unique, the join on a name selects exactly the rows whose user id is that name's id. |
| UserPath.JoinAgreesWithExact | server/db/models/UserPath.ts:29-36 | When the join and the id condition select the same rows, the by-name and by-id lookups return the same row. |
| UserPath.NameIdRoundTrip | server/db/models/UserPath.ts:127-131 | When user keys are unique, looking up the name of the id found for a name gives that name back. |
| UserPath.SortByLengthDesc | server/db/models/UserPath.ts:154 | The result is a permutation of the rows, ordered by decreasing virtual-path length. |
| UserPath.InsertKeepsSorted | server/db/models/UserPath.ts:154 | Each insertion step of that sort keeps the length order. |
| UserPath.FirstPrefix | server/db/models/UserPath.ts:156-161 | The early-return scan returns a row whose virtual path prefixes `v`, or nothing exactly when no row does. On a sorted list, no matching row is longer than the one returned. |
| UserPath.LongestPrefixRow | server/db/models/UserPath.ts:213-225 | Returns one of the user's rows whose virtual path prefixes `v`, and none of that user's matching rows is longer. Returns nothing exactly when none of the user's rows matches. |
| UserPath.LongestPrefixDeterminate | server/db/models/UserPath.ts:213-225 | Under one row per (user, virtual path), any longest matching row is the one returned, so tie order does not matter. |
| UserPath.GetRealPath | server/db/models/UserPath.ts:173-178 | An unknown username gives null. |
| UserPath.GetRealPathHomeStep | server/db/models/UserPath.ts:189-207 | With no exact row, `v` starting with `/{name}`, and a home row present, the result is the home's real path concatenated with the rest of `v`. |
| UserPath.GetRealPathPrefixStep | server/db/models/UserPath.ts:213-228 | When neither the exact nor the home step applies: the result is null exactly when none of the user's rows prefixes `v`; otherwise it is a longest matching row's real path concatenated with the remainder. |
| UserPath.HomeShadowsLongerPrefix | server/db/models/UserPath.ts:189-225 | Concrete case: the home row `/alice` wins over the longer matching prefix `/alice/work`. |
| UserPath.PrefixIsNotSegmentAware | server/db/models/UserPath.ts:192 | Concrete case: the home row of `alice` also resolves `/alice2/x`, because the test is a plain `startsWith`. |
| UserPath.ResolveUserId | server/db/models/UserPath.ts:88-111 | A number is used as the id. A string that `parseInt(s, 10)` accepts is used as the id it parses to. Any other string is looked up as a username. |
| UserPath.GetRealPathById | server/db/models/UserPath.ts:83-165 | A falsy key gives null. A returned row is in the table, belongs to the resolved user id, and has a virtual path that string-prefixes `v`. |
| UserPath.GetRealPathByIdExactStep | server/db/models/UserPath.ts:116-124 | When the resolved user has a row for exactly `v`, that row is returned. |
| UserPath.GetRealPathByIdHomeStep | server/db/models/UserPath.ts:126-146 | Without an exact row, when `v` starts with `/{name}` of the resolved user and that home row exists, the home row is returned, whatever longer prefixes the user has. |
| UserPath.GetRealPathByIdPrefixStep | server/db/models/UserPath.ts:148-161 | When neither the exact nor the home step applies, the result is the user's longest row whose virtual path string-prefixes `v`. |
| UserPath.GetRealPathByIdNone | server/db/models/UserPath.ts:83-165 | Null exactly when the key is falsy, resolves to no user id, or none of the resolved user's rows string-prefixes `v`. |
| UserPath.NumericKeyIsId | server/db/models/UserPath.ts:91-97 | A string that `parseInt(s, 10)` reads as a non-zero number gives the same row as that number passed as the id. |
| UserPath.ByIdAgreesWithByName | server/db/models/UserPath.ts:83-228 | For a username that `parseInt` rejects, with unique user keys: `getRealPath` gives exactly the splice of the row `getRealPathById` returns, null included. |
| UserPath.ByIdKeyAgreesWithByName | server/db/models/UserPath.ts:83-228 | For the non-zero id of an existing user, with unique user keys: `getRealPath` of that user's name gives exactly the splice of the row `getRealPathById` returns for the id, null included. |
| UserPath.ResolvedAgrees | server/db/models/UserPath.ts:83-228 | Whenever a truthy key resolves to the id of the user `name`, with unique user keys, the two lookups agree step by step: exact row, home row, longest prefix, or null. |
| UserPath.IdNameRoundTrip | server/db/models/UserPath.ts:127 | With unique user keys, the id found for the name of id `uid` is `uid` again. |
| UserPath.SetPathUnknownUser | server/db/models/UserPath.ts:43-47 | An unknown username leaves the table unchanged. |
| UserPath.SetPathRows | server/db/models/UserPath.ts:50-69 | The `user_paths` rows after `setPath`. Its properties are stated by `SetPathUnknownUser`, `SetPathUpserts`, `SetPathKeepsPairsUnique` and `SetPathThenGetRealPath`. |
| UserPath.SetPathUpserts | server/db/models/UserPath.ts:50-69 | With a row for the pair, only that row's real path changes and every other row stays the same. Without one, exactly one row for the pair is appended. |
| UserPath.SetPathKeepsPairsUnique | server/db/models/UserPath.ts:50-69 | `setPath` never creates a second row for one (user, virtual path) pair. |
| UserPath.SetPathThenGetRealPath | server/db/models/UserPath.ts:181-186 | After `setPath(u, v, r)` for a known user, `getRealPath(u, v)` is exactly `r`. |
| UserPath.GetRealPathExactStep | server/db/models/UserPath.ts:180-186 | When the join finds an exact row for the user, `getRealPath` returns that row's real path. |
| UserPath.UserPathTable.SetPath | server/db/models/UserPath.ts:41-70 | Returns false exactly for an unknown user. It leaves `users` alone and replaces `paths` by the upserted table. It keeps ids unique and keeps one row per pair. |
| FileUtils.AdminDashboard | server/utils/fileUtils.ts:29 | The dashboard folder lies under the working directory. |
| FileUtils.UserSegment | server/utils/fileUtils.ts:40 | A match gives an entry name and a rest without line terminators, and `v` is `/{name}` or `/{name}/{rest}`. |
| FileUtils.UserSegmentMatches | server/utils/fileUtils.ts:89 | The pattern accepts `/{name}` and `/{name}/{rest}` for an entry name, and rejects a `rest` that holds a line terminator, which `.` does not match. |
| FileUtils.GetPhysicalPath | server/utils/fileUtils.ts:26-32 | The administrator always resolves, and the dashboard folder is the directory ensured. |
| FileUtils.AdminResolution | server/utils/fileUtils.ts:26-56 | For the administrator, `/` and `/all` are the dashboard. `/{u}/rest` of another user with a home is joined onto that home. Anything else is joined onto the dashboard with one leading `/` removed. |
| FileUtils.AdminStaysInDashboard | server/utils/fileUtils.ts:26-56 | Apart from other users' homes, everything the administrator resolves lies under the dashboard. |
| FileUtils.DrivePathPassThrough | server/utils/fileUtils.ts:59-66 | A non-administrator's drive path is returned with every backslash made a separator and every other character kept. Nothing is ensured and the registry is not consulted. |
| FileUtils.NonAdminNeedsHome | server/utils/fileUtils.ts:70-86 | Without a truthy home mapping, every non-drive path of a non-administrator fails, and `/stats` always fails. |
| FileUtils.CrossUserAccess | server/utils/fileUtils.ts:89-125 | `/{other}/rest` resolves to `join(home(other), rest)` whenever `other` has a home, with no role check; otherwise it fails as forbidden. |
| FileUtils.OwnHomeResolution | server/utils/fileUtils.ts:129-134 | `/` and `/{u}` are the caller's home, and `/{u}/rest` is `join(home, rest)`. All of them resolve, under the home. |
| FileUtils.AgreesWithRegistryHomeSplice | server/utils/fileUtils.ts:131-134 | For `/{u}/rest` with no exact row, the resolver's `join(home, rest)` equals the splice `getRealPath` returns. |
| FileUtils.EnsuredDirectory | server/utils/fileUtils.ts:151-159 | The directory ensured is the resolved path itself when `v` ends with `/` or has no extension, and its parent otherwise. |
| FileUtils.ChildVirtualPathShape | server/utils/fileUtils.ts:172-183 | An entry's virtual path is `/` + rel at `/` and `/all`, is the current path for an empty rel, and is otherwise the current path, exactly one `/`, then rel. |
| FileUtils.FileInfoOf | server/utils/fileUtils.ts:168-198 | Kind, name, mtime and path follow the stat and the path. A folder has size 0 and an empty extension. A file has its stat size. Its extension is empty when the name has none, and is otherwise the lower-cased extension with its dot removed. |
| FileUtils.GetFileType | server/utils/fileUtils.ts:203-216 | The category of an extension. Its properties are stated by `GetFileTypeByList`. |
| FileUtils.GetFileTypeByList | server/utils/fileUtils.ts:203-216 | Each category holds exactly when the extension is in that category's list, and `file` holds exactly when it is in none. |
| PathUtils.Normalise | server/utils/pathUtils.ts:22 | Each backslash becomes `/` and every other character is kept. |
| PathUtils.GetPhysicalPath | server/utils/pathUtils.ts:16-19 | A path starting with a drive letter and a colon is returned unchanged, with nothing ensured. |
| PathUtils.NormalisedFirst | server/utils/pathUtils.ts:22-23 | A path and its normalised form resolve the same way. |
| PathUtils.RootResolution | server/utils/pathUtils.ts:26-30 | `/` and the empty path resolve to the root folder. |
| PathUtils.RecordResolution | server/utils/pathUtils.ts:34-55 | With a record, the path is the record's virtual path plus a remainder. The result is the real path when the remainder is empty, and the real path joined with the remainder otherwise. The parent of the result is ensured. |
| PathUtils.DefaultResolution | server/utils/pathUtils.ts:61-66 | Without a record, the result is `join(root, normalised)`, under the root, and its parent is ensured. |
| PathUtils.FirstRealPrefixFrom | server/utils/pathUtils.ts:86-92 | Finds the first row, in table order, whose real path prefixes the input, or reports that none does. |
| PathUtils.GetVirtualPath | server/utils/pathUtils.ts:78-100 | The reverse mapping. Its properties are stated by `VirtualPathFirstMatch`, `FirstMappingNotLongest`, `VirtualPhysicalRoundTrip`, `VirtualOfRecord` and `VirtualOfFirstMapping`. |
| PathUtils.VirtualPathFirstMatch | server/utils/pathUtils.ts:81-100 | The reverse mapping joins the first matching row's virtual path with the remainder. Without a match it strips the root, or returns the normalised input. |
| PathUtils.FirstMappingNotLongest | server/utils/pathUtils.ts:86-92 | Concrete case: an earlier, shorter real path wins over a later, longer one. |
| PathUtils.VirtualOfFirstMapping | server/utils/pathUtils.ts:86-91 | Through a known first matching row, the virtual path is that row's virtual path joined with the remainder. |
| PathUtils.PhysicalOfRecord | server/utils/pathUtils.ts:45-49 | `vp/rest` under a found record resolves to `rp/rest`. |
| PathUtils.VirtualOfRecord | server/utils/pathUtils.ts:86-91 | `rp/rest`, whose first matching row is the record, maps back to `vp/rest`. |
| PathUtils.VirtualPhysicalRoundTrip | server/utils/pathUtils.ts:34-92 | A virtual path under a record maps to a physical path that maps back to it, when that record is also the first reverse match. |
| FileIndexer.MetadataCache.IndexFileOrDirectory | server/services/fileIndexer.ts:13-63 | Returns the subtree's total, and the table becomes the old table overwritten by exactly the walk's rows. |
| FileIndexer.MetadataCache.IndexEntries | server/services/fileIndexer.ts:25-38 | The loop over the entries returns the sum of their totals and writes the rows of their walks, in listing order. |
| FileIndexer.Writes | server/services/fileIndexer.ts:13-60 | The rows the recursive walk writes. Its properties are stated by `IndexedRow`, `ChildRow`, `DirWritesAt`, `DirSizeSumsChildRows`, `IndexFrame` and `ReindexKeepsSizes`. |
| FileIndexer.IndexedRow | server/services/fileIndexer.ts:42-56 | Unless its stat fails, the walked path receives its own row: basename, kind, total, mtime, the indexing time, the parent and the virtual path. |
| FileIndexer.ChildRow | server/services/fileIndexer.ts:28-35 | Each entry's row has the entry's name, its total, parent equal to the directory's virtual path, and virtual path `join(v, name)`. An entry whose stat fails has no row. |
| FileIndexer.SiblingMiss | server/services/fileIndexer.ts:28-33 | One entry's walk never writes at a sibling's path. |
| FileIndexer.DirSizeSumsChildRows | server/services/fileIndexer.ts:26-35 | A directory's row records the sum of the sizes its entries' rows record. |
| FileIndexer.WritesUnderPath | server/services/fileIndexer.ts:13-63 | The walk from `p` writes only at `p` and below it. |
| FileIndexer.IndexFrame | server/services/fileIndexer.ts:42-56 | Rows outside the walked subtree are neither added, removed nor changed. |
| FileIndexer.WritesAtOtherTime | server/services/fileIndexer.ts:13-63 | Walking the same tree at another time writes the same rows, except for the indexing timestamp. |
| FileIndexer.ReindexKeepsSizes | server/services/fileIndexer.ts:13-63 | Re-indexing an unchanged tree keeps the set of rows and every size. Only walked rows change, and only in their timestamp. |
| FileIndexer.MetadataCache.IndexAllRootPaths | server/services/fileIndexer.ts:68-84 | The table becomes the old one overwritten by the walks of every registry row, in table order, from its real path with a NULL parent. |
| FileIndexer.RootRow | server/services/fileIndexer.ts:73-78 | A root that stats, and that no later root's subtree covers, ends with its own row: its virtual path, a NULL parent and its total. |
| FileIndexer.RootsFrame | server/services/fileIndexer.ts:73-78 | A path below none of the roots is not written. |
| FileIndexer.MetadataCache.QueryParentSum | server/services/fileIndexer.ts:134-139 | The row-by-row evaluation equals the SQL `SUM(size)` over the rows with that parent, and the table is unchanged. |
| FileIndexer.SumRemove | server/services/fileIndexer.ts:134 | The sum does not depend on the order in which rows are visited. |
| FileIndexer.SumNullIff | server/services/fileIndexer.ts:134-139 | The sum is NULL exactly when no selected row with that parent has a non-NULL size. |
| FileIndexer.ParentSumNull | server/services/fileIndexer.ts:134-139 | The same over the whole table: a directory without child rows gets NULL, not 0. |
| FileIndexer.MetadataCache.UpdateParentDirectorySizes | server/services/fileIndexer.ts:126-155 | The table becomes the upward walk's result, whose effect on each directory `WalkEach` states. |
| FileIndexer.WalkFrame | server/services/fileIndexer.ts:126-155 | The upward walk adds and removes no row. It changes only size and indexing time, and only on the directories it visits. |
| FileIndexer.WalkFirst | server/services/fileIndexer.ts:133-143 | The first directory, when it has a row, gets the `SUM(size)` of the rows whose parent is the given virtual path. |
| FileIndexer.AncestorWalk | server/services/fileIndexer.ts:126-155 | The table after the upward size walk. Its properties are stated by `WalkFirst`, `WalkEach` and `WalkPropagates`. |
| FileIndexer.WalkEach | server/services/fileIndexer.ts:126-155 | Every directory the walk reaches at its `i`-th step (`dirname` applied `i` times), when it has a row, gets the `SUM(size)` of the rows whose parent is `v` with `dirname` applied `i` times, over the table as the walk finds it there. |
| FileIndexer.WalkPropagates | server/services/fileIndexer.ts:133-147 | The table a step reads already holds the final row of the directory below: each parent's sum is taken after its child's size was updated. |
| FileIndexer.ParentOf | server/services/fileIndexer.ts:112 | The stored parent is NULL exactly when the virtual parent is `/`; otherwise it is the virtual parent. |
| FileIndexer.WalkMissesChild | server/services/fileIndexer.ts:109-115 | The walk started at a file's parent never reaches the file. |
| FileIndexer.MetadataCache.UpdateFileMetadata | server/services/fileIndexer.ts:107-119 | The table becomes the re-index followed by the upward walk from both parents, whose effects `UpdateFileMetadataEffect` and `UpdateFileMetadataAncestors` state. |
| FileIndexer.UpdateFileMetadataEffect | server/services/fileIndexer.ts:107-119 | The target keeps its fresh row. The physical parent, when it has a row, gets the `SUM(size)` of the rows whose parent is the virtual parent. |
| FileIndexer.UpdateFileMetadataAncestors | server/services/fileIndexer.ts:107-119 | After `updateFileMetadata`, every ancestor directory the walk reaches, when it has a row, gets the `SUM(size)` of the rows whose parent is the matching virtual ancestor. |
| FileIndexer.DeleteSubtree | server/services/fileIndexer.ts:164-165 | The delete only removes rows. |
| FileIndexer.DeleteUndoesIndex | server/services/fileIndexer.ts:164-165 | Deleting a path after indexing it gives the same table as deleting it without indexing. |
| FileIndexer.DeleteKeepsSiblings | server/services/fileIndexer.ts:164-165 | A sibling such as `/d/a2`, and everything below it, survives the delete of `/d/a` unchanged. |
| FileIndexer.MetadataCache.DeleteFileMetadata | server/services/fileIndexer.ts:161-173 | As written: removes the subtree, then walks up with the physical parent as the virtual key too. |
| FileIndexer.MetadataCache.DeleteFileMetadataFixed | server/services/fileIndexer.ts:161-173 | Removes the subtree, then walks up keyed by the virtual parent. |
| FileIndexer.FixedDeleteParentSize | server/services/fileIndexer.ts:168-169 | With the virtual key, the parent directory gets the sum of the children that remain. |
| FileIndexer.DeleteLosesParentSize | server/services/fileIndexer.ts:169 | Concrete case: as written, the parent's size becomes NULL; with the virtual key it is 5. |
| Listing.OrDefault | server/index.ts:149 | An absent or empty parameter gives the default; any other value is kept. |
| Listing.FileExtension | server/index.ts:50-53 | `undefined` exactly when there is no extension; otherwise the lower-cased extension without its dot. |
| Listing.GetFileInfo | server/index.ts:65-129 | The virtual path is built from the relative path with every backslash made `/`. A file uses its stat size and extension. A folder has a size exactly when the cached row has one, and then it is that size. A refresh is requested exactly when the row or its `last_indexed` is missing, or is older than a day. |
| Listing.BackslashBecomesSeparator | server/index.ts:71 | Concrete case: the entry `a\b.txt` listed at `/alice` gets the virtual path `/alice/a/b.txt`. |
| Listing.FreshForADay | server/index.ts:104 | A row written at `t` is not refreshed until `t` + one day, and is refreshed after that. |
| Listing.DotDotRejected | server/index.ts:152-154 | A path containing `..` is refused before it is resolved. |
| Listing.RootRoutes | server/index.ts:173-181 | For `/`, the administrator gets the user list and a request without a user gets 401. |
| Listing.AdminRootListing | server/index.ts:194-205 | One folder per user, in user order, at `/{username}`, with size 0 and an empty extension. |
| Listing.BucketOf | server/index.ts:410-420 | Every non-negative size falls in one of the five buckets. |
| Listing.BucketsPartition | server/index.ts:403-425 | A size is in a bucket exactly when that bucket is its own, so the buckets partition the sizes. |
| Listing.FilterMembers | server/index.ts:322-326 | A filter keeps exactly the records it accepts. |
| Listing.FilterIdempotent | server/index.ts:349-354 | Filtering twice by the same stage equals filtering once. |
| Listing.FilterCommutes | server/index.ts:321-373 | Two filter stages commute. |
| Listing.InactiveSearchOrTypeKeepsAll | server/index.ts:322-329 | An empty search or type `all` would keep everything, so skipping it changes nothing. |
| Listing.StageIdempotent | server/index.ts:349-366 | A stage as the route runs it, skipped when inactive, is idempotent. |
| Listing.StagesCommute | server/index.ts:321-425 | Two stages as the route runs them commute. |
| Listing.FilteredOnce | server/index.ts:321-366 | The second round of search and type filtering changes nothing. |
| Listing.FilteredMembers | server/index.ts:321-425 | A record is listed exactly when it is in the directory and every active stage keeps it. |
| Listing.NameCompare | server/index.ts:444-445 | The result is -1, 0 or 1, and 0 exactly for equal names. |
| Listing.NameCompareFlip | server/index.ts:444-445 | Swapping the operands negates the result. |
| Listing.NameCompareTrans | server/index.ts:444-445 | The name order is transitive. |
| Listing.ConsistentKeys | server/index.ts:442-454 | Name and date keys are always consistent; the size key is consistent when every record has a size. |
| Listing.SortPermutes | server/index.ts:436-456 | The sorted page is a permutation of the page. |
| Listing.SortFoldersFirst | server/index.ts:437-439 | Whatever the key, the sorted page lists every folder before every file. |
| Listing.SortSorted | server/index.ts:436-456 | With a consistent comparator, the sorted page is ordered by it. |
| Listing.InsertAt | server/index.ts:436-456 | Moving the record at `i` left past the greater records gives the stable insertion into the prefix, and the suffix is untouched. |
| Listing.SortInPlace | server/index.ts:436 | Sorting the array in place gives the stable insertion sort of its old contents. |
| Listing.AddDir | server/index.ts:228-242 | `mkdir` of a path: the path is an empty directory, no other path is added, and only its parent changes. A parent that can be read lists the new directory after its other entries. |
| Listing.EnsureDir | server/utils/fileUtils.ts:151-159 | `ensureDir` as `mkdir -p`: on success `d` is a directory. An existing path only gains entries for the subdirectories created in it, and only a path among `d` and its parents changes. Every added path is a directory among `d` and its parents, and sits in an existing directory. |
| Listing.AddDirGrows | server/index.ts:228-242 | Creating a missing directory changes no existing path except by adding entries to its parent's listing. |
| Listing.EnsureDirStep | server/utils/fileUtils.ts:151-159 | The last step of `mkdir -p`, creating `d` under the ensured parent, keeps the frame `EnsureDir` states. |
| Listing.AdminDashboardCreated | server/utils/fileUtils.ts:29-32 | Concrete case: with `/srv` an empty directory, `ensureDir('/srv/admin_dashboard')` creates it, and `/srv` then lists `admin_dashboard`. |
| Listing.AdminDashboardListed | server/index.ts:309-319 | Concrete case: after that creation, the default listing of `/srv` holds one record, the folder `admin_dashboard`. |
| Listing.SingleSubdirListed | server/index.ts:309-319 | A directory whose only entry is a just-created directory is listed by the default query as that one folder. |
| Listing.AddDirWellFormed | server/index.ts:228-242 | Creating a directory under an existing directory keeps every path listed by its parent, the new one included. |
| Listing.EnsureDirWellFormed | server/utils/fileUtils.ts:151-159 | `ensureDir` keeps every path listed by its parent directory. |
| Listing.MaterialiseWellFormed | server/index.ts:228-242 | The directory creation of a resolved listing keeps every path listed by its parent directory. |
| Listing.RequestKeepsWellFormed | server/index.ts:215-320 | After any request every path is still listed by its parent, so a directory the request creates appears in the listing of the directory holding it. |
| Listing.EnsureDirFails | server/utils/fileUtils.ts:151-159 | `ensureDir(d)` fails exactly when the nearest existing path among `d` and its parents is not a directory. |
| Listing.FirstExistingShift | server/utils/fileUtils.ts:151-159 | For a missing `d`, the nearest existing path above `d` is the one above its parent. |
| Listing.EnsureDirUnderFile | server/utils/fileUtils.ts:151-159 | Concrete case: with `/h/f.txt` a file, `ensureDir('/h/f.txt/sub')` fails instead of creating anything. |
| Listing.CachedRow | server/index.ts:93-94 | The lookup finds a row exactly when the table has the key, and returns that row. |
| Listing.RefreshesIffStale | server/index.ts:103-113 | A listing requests no refresh exactly when none of the entries that stat is stale. |
| Listing.RefreshesComplete | server/index.ts:309-317 | Every entry that stats and is stale has its refresh requested, whether or not another entry fails to stat. |
| Listing.StatFailureRefreshes | server/index.ts:309-317 | When an entry fails to stat, the listing answers 500 and still carries the refresh of every stale entry that did stat, since `Promise.all` rejects only after every `getFileInfo` has started. |
| Listing.EntryInfosSpec | server/index.ts:309-319 | The listing fails exactly when an entry fails to stat. Otherwise it holds one record per entry, in entry order, each that entry's `getFileInfo`. |
| Listing.OnlyCreatesDirectories | server/index.ts:215-249 | A request only adds directories: the listed path, and the directory the resolver ensures with its missing parents. An existing path changes only by gaining entries for the directories created in it, and only when it is one of those parents or the listed path's parent. |
| Listing.EnsureDirFailureAnswers | server/index.ts:215-249 | When the resolver's `ensureDir` fails, nothing is created and the route answers 500 (404 from the root branch). |
| Listing.Materialise | server/index.ts:228-242 | The directory creation of a resolved listing fails exactly when the resolver's `ensureDir` fails. On success the ensured directory exists. For a path resolved by the general branch (not the root, not a drive path), the listed path exists whenever its parent was a directory. |
| Listing.MaterialiseOnlyCreates | server/index.ts:229-242 | The directory creation of a resolved listing only adds directories: the listed path, and the ensured directory with its missing parents. An existing path changes only by gaining entries for the directories created in it, and only when it is the listed path's parent or one of the ensured parents. |
| Listing.ListingErrors | server/index.ts:251-271 | A missing path gets 404 and a non-directory gets 400. An empty directory gives an empty page with total 0. |
| Listing.ListedAfterIndexing | server/index.ts:96-104 | A directory the indexer has just written is listed with the total it computed, and no refresh is requested for a day. |
| Listing.DirectoryRowInfo | server/index.ts:99-104 | A folder whose row has a size and is less than a day old is listed with that size and needs no refresh. |
| Listing.SliceWindow | server/index.ts:431 | The slice is the window at `skip` holding at most `limit` records, and is empty past the end. |
| Listing.PageBounds | server/index.ts:291-467 | For positive page and limit, the page is the window at `(page - 1) * limit`, and `totalPages` is the ceiling of total over limit. |
| Listing.NegativeLimitFirstPage | server/index.ts:291-467 | With a negative limit the first page is every record but the last `-limit`, and `totalPages` is not positive. |
| Listing.NegativeLimitLaterPages | server/index.ts:291-431 | With a negative limit every later page is empty. |
| Listing.NegativePageFromEnd | server/index.ts:291-431 | With a positive limit, a negative page is the window that ends `-page * limit` records before the end. |
| Listing.NegativePagePastStart | server/index.ts:291-431 | A negative page whose window would start before the first record holds only the records before `total + page * limit`, or none. |
| Listing.NegativePageNegativeLimit | server/index.ts:291-431 | A negative page with a negative limit is empty. |
| Listing.PageSorted | server/index.ts:431-456 | Only the page is sorted. It stays a permutation of the slice and lists folders first, and total, totalPages and refreshes are those of the unsorted listing. |
| Listing.Route | server/index.ts:139-249 | The route's decision before anything is listed. Its properties are stated by `DotDotRejected`, `RootRoutes`, `OnlyCreatesDirectories` and `EnsureDirFailureAnswers`. |
| Listing.Prepare | server/index.ts:139-431 | The outcome before the page is sorted. Its properties are stated by `OnlyCreatesDirectories`, `EnsureDirFailureAnswers` and `PageSorted`. |
| Listing.ListDirectory | server/index.ts:250-431 | The listing of a resolved path. Its properties are stated by `ListingErrors`, `StatFailureRefreshes`, `SingleSubdirListed` and `AdminDashboardListed`, and by `PageBounds` and the `Negative*` lemmas for the window. |
| Listing.Respond | server/index.ts:133-478 | The route's outcome with the page sorted. Its properties are stated by `PageSorted`, `RequestKeepsWellFormed` and `ListFiles`. |
| Listing.ListFiles | server/index.ts:133-478 | The response equals the route's outcome function, with the page sorted in an array in place. That function creates directories as `EnsureDir` and `MaterialiseOnlyCreates` state, including the new entries in their parents' listings (`RequestKeepsWellFormed`), and builds records as `GetFileInfo` states. |
| JsNumber.ParseUnsigned | server/index.ts:291-292 | The digits after the sign: NaN exactly when no digit of the base follows the optional `0x` prefix. |
| JsNumber.ParseInt | server/index.ts:291-292 | Skips white space and one sign, then reads the unsigned number: NaN exactly when that is NaN, negated after `-`. |
| JsNumber.ParseIntDigits | server/index.ts:291-292 | A non-empty string of decimal digits is read as their value, in either radix mode. |
| JsNumber.ParseIntMinus | server/index.ts:291-292 | A leading `-` negates the number read after it. |
| JsNumber.ParseIntDecimal | server/index.ts:291-292 | Round trip: `parseInt(String(n))` is `n`. |
| JsNumber.ParseIntNegativeDecimal | server/index.ts:291-292 | Round trip: `parseInt('-' + String(n))` is `-n`. |
| JsNumber.ParseIntOr | server/index.ts:291-292 | An absent parameter, NaN and 0 give the default. Any other parsed value is kept. |
| JsNumber.RelativeIndex | server/index.ts:431 | A slice index in `[0, len]` is kept. A negative one counts from the end, and is 0 when it reaches past the start. One past the end is `len`. |
| JsNumber.Slice | server/index.ts:431 | The result holds the elements between the two relative indices, and is empty when the end is not after the start. In particular it is `s[start..end]` for indices in range, and negative ends count from the end. |
| JsNumber.CeilDiv | server/index.ts:467 | The least integer at or above a / b for a positive b, bounded on both sides. |
| NodePath.Dirname | server/services/fileIndexer.ts:146-147 | When the path is non-empty and its parent is neither `.` nor `/`, the parent is strictly shorter than the path, so the upward walk terminates. |
| NodePath.DirnameOfChild | server/services/fileIndexer.ts:109-110 | The parent of `a/n` is `a`. |
| NodePath.BasenameOfJoin | server/services/fileIndexer.ts:17 | The basename of a joined child path is the child's name. |
| NodePath.JoinNamesApart | server/services/fileIndexer.ts:29 | Distinct entry names give distinct paths, neither below the other. |
| NodePath.ExtOf | server/utils/fileUtils.ts:188 | The extension is empty or starts with `.` and ends the name. |
| ServerPermissions.HasPermission | server/utils/permissionUtils.ts:9-18 | No user has nothing, an administrator has everything, and anyone else has exactly what their list holds. |
| ServerPermissions.NoImplicitRead | server/utils/permissionUtils.ts:17 | A non-administrator without `read` in the list cannot read. |
| ServerPermissions.Monotone | server/utils/permissionUtils.ts:17 | Adding permissions to a list never takes one away. |
| ClientPermissions.HasPermission | src/utils/permissionUtils.ts:21-32 | No user has nothing, an administrator has everything, and `read` is granted to every user. Any other permission is granted exactly when it is in the list. |
| ClientPermissions.EveryIff | src/utils/permissionUtils.ts:47 | `every` holds exactly when each permission holds. |
| ClientPermissions.HasPermissionsIff | src/utils/permissionUtils.ts:40-48 | A user holds a list exactly when they exist and hold each permission in it. Every user holds the empty list. |
| ClientPermissions.AgreesWithServer | src/utils/permissionUtils.ts:21-32 | The client agrees with the server except that it grants `read` to every user. |
| ClientPermissions.SamePermissionNames | src/utils/permissionUtils.ts:6-13 | The client and the server know the same six permissions. |

## Left out

- The `fs` and database calls are not modelled as I/O:
  - `fs.stat`, `fs.readdir`, `fs.pathExists`, `fs.ensureDir` and `fs.mkdirp` are the tree
    datatype (indexer) or a filesystem map (route).
  - The resolvers return the directory to ensure as a value.
  - Database errors, and the `catch` blocks that only log them, are not modelled.
- The `users` table is a sequence of (id, username) records, and `UserModel.getAll()` of
  the administrator's root is that sequence.
- `UserPath.getById`, `delete` and `getAll` are not modelled as operations. `getAll` is
  the `paths` field, which `getVirtualPath` and `indexAllRootPaths` read.
- `fileUtils.ts:108-119` is not modelled: that administrator branch sits inside the
  non-administrator path and cannot be reached, because `admin` returns at `fileUtils.ts:26-56`.
- NodePath.Join: `path.join` is modelled on normalised operands, collapsing the separators
  between them. `.` and `..` segments are not resolved, and `path.relative` is the entry
  name. The route refuses `..` anyway.
- The host is posix. Windows `path.sep` and backslash-separated joins are not modelled.
- Strings.ToLower: only the ASCII letters are lower-cased.
- Listing.NameCompare: `localeCompare` is taken as character-code order. Locale collation
  is not modelled.
- Listing.PageSorted: sortedness is proved only when the comparator is consistent on the
  page. With the `size` key and a folder without a size, the source comparator is not
  transitive, and the order of JavaScript's `sort` is then implementation-defined.
- Listing.EnsureDir: the only failure modelled is a path in the way that is not a directory.
  Permission errors and concurrent changes to the filesystem are not modelled.
- Listing.AddDir: a created directory is listed after its parent's other entries. The real
  `readdir` order is the filesystem's own. Its `stat` size is written 0, which no listing
  shows for a folder.
- Listing.PageBounds: states only a positive page and limit. The negative cases, which
  `parseInt(x) || default` keeps, are stated by the `NegativeLimit*` and `NegativePage*`
  lemmas. A 0 cannot occur, because `|| default` replaces it.
- The `dateRange` filter (`index.ts:376-400`) is not modelled, because it depends on the
  local calendar and clock.
- FileIndexer.DeleteSubtree: SQLite's `LIKE` is read as a plain prefix test. Its ASCII case
  folding and the `_`/`%` wildcards inside the path are not modelled.
- `scheduleIndexing` and its timers are not modelled. The background `updateFileMetadata`
  of `getFileInfo` is recorded as a refresh request in the response, not run. This is
  also the case on the 500 of a listing in which an entry fails to stat. The
  non-awaited upward walk of `deleteFileMetadata` is modelled as if it were awaited.
- A failing `readdir` gives a total of 0 and the directory's own row. Each child's
  `indexFileOrDirectory` catches its own errors, so no error can stop the loop midway.
- JWT decoding and `authMiddleware` are not modelled: the route receives the token's username,
  or none.
- The response's random `id`, `isFavorite`, and `Date` objects are not modelled.
  Timestamps are integers.
- The other routes, `formatSize`, the React client (including its own filter and sort
  copies), and `User`/`SharedLink` models are outside the modelled core.
- JavaScript numbers are unbounded integers: there is no floating-point `parseInt`
  precision, and `Math.ceil` is integer division rounded up.

## Findings

| source | as written | input that shows it | evidently intended | confidence | as-written member | corrected member |
|---|---|---|---|---|---|---|
| server/services/fileIndexer.ts:169 | `deleteFileMetadata` starts the upward walk with `path.dirname(filePath)` as the virtual key. Child rows record their parent's virtual path, so the `SUM(size)` finds no rows. | Rows `/data/alice` (virtual `/alice`, size 12), `/data/alice/a.txt` (5) and `/data/alice/b.txt` (7), both with parent `/alice`. Deleting `/data/alice/b.txt` sets the size of `/data/alice` to NULL. | Key the walk by the deleted entry's virtual parent, as `updateFileMetadata` does. The parent's size is then 5, the child that remains. | not executed | FileIndexer.MetadataCache.DeleteFileMetadata, FileIndexer.DeleteLosesParentSize | FileIndexer.MetadataCache.DeleteFileMetadataFixed, FileIndexer.FixedDeleteParentSize |
