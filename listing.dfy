/** The `/api/files` listing route of `server/index.ts`: the path guard and the special routes,
    the administrator's synthesised root, `getFileInfo` (size choice and staleness), the
    search, type, extension and size filters, pagination, and the folder-first sort of the
    page. Timestamps are integers in milliseconds; the filesystem the route sees is a map
    from physical paths to what `fs.pathExists`, `fs.stat` and `fs.readdir` report. */
module Listing {
  import opened Wrappers
  import opened Strings
  import opened NodePath
  import opened JsNumber
  import opened UserPath
  import FileUtils
  import FileIndexer

  /** The `FileInfo` records the route returns; `id` (random) and `isFavorite` (always
      false) are not modelled. `extension` and `size` may be `undefined`. */
  datatype FileInfo = FileInfo(
    name: string,
    isFolder: bool,
    extension: Option<string>,
    size: Option<int>,
    modified: int,
    path: string)

  /** `x || d` for a query parameter: absent or empty gives the default. */
  function OrDefault(x: Option<string>, d: string): (r: string)
    ensures (x.None? || x.value == "") ==> r == d
    ensures x.Some? && x.value != "" ==> r == x.value
  {
    if x.None? || x.value == "" then d else x.value
  }

  // ---------------------------------------------------------------------------------------
  // getFileInfo

  /** `getFileExtension(filename)`: the lower-cased extension without its dot, `undefined`
      when there is none. */
  function FileExtension(filename: string): (r: Option<string>)
    ensures r.None? <==> Extname(filename) == ""
    ensures r.Some? ==> "." + r.value == ToLower(Extname(filename))
  {
    var ext := ToLower(Extname(filename));
    if ext != "" then Some(ext[1..]) else None
  }

  /** What `fs.stat` reports for an entry. */
  datatype Stat = Stat(isDir: bool, size: nat, mtime: int)

  /** A day in milliseconds: `24 * 60 * 60 * 1000`. */
  const Day: int := 86400000

  /** The record `getFileInfo` returns, and whether it asks the indexer to refresh the
      entry's metadata in the background. */
  datatype InfoResult = InfoResult(info: FileInfo, refresh: bool)

  /** `getFileInfo(filePath, basePath, currentVirtualPath)`, with `rel` the path of `filePath`
      relative to `basePath`, `meta` the cached `file_metadata` row for `filePath`, and `now`
      the current time. */
  function GetFileInfo(filePath: string, rel: string, current: string, stat: Stat,
                       meta: Option<FileIndexer.MetaRow>, now: int): (r: InfoResult)
    ensures r.info.isFolder == stat.isDir && r.info.name == Basename(filePath)
    ensures r.info.modified == stat.mtime && r.info.path == FileUtils.ChildVirtualPath(current, ReplaceAll(rel, '\\', '/'))
    ensures !stat.isDir ==> r.info.size == Some(stat.size) && r.info.extension == FileExtension(filePath)
    ensures stat.isDir ==> r.info.extension.None?
    ensures stat.isDir ==> (r.info.size.Some? <==> meta.Some? && meta.value.size.Some?)
    ensures stat.isDir && r.info.size.Some? ==> r.info.size == meta.value.size
    ensures r.refresh <==> meta.None? || meta.value.lastIndexed.None? || meta.value.lastIndexed.value < now - Day
  {
    var fullPath := FileUtils.ChildVirtualPath(current, ReplaceAll(rel, '\\', '/'));
    var fileSize := if !stat.isDir then Some(stat.size) else if meta.Some? && meta.value.size.Some? then meta.value.size else None;
    var stale := meta.None? || meta.value.lastIndexed.None? || meta.value.lastIndexed.value < now - Day;
    InfoResult(
      FileInfo(Basename(filePath), stat.isDir, if !stat.isDir then FileExtension(filePath) else None,
               fileSize, stat.mtime, fullPath),
      stale)
  }

  /** A backslash in an entry's relative path becomes a separator of its virtual path: the
      entry `a\\b.txt` listed at `/alice` gets the virtual path `/alice/a/b.txt`. */
  lemma BackslashBecomesSeparator(stat: Stat, meta: Option<FileIndexer.MetaRow>, now: int)
    ensures GetFileInfo("/data/alice/a\\b.txt", "a\\b.txt", "/alice", stat, meta, now).info.path == "/alice/a/b.txt"
  {
    BackslashStrings();
  }

  lemma BackslashStrings()
    ensures FileUtils.ChildVirtualPath("/alice", ReplaceAll("a\\b.txt", '\\', '/')) == "/alice/a/b.txt"
  {
    var raw, r := "a\\b.txt", ReplaceAll("a\\b.txt", '\\', '/');
    assert raw[1] == '\\' && forall i :: 0 <= i < |raw| && i != 1 ==> raw[i] != '\\';
    assert forall i :: 0 <= i < |r| ==> r[i] == "a/b.txt"[i];
    assert r == "a/b.txt";
    assert !EndsWith("/alice", "/");
  }

  /** An entry the indexer just wrote is fresh for a day: no refresh is requested while less
      than a day has passed, and one is requested once more than a day has. */
  lemma FreshForADay(row: FileIndexer.MetaRow, filePath: string, rel: string, current: string, stat: Stat, t: int, now: int)
    requires row.lastIndexed == Some(t)
    ensures now <= t + Day ==> !GetFileInfo(filePath, rel, current, stat, Some(row), now).refresh
    ensures now > t + Day ==> GetFileInfo(filePath, rel, current, stat, Some(row), now).refresh
  {
  }

  // ---------------------------------------------------------------------------------------
  // Routing

  /** What the route does before listing a directory. */
  datatype RouteDecision =
    | InvalidPath          // 400 'Invalid path'
    | StatsEmpty           // `{ path: '/stats', files: [] }`
    | Unauthenticated      // 401
    | AdminRoot            // one folder per user
    | NoCustomPath         // 404 for a user without a home mapping
    | ConversionError      // 500 when the resolver fails
    | ListAt(realPath: string, ensureDir: Option<string>, branch: Branch)

  /** Which branch of the route resolved the path: a Windows drive path taken as it is, the
      root of a non-administrator, or any other path. */
  datatype Branch = DriveBranch | RootBranch | OtherBranch

  /** `/^[A-Z]:\\/`: an upper-case drive letter, a colon and a backslash. */
  predicate IsWindowsAbsolute(p: string) {
    |p| >= 3 && 'A' <= p[0] <= 'Z' && p[1] == ':' && p[2] == '\\'
  }

  /** The route's decision for the token's user (`None` without a valid token) and the
      `path` query parameter. */
  function Route(reg: Registry, cwd: string, username: Option<string>, queryPath: Option<string>): RouteDecision {
    var userPath := OrDefault(queryPath, "/");
    if Contains(userPath, "..") then InvalidPath
    else if IsWindowsAbsolute(userPath) then ListAt(userPath, None, DriveBranch)
    else if userPath == "/stats" then StatsEmpty
    else if userPath == "/" then
      if username.None? || username.value == "" then Unauthenticated
      else if username.value == FileUtils.AdminName then AdminRoot
      else
        match FileUtils.GetPhysicalPath(reg, cwd, username.value, "/")
        case Resolved(p, d) => ListAt(p, d, RootBranch)
        case Failed(_) => NoCustomPath
    else
      match FileUtils.GetPhysicalPath(reg, cwd, OrDefault(username, ""), userPath)
      case Resolved(p, d) => ListAt(p, d, OtherBranch)
      case Failed(_) => ConversionError
  }

  /** Any path containing `..` is refused before it is resolved. */
  lemma DotDotRejected(reg: Registry, cwd: string, username: Option<string>, queryPath: Option<string>)
    requires queryPath.Some? && Contains(queryPath.value, "..")
    ensures Route(reg, cwd, username, queryPath) == InvalidPath
  {
  }

  /** The root is listed for the administrator as the user list, never through the resolver;
      without a user it is refused. */
  lemma RootRoutes(reg: Registry, cwd: string, username: Option<string>, queryPath: Option<string>)
    requires queryPath.None? || queryPath.value == "" || queryPath.value == "/"
    ensures username == Some(FileUtils.AdminName) ==> Route(reg, cwd, username, queryPath) == AdminRoot
    ensures username.None? || username == Some("") ==> Route(reg, cwd, username, queryPath) == Unauthenticated
  {
    var userPath := OrDefault(queryPath, "/");
    assert userPath == "/";
    assert !Contains(userPath, "..") by {
      assert !StartsWith(userPath, "..");
      assert userPath[1..] == "";
    }
  }

  /** The administrator's root: one folder per user, at `/{username}`, of size 0 and with an
      empty extension, stamped with the current time. */
  function AdminRootListing(users: seq<UserRec>, now: int): (r: seq<FileInfo>)
    ensures |r| == |users|
    ensures forall i :: 0 <= i < |users| ==>
      r[i] == FileInfo(users[i].username, true, Some(""), Some(0), now, "/" + users[i].username)
  {
    if users == [] then []
    else [FileInfo(users[0].username, true, Some(""), Some(0), now, "/" + users[0].username)]
         + AdminRootListing(users[1..], now)
  }

  // ---------------------------------------------------------------------------------------
  // Filters

  /** The `type` query parameter: `all`, `folder`, one of the four extension families, or
      any other value, which keeps everything. */
  datatype TypeChoice = AllTypes | Folders | Images | Videos | Audios | Documents | OtherType

  function ParseType(t: string): TypeChoice {
    if t == "all" then AllTypes
    else if t == "folder" then Folders
    else if t == "image" then Images
    else if t == "video" then Videos
    else if t == "audio" then Audios
    else if t == "document" then Documents
    else OtherType
  }

  const ImageExtensions: seq<string> := ["jpg", "jpeg", "png", "gif", "bmp", "webp"]
  const VideoExtensions: seq<string> := ["mp4", "avi", "mkv", "mov", "wmv"]
  const AudioExtensions: seq<string> := ["mp3", "wav", "flac", "ogg"]
  const DocumentExtensions: seq<string> := ["txt", "doc", "docx", "pdf"]

  /** The `sizeRange` query parameter. */
  datatype SizeRange = AllSizes | Tiny | Small | Medium | Large | XLarge | OtherSize

  function ParseSizeRange(s: string): SizeRange {
    if s == "all" then AllSizes
    else if s == "tiny" then Tiny
    else if s == "small" then Small
    else if s == "medium" then Medium
    else if s == "large" then Large
    else if s == "xlarge" then XLarge
    else OtherSize
  }

  const KiB: int := 1024
  const MiB: int := 1024 * 1024

  /** The size bounds of each bucket: lower bound included, upper bound excluded. */
  predicate InBucket(size: int, b: SizeRange) {
    match b
    case Tiny => size < 10 * KiB
    case Small => 10 * KiB <= size < MiB
    case Medium => MiB <= size < 10 * MiB
    case Large => 10 * MiB <= size < 100 * MiB
    case XLarge => size >= 100 * MiB
    case _ => true
  }

  /** The one bucket a non-negative size falls in. */
  function BucketOf(size: nat): (b: SizeRange)
    ensures b.Tiny? || b.Small? || b.Medium? || b.Large? || b.XLarge?
  {
    if size < 10 * KiB then Tiny
    else if size < MiB then Small
    else if size < 10 * MiB then Medium
    else if size < 100 * MiB then Large
    else XLarge
  }

  /** The five buckets partition the non-negative sizes: a size is in a bucket exactly when
      that bucket is its own. */
  lemma BucketsPartition(size: nat, b: SizeRange)
    requires b.Tiny? || b.Small? || b.Medium? || b.Large? || b.XLarge?
    ensures InBucket(size, b) <==> b == BucketOf(size)
  {
  }

  /** One filter stage of the route. */
  datatype Criterion =
    | Search(query: string)
    | OfType(choice: TypeChoice)
    | WithExtension(ext: string)
    | OfSize(range: SizeRange)

  /** `file.extension && list.includes(file.extension.toLowerCase())`. */
  predicate ExtensionIn(f: FileInfo, list: seq<string>) {
    f.extension.Some? && f.extension.value != "" && ToLower(f.extension.value) in list
  }

  /** The type filter: folders by their flag, the families by extension (compared lower-cased
      against the lists), anything else keeps every record. */
  predicate KeepsType(t: TypeChoice, f: FileInfo) {
    match t
    case Folders => f.isFolder
    case Images => ExtensionIn(f, ImageExtensions)
    case Videos => ExtensionIn(f, VideoExtensions)
    case Audios => ExtensionIn(f, AudioExtensions)
    case Documents => ExtensionIn(f, DocumentExtensions)
    case _ => true
  }

  /** Whether a filter stage keeps a record. */
  predicate Keeps(c: Criterion, f: FileInfo) {
    match c
    case Search(q) => Contains(ToLower(f.name), ToLower(q))
    case OfType(t) => KeepsType(t, f)
    case WithExtension(e) =>
      f.extension.Some? && f.extension.value != "" && ToLower(f.extension.value) == ToLower(e)
    case OfSize(r) => !f.isFolder && f.size.Some? && InBucket(f.size.value, r)
  }

  /** Whether the route applies the stage at all: a search only for a non-empty query, a
      type filter unless `all`, an extension filter for a non-empty extension, a size
      filter unless `all`. */
  predicate Active(c: Criterion) {
    match c
    case Search(q) => q != ""
    case OfType(t) => t != AllTypes
    case WithExtension(e) => e != ""
    case OfSize(r) => r != AllSizes
  }

  /** `files.filter(...)` for one stage. */
  function FilterBy(s: seq<FileInfo>, c: Criterion): (r: seq<FileInfo>)
    ensures |r| <= |s|
  {
    if s == [] then []
    else (if Keeps(c, s[0]) then [s[0]] else []) + FilterBy(s[1..], c)
  }

  /** One stage as the route runs it: skipped when not active. */
  function Stage(s: seq<FileInfo>, c: Criterion): seq<FileInfo> {
    if Active(c) then FilterBy(s, c) else s
  }

  /** A filter keeps exactly the records it accepts. */
  lemma {:induction false} FilterMembers(s: seq<FileInfo>, c: Criterion)
    ensures forall f :: f in FilterBy(s, c) <==> f in s && Keeps(c, f)
  {
    if s != [] {
      FilterMembers(s[1..], c);
      assert s == [s[0]] + s[1..];
    }
  }

  /** Filtering a second time by the same stage changes nothing. */
  lemma {:induction false} FilterIdempotent(s: seq<FileInfo>, c: Criterion)
    ensures FilterBy(FilterBy(s, c), c) == FilterBy(s, c)
  {
    if s != [] {
      var x, t := s[0], s[1..];
      FilterIdempotent(t, c);
      assert s == [x] + t;
      FilterCons(x, t, c);
      if Keeps(c, x) {
        FilterCons(x, FilterBy(t, c), c);
      }
    }
  }

  /** Two stages commute. */
  lemma {:induction false} FilterCommutes(s: seq<FileInfo>, a: Criterion, b: Criterion)
    ensures FilterBy(FilterBy(s, a), b) == FilterBy(FilterBy(s, b), a)
  {
    if s != [] {
      var x, t := s[0], s[1..];
      FilterCommutes(t, a, b);
      assert s == [x] + t;
      FilterCons(x, t, a);
      FilterCons(x, t, b);
      FilterCons(x, FilterBy(t, a), b);
      FilterCons(x, FilterBy(t, b), a);
    }
  }

  /** A filter decides the first record and filters the rest. */
  lemma FilterCons(x: FileInfo, t: seq<FileInfo>, c: Criterion)
    ensures FilterBy([x] + t, c) == if Keeps(c, x) then [x] + FilterBy(t, c) else FilterBy(t, c)
  {
    assert ([x] + t)[1..] == t;
  }

  /** An inactive search or type stage would keep everything anyway: skipping it changes
      nothing. */
  lemma {:induction false} InactiveSearchOrTypeKeepsAll(s: seq<FileInfo>, c: Criterion)
    requires (c.Search? || c.OfType?) && !Active(c)
    ensures FilterBy(s, c) == s
  {
    if s != [] {
      InactiveSearchOrTypeKeepsAll(s[1..], c);
      if c.Search? {
        assert ToLower(c.query) == "";
        assert StartsWith(ToLower(s[0].name), "");
      }
      assert s == [s[0]] + s[1..];
    }
  }

  /** The stages in the order the route runs them: search and type, then search and type a
      second time, extension, size (the date filter is not modelled). */
  function Filtered(s: seq<FileInfo>, search: string, t: TypeChoice, ext: string, size: SizeRange): seq<FileInfo> {
    var once := Stage(Stage(s, Search(search)), OfType(t));
    var twice := Stage(Stage(once, Search(search)), OfType(t));
    Stage(Stage(twice, WithExtension(ext)), OfSize(size))
  }

  lemma StageIdempotent(s: seq<FileInfo>, c: Criterion)
    ensures Stage(Stage(s, c), c) == Stage(s, c)
  {
    if Active(c) {
      FilterIdempotent(s, c);
    }
  }

  lemma StagesCommute(s: seq<FileInfo>, a: Criterion, b: Criterion)
    ensures Stage(Stage(s, a), b) == Stage(Stage(s, b), a)
  {
    if Active(a) && Active(b) {
      FilterCommutes(s, a, b);
    }
  }

  /** Running search and type a second time is redundant: the result is that of each stage
      once, and a record survives exactly when every active stage keeps it. */
  lemma FilteredOnce(s: seq<FileInfo>, search: string, t: TypeChoice, ext: string, size: SizeRange)
    ensures var once := Stage(Stage(s, Search(search)), OfType(t));
      Filtered(s, search, t, ext, size) == Stage(Stage(once, WithExtension(ext)), OfSize(size))
  {
    var st := Stage(s, Search(search));
    var once := Stage(st, OfType(t));
    // search(once) == type(search(search(s))) == type(search(s)) == once
    StagesCommute(st, OfType(t), Search(search));
    StageIdempotent(s, Search(search));
    StageIdempotent(st, OfType(t));
  }

  lemma {:induction false} StageMembers(s: seq<FileInfo>, c: Criterion)
    ensures forall f :: f in Stage(s, c) <==> f in s && (!Active(c) || Keeps(c, f))
  {
    FilterMembers(s, c);
  }

  /** A record is listed exactly when it is in the directory and every active stage keeps it;
      in particular any active size range drops folders and records without a size. */
  lemma FilteredMembers(s: seq<FileInfo>, search: string, t: TypeChoice, ext: string, size: SizeRange, f: FileInfo)
    ensures f in Filtered(s, search, t, ext, size) <==>
      f in s
      && (!Active(Search(search)) || Keeps(Search(search), f))
      && (!Active(OfType(t)) || Keeps(OfType(t), f))
      && (!Active(WithExtension(ext)) || Keeps(WithExtension(ext), f))
      && (!Active(OfSize(size)) || Keeps(OfSize(size), f))
  {
    FilteredOnce(s, search, t, ext, size);
    var st := Stage(s, Search(search));
    var once := Stage(st, OfType(t));
    var e := Stage(once, WithExtension(ext));
    StageMembers(s, Search(search));
    StageMembers(st, OfType(t));
    StageMembers(once, WithExtension(ext));
    StageMembers(e, OfSize(size));
  }

  // ---------------------------------------------------------------------------------------
  // Sorting the page

  /** The `sortBy` parameter: `name` (the default), `modified`, `size`, or anything else,
      which orders only folders before files. */
  datatype SortKey = ByName | ByModified | BySize | Unkeyed

  function ParseSortKey(s: string): SortKey {
    if s == "name" then ByName else if s == "modified" then ByModified else if s == "size" then BySize else Unkeyed
  }

  /** The comparator's key and direction; `sortOrder` other than `asc` sorts descending. */
  datatype Order = Order(key: SortKey, asc: bool)

  /** `a.localeCompare(b)`, taken here as the order of character codes: negative, zero or
      positive as `a` sorts before, with or after `b`. */
  function NameCompare(a: string, b: string): (r: int)
    ensures -1 <= r <= 1
    ensures r == 0 <==> a == b
  {
    if a == [] && b == [] then 0
    else if a == [] then -1
    else if b == [] then 1
    else if a[0] < b[0] then -1
    else if a[0] > b[0] then 1
    else
      var r := NameCompare(a[1..], b[1..]);
      assert r == 0 ==> a == [a[0]] + a[1..] == [b[0]] + b[1..] == b;
      r
  }

  /** The comparator of the route's `sort` call. */
  function Compare(a: FileInfo, b: FileInfo, o: Order): int {
    if a.isFolder && !b.isFolder then -1
    else if !a.isFolder && b.isFolder then 1
    else match o.key
      case ByName => if o.asc then NameCompare(a.name, b.name) else NameCompare(b.name, a.name)
      case ByModified => if o.asc then a.modified - b.modified else b.modified - a.modified
      case BySize =>
        if a.size.Some? && b.size.Some? then (if o.asc then a.size.value - b.size.value else b.size.value - a.size.value)
        else 0
      case Unkeyed => 0
  }

  /** Inserts `x` into a sorted page, after every record that does not compare greater than
      it (so records that compare equal keep their order). */
  function Insert(t: seq<FileInfo>, x: FileInfo, o: Order): (r: seq<FileInfo>)
    ensures |r| == |t| + 1
  {
    if t == [] || Compare(t[|t| - 1], x, o) <= 0 then t + [x]
    else Insert(t[..|t| - 1], x, o) + [t[|t| - 1]]
  }

  /** The page after `sort`: a stable insertion of each record in turn. */
  function SortPage(s: seq<FileInfo>, o: Order): (r: seq<FileInfo>)
    ensures |r| == |s|
  {
    if s == [] then [] else Insert(SortPage(s[..|s| - 1], o), s[|s| - 1], o)
  }

  lemma {:induction false} InsertPermutes(t: seq<FileInfo>, x: FileInfo, o: Order)
    ensures multiset(Insert(t, x, o)) == multiset(t) + multiset{x}
  {
    if t != [] && Compare(t[|t| - 1], x, o) > 0 {
      InsertPermutes(t[..|t| - 1], x, o);
      MultisetSnoc(t);
    }
  }

  /** Sorting permutes the page: the same records, each as often. */
  lemma {:induction false} SortPermutes(s: seq<FileInfo>, o: Order)
    ensures multiset(SortPage(s, o)) == multiset(s)
  {
    if s != [] {
      var init, last := s[..|s| - 1], s[|s| - 1];
      SortPermutes(init, o);
      InsertPermutes(SortPage(init, o), last, o);
      MultisetSnoc(s);
    }
  }

  lemma MultisetSnoc(s: seq<FileInfo>)
    requires s != []
    ensures multiset(s) == multiset(s[..|s| - 1]) + multiset{s[|s| - 1]}
  {
    assert s == s[..|s| - 1] + [s[|s| - 1]];
  }

  /** Every folder comes before every file. */
  predicate FoldersFirst(s: seq<FileInfo>) {
    forall i, j :: 0 <= i < j < |s| && s[j].isFolder ==> s[i].isFolder
  }

  lemma {:induction false} InsertFoldersFirst(t: seq<FileInfo>, x: FileInfo, o: Order)
    requires FoldersFirst(t)
    ensures FoldersFirst(Insert(t, x, o))
  {
    if t != [] && Compare(t[|t| - 1], x, o) > 0 {
      var t' := t[..|t| - 1];
      var l := t[|t| - 1];
      assert FoldersFirst(t') by {
        forall i, j | 0 <= i < j < |t'| && t'[j].isFolder ensures t'[i].isFolder {
          assert t'[i] == t[i] && t'[j] == t[j];
        }
      }
      InsertFoldersFirst(t', x, o);
      var r := Insert(t', x, o);
      // `l` moved behind `x`: `l` is a file unless `x` and everything in `t'` are folders
      assert multiset(r) == multiset(t') + multiset{x} by { InsertPermutes(t', x, o); }
      forall i, j | 0 <= i < j < |r| + 1 && (r + [l])[j].isFolder ensures (r + [l])[i].isFolder {
        if j == |r| {
          assert l.isFolder && x.isFolder;
          assert forall k :: 0 <= k < |t'| ==> t'[k] == t[k];
          assert r[i] in multiset(r);
          assert r[i] == x || r[i] in multiset(t');
        }
      }
    }
  }

  /** Whatever the key, the sorted page lists its folders first. */
  lemma {:induction false} SortFoldersFirst(s: seq<FileInfo>, o: Order)
    ensures FoldersFirst(SortPage(s, o))
  {
    if s != [] {
      SortFoldersFirst(s[..|s| - 1], o);
      InsertFoldersFirst(SortPage(s[..|s| - 1], o), s[|s| - 1], o);
    }
  }

  /** The comparator never says both `x > y` and `y > x`. */
  predicate Antisymmetric(x: FileInfo, y: FileInfo, o: Order) {
    Compare(x, y, o) > 0 ==> Compare(y, x, o) <= 0
  }

  /** `x <= y <= z` gives `x <= z`. */
  predicate Transitive(x: FileInfo, y: FileInfo, z: FileInfo, o: Order) {
    Compare(x, y, o) <= 0 && Compare(y, z, o) <= 0 ==> Compare(x, z, o) <= 0
  }

  /** Whether the comparator is consistent on the records of `s`. */
  predicate Consistent(s: seq<FileInfo>, o: Order) {
    (forall x, y :: x in s && y in s ==> Antisymmetric(x, y, o))
    && (forall x, y, z :: x in s && y in s && z in s ==> Transitive(x, y, z, o))
  }

  predicate SortedBy(s: seq<FileInfo>, o: Order) {
    forall i, j :: 0 <= i < j < |s| ==> Compare(s[i], s[j], o) <= 0
  }

  lemma {:induction false} InsertSorted(t: seq<FileInfo>, x: FileInfo, o: Order, all: seq<FileInfo>)
    requires SortedBy(t, o) && Consistent(all, o) && x in all
    requires forall k :: 0 <= k < |t| ==> t[k] in all
    ensures SortedBy(Insert(t, x, o), o)
  {
    if t != [] {
      var t' := t[..|t| - 1];
      var l := t[|t| - 1];
      assert l in all;
      if Compare(l, x, o) <= 0 {
        forall i, j | 0 <= i < j < |t| + 1 ensures Compare((t + [x])[i], (t + [x])[j], o) <= 0 {
          if j == |t| && i < |t| - 1 {
            assert t[i] in all;
            assert Transitive(t[i], l, x, o);
          }
        }
      } else {
        assert Antisymmetric(l, x, o);
        assert SortedBy(t', o);
        InsertSorted(t', x, o, all);
        var r := Insert(t', x, o);
        InsertBelow(t', x, l, o);
        assert Insert(t, x, o) == r + [l];
      }
    }
  }

  /** Inserting below a bound keeps the page below it. */
  lemma InsertBelow(t: seq<FileInfo>, x: FileInfo, l: FileInfo, o: Order)
    requires forall k :: 0 <= k < |t| ==> Compare(t[k], l, o) <= 0
    requires Compare(x, l, o) <= 0 && SortedBy(Insert(t, x, o), o)
    ensures SortedBy(Insert(t, x, o) + [l], o)
  {
    var r := Insert(t, x, o);
    InsertPermutes(t, x, o);
    forall i | 0 <= i < |r| ensures Compare(r[i], l, o) <= 0 {
      assert r[i] in multiset(t) + multiset{x};
      if r[i] != x {
        assert r[i] in t;
      }
    }
  }

  /** With a consistent comparator the page comes out sorted. */
  lemma {:induction false} SortSorted(s: seq<FileInfo>, o: Order, all: seq<FileInfo>)
    requires Consistent(all, o) && forall k :: 0 <= k < |s| ==> s[k] in all
    ensures SortedBy(SortPage(s, o), o)
  {
    if s != [] {
      var s' := s[..|s| - 1];
      SortSorted(s', o, all);
      var t := SortPage(s', o);
      SortPermutes(s', o);
      forall k | 0 <= k < |t| ensures t[k] in all {
        assert t[k] in multiset(s');
        var m :| 0 <= m < |s'| && s'[m] == t[k];
        assert s[m] == t[k];
      }
      InsertSorted(t, s[|s| - 1], o, all);
    }
  }

  lemma {:induction false} NameCompareFlip(a: string, b: string)
    ensures NameCompare(a, b) == -NameCompare(b, a)
  {
    if a != [] && b != [] && a[0] == b[0] {
      NameCompareFlip(a[1..], b[1..]);
    }
  }

  lemma {:induction false} NameCompareTrans(a: string, b: string, c: string)
    requires NameCompare(a, b) <= 0 && NameCompare(b, c) <= 0
    ensures NameCompare(a, c) <= 0
  {
    if a != [] && b != [] && c != [] && a[0] == b[0] == c[0] {
      NameCompareTrans(a[1..], b[1..], c[1..]);
    }
  }

  /** Sorting by name or by date, and sorting by size when every record has a size, use a
      consistent comparator. */
  lemma ConsistentKeys(s: seq<FileInfo>, o: Order)
    requires o.key != BySize || forall k :: 0 <= k < |s| ==> s[k].size.Some?
    ensures Consistent(s, o)
  {
    forall x, y | x in s && y in s ensures Antisymmetric(x, y, o) {
      NameCompareFlip(x.name, y.name);
    }
    forall x, y, z | x in s && y in s && z in s ensures Transitive(x, y, z, o) {
      if o.key == ByName && x.isFolder == y.isFolder == z.isFolder
         && Compare(x, y, o) <= 0 && Compare(y, z, o) <= 0 {
        if o.asc { NameCompareTrans(x.name, y.name, z.name); } else { NameCompareTrans(z.name, y.name, x.name); }
      }
    }
  }

  /** Sorts a page in place with the route's comparator: each record is moved left past the
      records before it that compare greater. */
  method SortInPlace(a: array<FileInfo>, o: Order)
    modifies a
    ensures a[..] == SortPage(old(a[..]), o)
  {
    ghost var A := a[..];
    for i := 0 to a.Length
      invariant a[..i] == SortPage(A[..i], o)
      invariant a[i..] == A[i..]
    {
      assert a[i] == A[i];
      SortPageStep(A, i, o);
      InsertAt(a, i, o);
    }
    assert A[..a.Length] == A;
  }

  /** Sorting one more record inserts it into the sorted prefix. */
  lemma SortPageStep(s: seq<FileInfo>, i: int, o: Order)
    requires 0 <= i < |s|
    ensures SortPage(s[..i + 1], o) == Insert(SortPage(s[..i], o), s[i], o)
  {
    assert s[..i + 1][..i] == s[..i];
  }

  /** Inserting `x` into `t` puts it after the last record that does not compare above it
      and before the run of records that do. */
  lemma {:induction false} InsertSplit(t: seq<FileInfo>, x: FileInfo, o: Order, j: int)
    requires 0 <= j <= |t|
    requires j == 0 || Compare(t[j - 1], x, o) <= 0
    requires forall k :: j <= k < |t| ==> Compare(t[k], x, o) > 0
    ensures Insert(t, x, o) == t[..j] + [x] + t[j..]
  {
    if j < |t| {
      var t' := t[..|t| - 1];
      assert Compare(t[|t| - 1], x, o) > 0;
      InsertSplit(t', x, o, j);
      assert t'[..j] == t[..j];
      assert t'[j..] + [t[|t| - 1]] == t[j..];
    } else {
      assert t[..j] == t;
    }
  }

  /** Inserts the record at `i` into the sorted prefix before it. */
  method InsertAt(a: array<FileInfo>, i: int, o: Order)
    requires 0 <= i < a.Length
    modifies a
    ensures a[..i + 1] == Insert(old(a[..i]), old(a[i]), o)
    ensures a[i + 1..] == old(a[i + 1..])
  {
    ghost var B := a[..];
    var x := a[i];
    var j := i;
    while j > 0 && Compare(a[j - 1], x, o) > 0
      invariant 0 <= j <= i
      invariant forall k :: 0 <= k < j ==> a[k] == B[k]
      invariant a[j] == x
      invariant forall k :: j < k <= i ==> a[k] == B[k - 1]
      invariant forall k :: i < k < a.Length ==> a[k] == B[k]
      invariant forall k :: j <= k < i ==> Compare(B[k], x, o) > 0
      decreases j
    {
      a[j - 1], a[j] := a[j], a[j - 1];
      j := j - 1;
    }
    InsertSplit(B[..i], x, o, j);
    Shifted(a[..], B, x, i, j);
  }

  /** A page that is `b` with `x` moved from `i` down to `j` and everything between moved
      up one place. */
  lemma Shifted(c: seq<FileInfo>, b: seq<FileInfo>, x: FileInfo, i: int, j: int)
    requires 0 <= j <= i < |c| == |b|
    requires forall k :: 0 <= k < j ==> c[k] == b[k]
    requires c[j] == x
    requires forall k :: j < k <= i ==> c[k] == b[k - 1]
    requires forall k :: i < k < |c| ==> c[k] == b[k]
    ensures c[..i + 1] == b[..i][..j] + [x] + b[..i][j..]
    ensures c[i + 1..] == b[i + 1..]
  {
    var s := b[..i][..j] + [x] + b[..i][j..];
    assert |s| == i + 1;
    forall k | 0 <= k <= i
      ensures c[k] == s[k]
    {
      if k < j { assert s[k] == b[k]; } else if k > j { assert s[k] == b[..i][j..][k - j - 1]; }
    }
  }

  // ---------------------------------------------------------------------------------------
  // The response

  /** The listing query parameters, as they arrive (absent ones are `None`). */
  datatype Query = Query(
    page: Option<string>,
    limit: Option<string>,
    search: Option<string>,
    fileType: Option<string>,
    sizeRange: Option<string>,
    extension: Option<string>,
    sortBy: Option<string>,
    sortOrder: Option<string>)

  /** What the filesystem holds at a path: something other than a directory, a directory
      `readdir` fails on, or a directory and its entries. */
  datatype DirState = NotADirectory | UnreadableDir | Directory(entries: seq<DirEntry>)

  /** The filesystem: what exists at each physical path. */
  type Fs = map<string, DirState>

  /** A directory, readable or not. */
  predicate IsDir(st: DirState) {
    st.Directory? || st.UnreadableDir?
  }

  /** `d` and the parents `fs.ensureDir` climbs through, nearest first, up to a `dirname`
      fixpoint. */
  function Ancestors(d: string): (a: seq<string>)
    ensures |a| >= 1 && a[0] == d
    ensures forall q :: q in a ==> |q| <= |d|
    decreases |d|
  {
    var parent := Dirname(d);
    if |parent| < |d| then [d] + Ancestors(parent) else [d]
  }

  /** `a[i]` is the first path of `a` that exists. */
  predicate FirstExisting(fs: Fs, a: seq<string>, i: int) {
    0 <= i < |a| && a[i] in fs && forall j :: 0 <= j < i ==> a[j] !in fs
  }

  /** The `readdir` entry of a directory created at `now`. The size `stat` reports for a
      directory is never shown by a listing, and is written as 0. */
  function NewDirEntry(name: string, now: int): DirEntry {
    DirEntry(name, Some(Stat(true, 0, now)))
  }

  /** `mkdir(p)` of a missing path: `p` becomes an empty directory, and a parent that can be
      read lists it after its other entries. */
  function AddDir(fs: Fs, p: string, now: int): (r: Fs)
    ensures p in r && r[p] == Directory([])
    ensures forall q :: q in r <==> q in fs || q == p
    ensures forall q :: q in fs && q != p && q != Dirname(p) ==> r[q] == fs[q]
    ensures |Dirname(p)| < |p| && Dirname(p) in fs && fs[Dirname(p)].Directory? ==>
      r[Dirname(p)] == Directory(fs[Dirname(p)].entries + [NewDirEntry(Basename(p), now)])
    ensures |Dirname(p)| < |p| && Dirname(p) in fs && !fs[Dirname(p)].Directory? ==> r[Dirname(p)] == fs[Dirname(p)]
  {
    var parent := Dirname(p);
    var f := fs[p := Directory([])];
    if |parent| < |p| && parent in fs && fs[parent].Directory? then
      f[parent := Directory(fs[parent].entries + [NewDirEntry(Basename(p), now)])]
    else f
  }

  /** `after` is `before`, or the same directory listing further subdirectories after its
      entries, each created at `now`. */
  predicate Grows(before: DirState, after: DirState, now: int) {
    before == after ||
    (&& before.Directory? && after.Directory?
     && |before.entries| <= |after.entries|
     && after.entries[..|before.entries|] == before.entries
     && forall i :: |before.entries| <= i < |after.entries| ==> after.entries[i].stat == Some(Stat(true, 0, now)))
  }

  lemma GrowsTrans(a: DirState, b: DirState, c: DirState, now: int)
    requires Grows(a, b, now) && Grows(b, c, now)
    ensures Grows(a, c, now)
  {
    if a != b && b != c {
      assert c.entries[..|a.entries|] == c.entries[..|b.entries|][..|a.entries|];
    }
  }

  lemma GrowsByOne(es: seq<DirEntry>, name: string, now: int)
    ensures Grows(Directory(es), Directory(es + [NewDirEntry(name, now)]), now)
  {
    assert (es + [NewDirEntry(name, now)])[..|es|] == es;
  }

  /** `fs.ensureDir(d)` (recursive, as `mkdir -p`): climbs from `d` to the nearest existing
      ancestor, fails when that is not a directory, and otherwise creates every missing
      directory on the way down, each listed by its parent. Existing paths only gain
      entries, and only those on the way. */
  function EnsureDir(fs: Fs, d: string, now: int): (r: Option<Fs>)
    ensures r.Some? ==> forall p :: p in fs ==> p in r.value && Grows(fs[p], r.value[p], now)
    ensures r.Some? ==> forall p :: p in fs && r.value[p] != fs[p] ==> p in Ancestors(d)
    ensures r.Some? ==> d in r.value && IsDir(r.value[d])
    ensures r.Some? ==> forall p :: p in r.value && p !in fs ==>
      && Grows(Directory([]), r.value[p], now) && p in Ancestors(d)
      && (|Dirname(p)| < |p| ==> Dirname(p) in r.value && IsDir(r.value[Dirname(p)]))
    decreases |d|, 2
  {
    if d in fs then (if IsDir(fs[d]) then Some(fs) else None)
    else
      var parent := Dirname(d);
      if |parent| < |d| then
        match EnsureDir(fs, parent, now)
        case None => None
        case Some(f) => EnsureDirStep(fs, f, d, now); Some(AddDir(f, d, now))
      else Some(AddDir(fs, d, now))
  }

  /** Creating a missing directory only adds to its parent's listing. */
  lemma AddDirGrows(f: Fs, d: string, now: int)
    requires d !in f
    ensures forall p :: p in f ==> Grows(f[p], AddDir(f, d, now)[p], now)
  {
    var r := AddDir(f, d, now);
    var parent := Dirname(d);
    if |parent| < |d| && parent in f && f[parent].Directory? {
      GrowsByOne(f[parent].entries, Basename(d), now);
    }
    forall p | p in f ensures Grows(f[p], r[p], now) {
      if p != parent { assert r[p] == f[p]; }
    }
  }

  /** The last step of `EnsureDir`: `d` is created under the parent the recursive call
      ensured. */
  lemma EnsureDirStep(fs: Fs, f: Fs, d: string, now: int)
    requires d !in fs && |Dirname(d)| < |d| && EnsureDir(fs, Dirname(d), now) == Some(f)
    ensures var r := AddDir(f, d, now);
      && (forall p :: p in fs ==> p in r && Grows(fs[p], r[p], now))
      && (forall p :: p in fs && r[p] != fs[p] ==> p in Ancestors(d))
      && (forall p :: p in r && p !in fs ==>
            && Grows(Directory([]), r[p], now) && p in Ancestors(d)
            && (|Dirname(p)| < |p| ==> Dirname(p) in r && IsDir(r[Dirname(p)])))
    decreases |d|, 1
  {
    var parent := Dirname(d);
    var r := AddDir(f, d, now);
    assert Ancestors(d) == [d] + Ancestors(parent);
    assert d !in f;
    AddDirGrows(f, d, now);
    forall p | p in fs ensures p in r && Grows(fs[p], r[p], now) {
      GrowsTrans(fs[p], f[p], r[p], now);
    }
    forall p | p in r && p !in fs
      ensures Grows(Directory([]), r[p], now) && p in Ancestors(d)
    {
      if p != d {
        GrowsTrans(Directory([]), f[p], r[p], now);
      }
    }
    StepParents(fs, f, d, now);
  }

  lemma StepParents(fs: Fs, f: Fs, d: string, now: int)
    requires d !in fs && |Dirname(d)| < |d| && EnsureDir(fs, Dirname(d), now) == Some(f)
    ensures var r := AddDir(f, d, now);
      && (forall p :: p in fs && r[p] != fs[p] ==> p in Ancestors(d))
      && (forall p :: p in r && p !in fs && |Dirname(p)| < |p| ==> Dirname(p) in r && IsDir(r[Dirname(p)]))
    decreases |d|, 0
  {
    var parent := Dirname(d);
    var r := AddDir(f, d, now);
    assert Ancestors(d) == [d] + Ancestors(parent);
    assert parent in f && IsDir(f[parent]);
  }

  /** The nearest existing path of `a` is not a directory. */
  ghost predicate Blocked(fs: Fs, a: seq<string>) {
    exists i :: FirstExisting(fs, a, i) && !IsDir(fs[a[i]])
  }

  /** `ensureDir(d)` fails exactly when the nearest existing path among `d` and its parents is
      not a directory. */
  lemma {:induction false} EnsureDirFails(fs: Fs, d: string, now: int)
    ensures EnsureDir(fs, d, now).None? <==> Blocked(fs, Ancestors(d))
    decreases |d|
  {
    if d in fs {
      assert FirstExisting(fs, Ancestors(d), 0);
      if Blocked(fs, Ancestors(d)) {
        var i :| FirstExisting(fs, Ancestors(d), i) && !IsDir(fs[Ancestors(d)[i]]);
        assert i == 0;
      }
    } else if |Dirname(d)| < |d| {
      EnsureDirFails(fs, Dirname(d), now);
      FirstExistingShift(fs, d);
    } else {
      assert Ancestors(d) == [d];
    }
  }

  /** For a missing `d`, the nearest existing ancestor of `d` is that of its parent. */
  lemma FirstExistingShift(fs: Fs, d: string)
    requires d !in fs && |Dirname(d)| < |d|
    ensures Blocked(fs, Ancestors(d)) <==> Blocked(fs, Ancestors(Dirname(d)))
  {
    var a, b := Ancestors(d), Ancestors(Dirname(d));
    assert a == [d] + b;
    if Blocked(fs, a) {
      var i :| FirstExisting(fs, a, i) && !IsDir(fs[a[i]]);
      ShiftDown(fs, d, a, b, i);
      assert FirstExisting(fs, b, i - 1) && !IsDir(fs[b[i - 1]]);
    }
    if Blocked(fs, b) {
      var i :| FirstExisting(fs, b, i) && !IsDir(fs[b[i]]);
      ShiftUp(fs, d, a, b, i);
      assert FirstExisting(fs, a, i + 1) && !IsDir(fs[a[i + 1]]);
    }
  }

  lemma ShiftDown(fs: Fs, d: string, a: seq<string>, b: seq<string>, i: int)
    requires d !in fs && a == [d] + b && FirstExisting(fs, a, i)
    ensures i >= 1 && FirstExisting(fs, b, i - 1) && b[i - 1] == a[i]
  {
    assert i != 0;
    forall j | 0 <= j < i - 1 ensures b[j] !in fs {
      assert b[j] == a[j + 1];
    }
  }

  lemma ShiftUp(fs: Fs, d: string, a: seq<string>, b: seq<string>, i: int)
    requires d !in fs && a == [d] + b && FirstExisting(fs, b, i)
    ensures FirstExisting(fs, a, i + 1) && a[i + 1] == b[i]
  {
    forall j | 0 <= j < i + 1 ensures a[j] !in fs {
      if j > 0 { assert a[j] == b[j - 1]; }
    }
  }

  /** `ensureDir` fails under a file: with `/h/f.txt` a file, `ensureDir('/h/f.txt/sub')`
      throws `ENOTDIR` instead of creating anything. */
  lemma EnsureDirUnderFile(fs: Fs, now: int)
    requires fs == map["/h" := Directory([]), "/h/f.txt" := NotADirectory]
    ensures EnsureDir(fs, "/h/f.txt/sub", now).None?
  {
    DirnameOfChild("/h/f.txt", "sub");
    assert "/h/f.txt/sub" == "/h/f.txt" + "/" + "sub";
  }

  /** The directory creation of a resolved listing: the resolver's `fs.ensureDir`, then, for
      paths other than the root, `fs.mkdirp` of a still missing path whose parent exists (a
      failing `mkdirp`, under a parent that is not a directory, is ignored). `None` when
      `ensureDir` fails. */
  function Materialise(fs: Fs, realPath: string, ensureDir: Option<string>, branch: Branch, now: int): (r: Option<Fs>)
    ensures r.None? <==> ensureDir.Some? && EnsureDir(fs, ensureDir.value, now).None?
    ensures r.Some? && ensureDir.Some? ==> ensureDir.value in r.value && IsDir(r.value[ensureDir.value])
    ensures r.Some? && branch == OtherBranch && Dirname(realPath) in fs && IsDir(fs[Dirname(realPath)]) ==>
      realPath in r.value
  {
    var ensured := if ensureDir.Some? then EnsureDir(fs, ensureDir.value, now) else Some(fs);
    if ensured.None? then None
    else
      var f := ensured.value;
      var parent := Dirname(realPath);
      if branch == OtherBranch && realPath !in f && parent in f && IsDir(f[parent])
      then Some(AddDir(f, realPath, now))
      else Some(f)
  }

  /** One `readdir` entry: its name and what `fs.stat` reports (`None` when it throws). */
  datatype DirEntry = DirEntry(name: string, stat: Option<Stat>)

  /** `SELECT * FROM file_metadata WHERE path = ?`. */
  function CachedRow(rows: FileIndexer.Table, p: string): (r: Option<FileIndexer.MetaRow>)
    ensures r.Some? <==> p in rows
    ensures r.Some? ==> r.value == rows[p]
  {
    if p in rows then Some(rows[p]) else None
  }

  /** A background refresh `updateFileMetadata(filePath, fullPath)`. */
  datatype Refresh = Refresh(filePath: string, virtualPath: string)

  datatype Response =
    | Error(status: int)
    | Stats
    | UserFolders(files: seq<FileInfo>)
    | Page(files: seq<FileInfo>, total: nat, page: int, limit: int, totalPages: int, refreshes: seq<Refresh>)
      /** The 500 of a listing in which some entry's `stat` threw, with the refreshes the
          entries that did stat still request: `Promise.all` rejects, but every
          `getFileInfo` has already been started. */
    | StatFailed(refreshes: seq<Refresh>)

  /** `getFileInfo(path.join(realPath, name), realPath, current)` for an entry that stats. */
  function EntryInfo(realPath: string, current: string, e: DirEntry, rows: FileIndexer.Table, now: int): InfoResult
    requires e.stat.Some?
  {
    GetFileInfo(Join(realPath, e.name), e.name, current, e.stat.value, CachedRow(rows, Join(realPath, e.name)), now)
  }

  /** The records of a listing and the background refreshes it requests. */
  datatype Listed = Listed(infos: seq<FileInfo>, refreshes: seq<Refresh>)

  /** Whether every entry of a listing stats. */
  predicate AllStat(entries: seq<DirEntry>) {
    forall i :: 0 <= i < |entries| ==> entries[i].stat.Some?
  }

  /** The refresh an entry's `getFileInfo` requests: none when its `stat` throws or its
      metadata is fresh. */
  function EntryRefresh(realPath: string, current: string, e: DirEntry, rows: FileIndexer.Table, now: int): seq<Refresh> {
    if e.stat.Some? && EntryInfo(realPath, current, e, rows, now).refresh
    then [Refresh(Join(realPath, e.name), EntryInfo(realPath, current, e, rows, now).info.path)]
    else []
  }

  /** The background refreshes a listing requests, in entry order: one for each entry that
      stats and whose metadata is missing or stale. */
  function Refreshes(realPath: string, current: string, entries: seq<DirEntry>, rows: FileIndexer.Table, now: int): seq<Refresh>
  {
    if entries == [] then []
    else EntryRefresh(realPath, current, entries[0], rows, now) + Refreshes(realPath, current, entries[1..], rows, now)
  }

  /** A listing asks for a refresh exactly when one of its entries is stale. */
  lemma {:induction false} RefreshesIffStale(realPath: string, current: string, entries: seq<DirEntry>, rows: FileIndexer.Table, now: int)
    ensures Refreshes(realPath, current, entries, rows, now) == [] <==>
      forall i :: 0 <= i < |entries| && entries[i].stat.Some? ==> !EntryInfo(realPath, current, entries[i], rows, now).refresh
  {
    if entries != [] {
      RefreshesIffStale(realPath, current, entries[1..], rows, now);
      var first := EntryRefresh(realPath, current, entries[0], rows, now);
      assert Refreshes(realPath, current, entries, rows, now) == first + Refreshes(realPath, current, entries[1..], rows, now);
      assert first == [] <==> !(entries[0].stat.Some? && EntryInfo(realPath, current, entries[0], rows, now).refresh);
      forall i | 1 <= i < |entries| ensures entries[i] == entries[1..][i - 1] { }
    }
  }

  /** Every entry that stats and is stale has its refresh requested, whether or not another
      entry fails to stat. */
  lemma {:induction false} RefreshesComplete(realPath: string, current: string, entries: seq<DirEntry>, rows: FileIndexer.Table, now: int, i: int)
    requires 0 <= i < |entries| && entries[i].stat.Some? && EntryInfo(realPath, current, entries[i], rows, now).refresh
    ensures Refresh(Join(realPath, entries[i].name), EntryInfo(realPath, current, entries[i], rows, now).info.path)
            in Refreshes(realPath, current, entries, rows, now)
  {
    assert Refreshes(realPath, current, entries, rows, now)
        == EntryRefresh(realPath, current, entries[0], rows, now) + Refreshes(realPath, current, entries[1..], rows, now);
    if i > 0 {
      assert entries[i] == entries[1..][i - 1];
      RefreshesComplete(realPath, current, entries[1..], rows, now, i - 1);
    }
  }

  /** The records and refresh requests of a listing, `None` when some entry fails to stat
      (`Promise.all` rejects and the route answers 500). */
  function EntryInfos(realPath: string, current: string, entries: seq<DirEntry>, rows: FileIndexer.Table, now: int): Option<Listed> {
    if AllStat(entries) then
      Some(Listed(seq(|entries|, i requires 0 <= i < |entries| => EntryInfo(realPath, current, entries[i], rows, now).info),
                  Refreshes(realPath, current, entries, rows, now)))
    else None
  }

  /** A listing fails exactly when some entry fails to stat; otherwise it holds one record per
      entry, in entry order, each the entry's `getFileInfo`. */
  lemma EntryInfosSpec(realPath: string, current: string, entries: seq<DirEntry>, rows: FileIndexer.Table, now: int)
    ensures var r := EntryInfos(realPath, current, entries, rows, now);
      && (r.None? <==> exists i :: 0 <= i < |entries| && entries[i].stat.None?)
      && (r.Some? ==> |r.value.infos| == |entries|)
      && (r.Some? ==> forall i :: 0 <= i < |entries| ==>
                        entries[i].stat.Some? && r.value.infos[i] == EntryInfo(realPath, current, entries[i], rows, now).info)
  {
  }

  /** What the route reads besides the request: the path registry, the working directory,
      the filesystem, the `file_metadata` table and the clock. */
  datatype Server = Server(
    reg: Registry,
    cwd: string,
    fs: Fs,
    rows: FileIndexer.Table,
    now: int)

  /** A request: the token's user (`None` without a valid token), the `path` parameter and
      the other listing parameters. */
  datatype Request = Request(username: Option<string>, path: Option<string>, q: Query)

  /** The filter stages the query asks for, with the route's defaults. */
  function FilterQuery(infos: seq<FileInfo>, q: Query): seq<FileInfo> {
    Filtered(infos, OrDefault(q.search, ""), ParseType(OrDefault(q.fileType, "all")),
             OrDefault(q.extension, ""), ParseSizeRange(OrDefault(q.sizeRange, "all")))
  }

  /** The response and the filesystem after the request. */
  datatype Outcome = Outcome(response: Response, fs: Fs)

  /** The filesystem after the request: changed only when a path was resolved for listing,
      and then only when the directory creation succeeds. */
  function FsAfter(fs: Fs, d: RouteDecision, now: int): Fs {
    if d.ListAt? && Materialise(fs, d.realPath, d.ensureDir, d.branch, now).Some?
    then Materialise(fs, d.realPath, d.ensureDir, d.branch, now).value
    else fs
  }

  /** The outcome before the page is sorted: the errors, the two special listings, or the
      filtered page still in directory order, with the directories the request created. */
  function Prepare(srv: Server, req: Request): Outcome
  {
    var d := Route(srv.reg, srv.cwd, req.username, req.path);
    var fs := FsAfter(srv.fs, d, srv.now);
    var response :=
      match d
      case InvalidPath => Error(400)
      case StatsEmpty => Stats
      case Unauthenticated => Error(401)
      case AdminRoot => UserFolders(AdminRootListing(srv.reg.users, srv.now))
      case NoCustomPath => Error(404)
      case ConversionError => Error(500)
      case ListAt(realPath, ensureDir, branch) =>
        if Materialise(srv.fs, realPath, ensureDir, branch, srv.now).None? then Error(if branch == RootBranch then 404 else 500)
        else ListDirectory(srv, req, realPath, fs);
    Outcome(response, fs)
  }

  /** The listing of an existing path: 404 when it is missing, 400 when it is not a
      directory, 500 when `readdir` or an entry's `stat` fails, and the filtered page. */
  function ListDirectory(srv: Server, req: Request, realPath: string, fs: Fs): Response
  {
    if realPath !in fs then Error(404)
    else
      match fs[realPath]
      case NotADirectory => Error(400)
      case UnreadableDir => Error(500)
      case Directory(entries) =>
        var current := OrDefault(req.path, "/");
        match EntryInfos(realPath, current, entries, srv.rows, srv.now)
        case None => StatFailed(Refreshes(realPath, current, entries, srv.rows, srv.now))
        case Some(Listed(infos, refreshes)) =>
          var page := ParseIntOr(req.q.page, 1);
          var limit := ParseIntOr(req.q.limit, 100);
          var skip := (page - 1) * limit;
          var filtered := FilterQuery(infos, req.q);
          Page(Slice(filtered, skip, skip + limit), |filtered|, page, limit, CeilDiv(|filtered|, limit), refreshes)
  }

  /** The comparator the query asks for: `sortBy || 'name'`, `sortOrder || 'asc'`. */
  function OrderOf(q: Query): Order {
    Order(ParseSortKey(OrDefault(q.sortBy, "name")), OrDefault(q.sortOrder, "asc") == "asc")
  }

  /** The route's outcome: `Prepare` with the page sorted. */
  function Respond(srv: Server, req: Request): Outcome
  {
    var o := Prepare(srv, req);
    if o.response.Page? then o.(response := o.response.(files := SortPage(o.response.files, OrderOf(req.q)))) else o
  }

  /** A request only adds directories: the directory the resolver ensures and its missing
      parents, and the listed path itself. An existing path changes only by listing the
      directories created in it, and only when it is one of those parents or the parent of
      the listed path. */
  lemma OnlyCreatesDirectories(srv: Server, req: Request)
    ensures var d := Route(srv.reg, srv.cwd, req.username, req.path);
      var after := Prepare(srv, req).fs;
      && (forall p :: p in srv.fs ==> p in after && Grows(srv.fs[p], after[p], srv.now))
      && (forall p :: p in srv.fs && after[p] != srv.fs[p] ==>
            d.ListAt? && (p == Dirname(d.realPath) || (d.ensureDir.Some? && p in Ancestors(d.ensureDir.value))))
      && (forall p :: p in after && p !in srv.fs ==>
            && Grows(Directory([]), after[p], srv.now) && d.ListAt?
            && (p == d.realPath || (d.ensureDir.Some? && p in Ancestors(d.ensureDir.value))))
  {
    var d := Route(srv.reg, srv.cwd, req.username, req.path);
    assert Prepare(srv, req).fs == FsAfter(srv.fs, d, srv.now);
    if d.ListAt? && Materialise(srv.fs, d.realPath, d.ensureDir, d.branch, srv.now).Some? {
      MaterialiseOnlyCreates(srv.fs, d.realPath, d.ensureDir, d.branch, srv.now);
    }
  }

  lemma MaterialiseOnlyCreates(fs: Fs, realPath: string, ensureDir: Option<string>, branch: Branch, now: int)
    requires Materialise(fs, realPath, ensureDir, branch, now).Some?
    ensures var after := Materialise(fs, realPath, ensureDir, branch, now).value;
      && (forall p :: p in fs ==> p in after && Grows(fs[p], after[p], now))
      && (forall p :: p in fs && after[p] != fs[p] ==>
            p == Dirname(realPath) || (ensureDir.Some? && p in Ancestors(ensureDir.value)))
      && (forall p :: p in after && p !in fs ==>
            Grows(Directory([]), after[p], now) && (p == realPath || (ensureDir.Some? && p in Ancestors(ensureDir.value))))
  {
    var f := if ensureDir.Some? then EnsureDir(fs, ensureDir.value, now).value else fs;
    var after := Materialise(fs, realPath, ensureDir, branch, now).value;
    var parent := Dirname(realPath);
    if branch == OtherBranch && realPath !in f && parent in f && IsDir(f[parent]) {
      AddDirGrows(f, realPath, now);
      forall p | p in fs ensures Grows(fs[p], after[p], now) {
        GrowsTrans(fs[p], f[p], after[p], now);
      }
      forall p | p in after && p !in fs && p != realPath ensures Grows(Directory([]), after[p], now) {
        GrowsTrans(Directory([]), f[p], after[p], now);
      }
    }
  }

  // ---------------------------------------------------------------------------------------
  // A filesystem whose directories list their children

  /** The name `n` is among the entries. */
  predicate ListsName(es: seq<DirEntry>, n: string) {
    exists i :: 0 <= i < |es| && es[i].name == n
  }

  /** `p`'s parent exists, is a directory, and lists `p` when it can be read. */
  predicate ParentLists(fs: Fs, p: string) {
    && Dirname(p) in fs && IsDir(fs[Dirname(p)])
    && (fs[Dirname(p)].Directory? ==> ListsName(fs[Dirname(p)].entries, Basename(p)))
  }

  /** Every path other than a `dirname` fixpoint is listed by its parent directory. */
  predicate WellFormed(fs: Fs) {
    forall p :: p in fs && |Dirname(p)| < |p| ==> ParentLists(fs, p)
  }

  /** Creating a directory under an existing directory keeps every path listed by its
      parent, the new one included. */
  lemma AddDirWellFormed(fs: Fs, p: string, now: int)
    requires WellFormed(fs) && p !in fs
    requires |Dirname(p)| < |p| ==> Dirname(p) in fs && IsDir(fs[Dirname(p)])
    ensures WellFormed(AddDir(fs, p, now))
  {
    var r := AddDir(fs, p, now);
    var parent := Dirname(p);
    forall q | q in r && |Dirname(q)| < |q| ensures ParentLists(r, q) {
      if q == p {
        if fs[parent].Directory? {
          var es := fs[parent].entries + [NewDirEntry(Basename(p), now)];
          assert es[|es| - 1].name == Basename(p);
        }
      } else {
        assert ParentLists(fs, q);
        var pq := Dirname(q);
        assert pq != p;
        if pq == parent && fs[parent].Directory? {
          var i :| 0 <= i < |fs[parent].entries| && fs[parent].entries[i].name == Basename(q);
          var es := fs[parent].entries + [NewDirEntry(Basename(p), now)];
          assert es[i].name == Basename(q);
        }
      }
    }
  }

  /** `ensureDir` keeps every path listed by its parent. */
  lemma {:induction false} EnsureDirWellFormed(fs: Fs, d: string, now: int)
    requires WellFormed(fs)
    ensures EnsureDir(fs, d, now).Some? ==> WellFormed(EnsureDir(fs, d, now).value)
    decreases |d|
  {
    if d !in fs {
      var parent := Dirname(d);
      if |parent| < |d| {
        EnsureDirWellFormed(fs, parent, now);
        var f := EnsureDir(fs, parent, now);
        if f.Some? {
          assert d !in f.value;
          AddDirWellFormed(f.value, d, now);
        }
      } else {
        AddDirWellFormed(fs, d, now);
      }
    }
  }

  /** The directory creation of a listing keeps every path listed by its parent. */
  lemma MaterialiseWellFormed(fs: Fs, realPath: string, ensureDir: Option<string>, branch: Branch, now: int)
    requires WellFormed(fs)
    ensures Materialise(fs, realPath, ensureDir, branch, now).Some? ==>
      WellFormed(Materialise(fs, realPath, ensureDir, branch, now).value)
  {
    if ensureDir.Some? {
      EnsureDirWellFormed(fs, ensureDir.value, now);
    }
    var ensured := if ensureDir.Some? then EnsureDir(fs, ensureDir.value, now) else Some(fs);
    if ensured.Some? {
      var f := ensured.value;
      if branch == OtherBranch && realPath !in f && Dirname(realPath) in f && IsDir(f[Dirname(realPath)]) {
        AddDirWellFormed(f, realPath, now);
      }
    }
  }

  /** A request keeps every path listed by its parent: a directory it creates shows up in
      the listing of the directory that holds it. */
  lemma RequestKeepsWellFormed(srv: Server, req: Request)
    requires WellFormed(srv.fs)
    ensures WellFormed(Respond(srv, req).fs)
  {
    var d := Route(srv.reg, srv.cwd, req.username, req.path);
    assert Respond(srv, req).fs == FsAfter(srv.fs, d, srv.now);
    if d.ListAt? {
      MaterialiseWellFormed(srv.fs, d.realPath, d.ensureDir, d.branch, srv.now);
    }
  }

  /** The admin's first listing: with the working directory `/srv` empty, `ensureDir` of
      `/srv/admin_dashboard` creates it and `/srv` then lists it. */
  lemma AdminDashboardCreated(now: int)
    ensures EnsureDir(map["/srv" := Directory([])], "/srv/admin_dashboard", now)
         == Some(map["/srv" := Directory([NewDirEntry("admin_dashboard", now)]),
                     "/srv/admin_dashboard" := Directory([])])
  {
    AdminDashboardStep(now);
    AdminDashboardAdded(now);
  }

  /** The listing of `/srv` with the default query after that creation: one record, the
      folder `admin_dashboard`. */
  lemma AdminDashboardListed(srv: Server, req: Request)
    requires srv.fs == map["/srv" := Directory([NewDirEntry("admin_dashboard", srv.now)]),
                           "/srv/admin_dashboard" := Directory([])]
    requires req.q == Query(None, None, None, None, None, None, None, None)
    ensures var r := ListDirectory(srv, req, "/srv", srv.fs);
      && r.Page? && r.total == 1 && |r.files| == 1
      && r.files[0].name == "admin_dashboard" && r.files[0].isFolder
  {
    assert "/srv" in srv.fs && srv.fs["/srv"] == Directory([NewDirEntry("admin_dashboard", srv.now)]);
    assert IsEntryName("admin_dashboard") by {
      assert forall k :: 0 <= k < |"admin_dashboard"| ==> "admin_dashboard"[k] != '/';
    }
    SingleSubdirListed(srv, req, "/srv", "admin_dashboard", srv.fs);
  }

  /** A directory whose only entry is a directory created at the current time is listed by
      the default query as that one folder. */
  lemma SingleSubdirListed(srv: Server, req: Request, realPath: string, name: string, fs: Fs)
    requires realPath in fs && fs[realPath] == Directory([NewDirEntry(name, srv.now)]) && IsEntryName(name)
    requires req.q == Query(None, None, None, None, None, None, None, None)
    ensures var r := ListDirectory(srv, req, realPath, fs);
      && r.Page? && r.total == 1 && |r.files| == 1
      && r.files[0].name == name && r.files[0].isFolder
  {
    var e := NewDirEntry(name, srv.now);
    var current := OrDefault(req.path, "/");
    assert AllStat([e]);
    var infos := EntryInfos(realPath, current, [e], srv.rows, srv.now).value.infos;
    assert infos == [EntryInfo(realPath, current, e, srv.rows, srv.now).info];
    BasenameOfJoin(realPath, name);
    DefaultQueryKeepsAll(infos, req.q);
    assert ParseIntOr(req.q.page, 1) == 1 && ParseIntOr(req.q.limit, 100) == 100;
  }

  /** The default query filters nothing out. */
  lemma DefaultQueryKeepsAll(infos: seq<FileInfo>, q: Query)
    requires q == Query(None, None, None, None, None, None, None, None)
    ensures FilterQuery(infos, q) == infos
  {
  }

  lemma AdminDashboardStep(now: int)
    ensures var fs: Fs := map["/srv" := Directory([])];
      EnsureDir(fs, "/srv/admin_dashboard", now) == Some(AddDir(fs, "/srv/admin_dashboard", now))
  {
    DirnameOfChild("/srv", "admin_dashboard");
    assert "/srv/admin_dashboard" == "/srv" + "/" + "admin_dashboard";
    EnsureDirOneLevel(map["/srv" := Directory([])], "/srv/admin_dashboard", now);
  }

  /** Under an existing directory, `ensureDir` is a single `mkdir`. */
  lemma EnsureDirOneLevel(fs: Fs, d: string, now: int)
    requires d !in fs && |Dirname(d)| < |d| && Dirname(d) in fs && IsDir(fs[Dirname(d)])
    ensures EnsureDir(fs, d, now) == Some(AddDir(fs, d, now))
  {
    assert EnsureDir(fs, Dirname(d), now) == Some(fs);
  }

  lemma AdminDashboardAdded(now: int)
    ensures AddDir(map["/srv" := Directory([])], "/srv/admin_dashboard", now)
         == map["/srv" := Directory([NewDirEntry("admin_dashboard", now)]),
                "/srv/admin_dashboard" := Directory([])]
  {
    DirnameOfChild("/srv", "admin_dashboard");
    assert "/srv/admin_dashboard" == "/srv" + "/" + "admin_dashboard";
    AdminDashboardName();
    AddUnderEmpty("/srv", "/srv/admin_dashboard", "admin_dashboard", now);
  }

  /** Creating `d` in the only, empty, directory `parent`. */
  lemma AddUnderEmpty(parent: string, d: string, name: string, now: int)
    requires Dirname(d) == parent && |parent| < |d| && Basename(d) == name
    ensures AddDir(map[parent := Directory([])], d, now)
         == map[parent := Directory([NewDirEntry(name, now)]), d := Directory([])]
  {
    var fs: Fs := map[parent := Directory([])];
    var listed := Directory([] + [NewDirEntry(name, now)]);
    assert AddDir(fs, d, now) == fs[d := Directory([])][parent := listed];
    assert listed == Directory([NewDirEntry(name, now)]);
    var expected := map[parent := listed, d := Directory([])];
    assert fs[d := Directory([])][parent := listed].Keys == expected.Keys;
  }

  lemma AdminDashboardName()
    ensures Basename("/srv/admin_dashboard") == "admin_dashboard"
  {
    var n := "admin_dashboard";
    assert IsEntryName(n) by {
      assert forall k :: 0 <= k < |n| ==> n[k] != '/';
    }
    assert "/srv/admin_dashboard" == "/srv" + "/" + n;
    BasenameOfChild("/srv", n);
  }

  /** The last component of `a/n` is `n`. */
  lemma BasenameOfChild(a: string, n: string)
    requires a != "" && a[|a| - 1] != '/' && IsEntryName(n)
    ensures Basename(a + "/" + n) == n
  {
    BasenameOfJoin(a, n);
    JoinName(a, n);
  }

  /** When the resolver's `fs.ensureDir` throws, nothing is created, and the route answers
      500 (404 for a user's root). */
  lemma EnsureDirFailureAnswers(srv: Server, req: Request)
    requires var d := Route(srv.reg, srv.cwd, req.username, req.path);
      d.ListAt? && d.ensureDir.Some? && EnsureDir(srv.fs, d.ensureDir.value, srv.now).None?
    ensures var d := Route(srv.reg, srv.cwd, req.username, req.path);
      && Prepare(srv, req).fs == srv.fs
      && Prepare(srv, req).response == Error(if d.branch == RootBranch then 404 else 500)
  {
  }

  /** A path that is missing (and not created by the request) is answered with 404, one that
      is not a directory with 400, without listing anything. */
  lemma ListingErrors(srv: Server, req: Request, realPath: string, fs: Fs)
    ensures realPath !in fs ==> ListDirectory(srv, req, realPath, fs) == Error(404)
    ensures realPath in fs && fs[realPath].NotADirectory? ==> ListDirectory(srv, req, realPath, fs) == Error(400)
    ensures realPath in fs && fs[realPath] == Directory([]) ==>
      ListDirectory(srv, req, realPath, fs).Page? && ListDirectory(srv, req, realPath, fs).files == []
      && ListDirectory(srv, req, realPath, fs).total == 0
  {
  }

  /** When one entry fails to stat the listing answers 500, and it still requests the
      refreshes of the stale entries that did stat. */
  lemma StatFailureRefreshes(srv: Server, req: Request, realPath: string, fs: Fs, i: int)
    requires realPath in fs && fs[realPath].Directory?
    requires 0 <= i < |fs[realPath].entries| && fs[realPath].entries[i].stat.None?
    ensures var entries, current := fs[realPath].entries, OrDefault(req.path, "/");
      && ListDirectory(srv, req, realPath, fs) == StatFailed(Refreshes(realPath, current, entries, srv.rows, srv.now))
      && (forall k :: 0 <= k < |entries| && entries[k].stat.Some? && EntryInfo(realPath, current, entries[k], srv.rows, srv.now).refresh ==>
            Refresh(Join(realPath, entries[k].name), EntryInfo(realPath, current, entries[k], srv.rows, srv.now).info.path)
            in ListDirectory(srv, req, realPath, fs).refreshes)
  {
    var entries, current := fs[realPath].entries, OrDefault(req.path, "/");
    assert !AllStat(entries);
    forall k | 0 <= k < |entries| && entries[k].stat.Some? && EntryInfo(realPath, current, entries[k], srv.rows, srv.now).refresh
      ensures Refresh(Join(realPath, entries[k].name), EntryInfo(realPath, current, entries[k], srv.rows, srv.now).info.path)
              in Refreshes(realPath, current, entries, srv.rows, srv.now)
    {
      RefreshesComplete(realPath, current, entries, srv.rows, srv.now, k);
    }
  }

  /** A directory the indexer has just written is listed with the size it computed, and no
      refresh is requested for it for a day. */
  lemma ListedAfterIndexing(p: string, v: string, parent: Option<string>, node: FileIndexer.Node,
                            old_rows: FileIndexer.Table, stat: Stat, rel: string, current: string, t: int, now: int)
    requires node.Dir? && stat.isDir && t <= now <= t + Day
    ensures var r := GetFileInfo(p, rel, current, stat,
                                 CachedRow(old_rows + FileIndexer.Writes(p, v, parent, node, t), p), now);
      r.info.size == Some(FileIndexer.Total(node)) && !r.refresh
  {
    var w := FileIndexer.Writes(p, v, parent, node, t);
    FileIndexer.IndexedRow(p, v, parent, node, t);
    var row := w[p];
    MergedRow(old_rows, w, p);
    DirectoryRowInfo(row, p, rel, current, stat, t, now);
  }

  /** A key the new rows hold is looked up there, whatever the old rows held. */
  lemma MergedRow(old_rows: FileIndexer.Table, w: FileIndexer.Table, p: string)
    requires p in w
    ensures CachedRow(old_rows + w, p) == Some(w[p])
  {
  }

  /** A directory whose row has a size and was written within the day is listed with that
      size and needs no refresh. */
  lemma DirectoryRowInfo(row: FileIndexer.MetaRow, filePath: string, rel: string, current: string, stat: Stat, t: int, now: int)
    requires stat.isDir && row.size.Some? && row.lastIndexed == Some(t) && t <= now <= t + Day
    ensures var r := GetFileInfo(filePath, rel, current, stat, Some(row), now);
      r.info.size == row.size && !r.refresh
  {
  }

  /** `w` is the window of `s` that starts at `skip` and holds at most `limit` records: the
      records from `skip` on while there are any, and nothing once `skip` is past the end. */
  predicate IsWindow(s: seq<FileInfo>, w: seq<FileInfo>, skip: int, limit: int) {
    && skip >= 0 && limit >= 1 && |w| <= limit
    && (skip < |s| ==> w == s[skip..if skip + limit <= |s| then skip + limit else |s|])
    && (skip >= |s| ==> w == [])
  }

  /** The page arithmetic: `total` counts the filtered records before slicing, the page is the
      window of at most `limit` of them that starts at `(page - 1) * limit` (for a positive
      limit), and `totalPages` is `ceil(total / limit)`. */
  lemma PageBounds(filtered: seq<FileInfo>, page: int, limit: int)
    requires page >= 1 && limit >= 1
    ensures var skip := (page - 1) * limit;
      IsWindow(filtered, Slice(filtered, skip, skip + limit), skip, limit)
    ensures (CeilDiv(|filtered|, limit) - 1) * limit < |filtered| <= CeilDiv(|filtered|, limit) * limit
  {
    var skip := (page - 1) * limit;
    MulNonNegative(page - 1, limit);
    SliceWindow(filtered, skip, limit);
  }

  lemma MulNonNegative(a: int, b: int)
    requires a >= 0 && b >= 0
    ensures a * b >= 0
  {
  }

  /** `slice(skip, skip + limit)` cuts the window at `skip`. */
  lemma SliceWindow(s: seq<FileInfo>, skip: int, limit: int)
    requires skip >= 0 && limit >= 1
    ensures IsWindow(s, Slice(s, skip, skip + limit), skip, limit)
  {
  }

  /** `parseInt(limit) || 100` keeps a negative limit. The first page is then every record but
      the last `-limit`, and `totalPages` is not positive. */
  lemma NegativeLimitFirstPage(filtered: seq<FileInfo>, limit: int)
    requires limit < 0
    ensures Slice(filtered, 0, limit) == (if |filtered| + limit > 0 then filtered[..|filtered| + limit] else [])
    ensures CeilDiv(|filtered|, limit) <= 0
  {
  }

  /** With a negative limit every page after the first is empty. */
  lemma NegativeLimitLaterPages(filtered: seq<FileInfo>, page: int, limit: int)
    requires limit < 0 && page >= 2
    ensures var skip := (page - 1) * limit;
      Slice(filtered, skip, skip + limit) == []
  {
    var skip := (page - 1) * limit;
    assert skip <= limit by {
      assert (page - 1) * limit == limit + (page - 2) * limit;
      MulNonNegative(page - 2, -limit);
    }
  }

  /** `parseInt(page) || 1` keeps a negative page. With a positive limit, page `-k` is the window
      that ends `k * limit` records before the end. */
  lemma NegativePageFromEnd(filtered: seq<FileInfo>, page: int, limit: int)
    requires page <= -1 && limit >= 1 && |filtered| + (page - 1) * limit >= 0
    ensures var skip := (page - 1) * limit;
      Slice(filtered, skip, skip + limit) == filtered[|filtered| + (page - 1) * limit..|filtered| + page * limit]
  {
    var skip := (page - 1) * limit;
    assert skip + limit == page * limit;
    assert page * limit < 0 by {
      MulNonNegative(-page - 1, limit);
      assert page * limit == -((-page - 1) * limit) - limit;
    }
  }

  /** A negative page whose window would start before the first record is cut at the start:
      it holds the records before `|filtered| + page * limit`, or none. */
  lemma NegativePagePastStart(filtered: seq<FileInfo>, page: int, limit: int)
    requires page <= -1 && limit >= 1 && |filtered| + (page - 1) * limit < 0
    ensures var skip := (page - 1) * limit;
      Slice(filtered, skip, skip + limit) == (if |filtered| + page * limit > 0 then filtered[..|filtered| + page * limit] else [])
  {
    var skip := (page - 1) * limit;
    assert skip + limit == page * limit;
    assert page * limit < 0 by {
      MulNonNegative(-page - 1, limit);
      assert page * limit == -((-page - 1) * limit) - limit;
    }
  }

  /** With a negative page and a negative limit both slice bounds are positive and the start
      lies past the end, so the page is empty. */
  lemma NegativePageNegativeLimit(filtered: seq<FileInfo>, page: int, limit: int)
    requires page <= -1 && limit < 0
    ensures var skip := (page - 1) * limit;
      Slice(filtered, skip, skip + limit) == []
  {
    var skip := (page - 1) * limit;
    assert skip + limit == page * limit;
    assert page * limit > 0 by {
      MulNonNegative(-page - 1, -limit);
      assert page * limit == (-page - 1) * (-limit) - limit;
    }
  }

  /** Only the page is sorted: the listed page is a permutation of the slice it was cut from,
      with its folders first, and sorted by the requested key whenever that key compares its
      records consistently; the counts are those of the unsorted listing. */
  lemma PageSorted(srv: Server, req: Request)
    requires Prepare(srv, req).response.Page?
    ensures var before := Prepare(srv, req).response;
      var after := Respond(srv, req).response;
      after.Page? && multiset(after.files) == multiset(before.files)
      && after.total == before.total && after.totalPages == before.totalPages
      && after.refreshes == before.refreshes
      && FoldersFirst(after.files)
      && (Consistent(before.files, OrderOf(req.q)) ==> SortedBy(after.files, OrderOf(req.q)))
  {
    var before := Prepare(srv, req).response;
    SortPermutes(before.files, OrderOf(req.q));
    SortFoldersFirst(before.files, OrderOf(req.q));
    if Consistent(before.files, OrderOf(req.q)) {
      SortSorted(before.files, OrderOf(req.q), before.files);
    }
  }

  /** `GET /api/files`: the response to a request. The page is copied into an array and
      sorted in place, as the route sorts `filteredFileInfos`. */
  method ListFiles(srv: Server, req: Request) returns (r: Outcome)
    ensures r == Respond(srv, req)
  {
    r := Prepare(srv, req);
    if r.response.Page? {
      var page := r.response.files;
      var filteredFileInfos := new FileInfo[|page|](i requires 0 <= i < |page| => page[i]);
      assert filteredFileInfos[..] == page;
      SortInPlace(filteredFileInfos, OrderOf(req.q));
      r := r.(response := r.response.(files := filteredFileInfos[..]));
    }
  }
}
