/** `server/utils/fileUtils.ts`: the virtual-to-physical resolver the listing route uses, the
    virtual path `getFileInfo` gives a directory entry, and the extension categories. */
module FileUtils {
  import opened Wrappers
  import opened Strings
  import opened NodePath
  import opened UserPath

  /** The initial administrator account, which has no registry entry of its own. */
  const AdminName: string := "admin"

  /** The directory `path.join(process.cwd(), 'admin_dashboard')` the administrator browses. */
  function AdminDashboard(cwd: string): (r: string)
    ensures StartsWith(r, cwd)
  {
    Join(cwd, "admin_dashboard")
  }

  /** The characters JavaScript's `.` does not match. */
  predicate IsLineTerminator(c: char) {
    c == '\n' || c == '\r' || c as int == 0x2028 || c as int == 0x2029
  }

  predicate NoLineTerminator(s: string) {
    forall k :: 0 <= k < |s| ==> !IsLineTerminator(s[k])
  }

  /** `virtualPath.match(/^\/([^\/]+)(?:\/(.*))?$/)`: the first component after a leading `/`
      and the sub-path after it, `userPathMatch[2] || ''` already applied. */
  function UserSegment(v: string): (r: Option<(string, string)>)
    ensures r.Some? ==> IsEntryName(r.value.0)
    ensures r.Some? ==> NoLineTerminator(r.value.1)
    ensures r.Some? ==> v == "/" + r.value.0 + "/" + r.value.1 || (r.value.1 == "" && v == "/" + r.value.0)
  {
    if v == "" || v[0] != '/' then None
    else
      var i := IndexOfFrom(v, '/', 1);
      assert forall j :: 0 <= j < i - 1 ==> v[1..i][j] == v[j + 1];
      if i == 1 then None
      else if i == |v| then Some((v[1..], ""))
      else if NoLineTerminator(v[i + 1..]) then
        assert v == "/" + v[1..i] + "/" + v[i + 1..];
        Some((v[1..i], v[i + 1..]))
      else None
  }

  /** The pattern matches exactly the two shapes `/{name}` and `/{name}/{rest}`, where `name`
      has no separator and `rest` no line terminator. */
  lemma UserSegmentMatches(t: string, s: string)
    requires IsEntryName(t)
    ensures UserSegment("/" + t) == Some((t, ""))
    ensures NoLineTerminator(s) ==> UserSegment("/" + t + "/" + s) == Some((t, s))
    ensures !NoLineTerminator(s) ==> UserSegment("/" + t + "/" + s) == None
  {
    var v := "/" + t + "/" + s;
    assert forall j :: 1 <= j < |t| + 1 ==> v[j] == t[j - 1];
    assert forall j :: 1 <= j < |t| + 1 ==> ("/" + t)[j] == t[j - 1];
    assert forall j :: 1 <= j < |t| + 1 ==> v[j] != '/' by {
      forall j | 1 <= j < |t| + 1 ensures v[j] != '/' {
        assert t[j - 1] in t;
      }
    }
    assert v[|t| + 1] == '/';
    assert IndexOfFrom(v, '/', 1) == |t| + 1;
    assert IndexOfFrom("/" + t, '/', 1) == |t| + 1;
    assert v[1..|t| + 1] == t && v[|t| + 2..] == s;
    assert ("/" + t)[1..] == t;
  }

  /** Why a resolution fails; each is a thrown `Error` in the source. */
  datatype Failure = NoHomeMapping | SpecialRoute | Forbidden | NotFound

  /** A resolved physical path with the directory `fs.ensureDir` is asked to create, or a failure. */
  datatype Resolution = Resolved(path: string, ensureDir: Option<string>) | Failed(reason: Failure)

  /** JavaScript truthiness of `string | null`: null and the empty string are both falsy. */
  predicate Truthy(o: Option<string>) {
    o.Some? && o.value != ""
  }

  /** `UserPathModel.getRealPath(u, '/' + u)`: the real folder behind a user's home prefix. */
  function HomeOf(reg: Registry, name: string): Option<string> {
    GetRealPath(reg, name, HomePath(name))
  }

  /** `subPath ? path.join(base, subPath) : base`. */
  function JoinSub(base: string, sub: string): (r: string)
    ensures StartsWith(r, base)
  {
    if sub != "" then Join(base, sub) else base
  }

  /** `/^[a-zA-Z]:\\/` or `/^[a-zA-Z]:\//`. */
  predicate IsDrivePath(v: string) {
    |v| >= 3 && IsAsciiLetter(v[0]) && v[1] == ':' && (v[2] == '\\' || v[2] == '/')
  }

  /** `v.replace(/^\//, '')`. */
  function StripOneLeadingSlash(v: string): (r: string)
    ensures v != "" && v[0] == '/' ==> v == "/" + r
  {
    if v != "" && v[0] == '/' then v[1..] else v
  }

  /** The directory `getPhysicalPath` ensures for a resolved `finalPath`: the path itself for a
      virtual path ending in `/` or without an extension, its parent otherwise. */
  function EnsureTarget(v: string, finalPath: string): string {
    if EndsWith(v, "/") || Extname(v) == "" then finalPath else Dirname(finalPath)
  }

  /** The user's own namespace: `/` and `/{u}` are the home, `/{u}/rest` is joined onto it, any
      other path goes through the registry's general lookup. */
  function OwnNamespacePath(reg: Registry, username: string, home: string, v: string): Option<string> {
    if v == HomePath(username) || v == "/" then Some(home)
    else if StartsWith(v, HomePath(username) + "/") then Some(Join(home, v[|username| + 2..]))
    else
      var r := GetRealPath(reg, username, v);
      if Truthy(r) then r else None
  }

  /** `getPhysicalPath(username, virtualPath)` of `fileUtils.ts`, with the current directory of
      the process as `cwd`. */
  function GetPhysicalPath(reg: Registry, cwd: string, username: string, v: string): (r: Resolution)
    ensures username == AdminName ==> r.Resolved? && r.ensureDir == Some(AdminDashboard(cwd))
  {
    if username == AdminName then
      var adminPath := AdminDashboard(cwd);
      if v == "/" || v == "/all" then Resolved(adminPath, Some(adminPath))
      else
        var seg := UserSegment(v);
        if seg.Some? && seg.value.0 != AdminName && Truthy(HomeOf(reg, seg.value.0)) then
          Resolved(JoinSub(HomeOf(reg, seg.value.0).value, seg.value.1), Some(adminPath))
        else Resolved(Join(adminPath, StripOneLeadingSlash(v)), Some(adminPath))
    else if IsDrivePath(v) then
      Resolved(ReplaceAll(ReplaceAll(v, '/', Sep), '\\', Sep), None)
    else UserPhysicalPath(reg, username, v)
  }

  /** The resolution of a non-administrator's path that is not a drive path: a home mapping
      is required, `/stats` is refused, `/{other}/rest` goes to `other`'s home and the rest of
      the caller's namespace to their own. */
  function UserPhysicalPath(reg: Registry, username: string, v: string): Resolution {
    var home := HomeOf(reg, username);
    if !Truthy(home) then Failed(NoHomeMapping)
    else if v == "/stats" then Failed(SpecialRoute)
    else
      var seg := UserSegment(v);
      if seg.Some? && seg.value.0 != username then
        var other := HomeOf(reg, seg.value.0);
        if Truthy(other) then Resolved(JoinSub(other.value, seg.value.1), None)
        else Failed(Forbidden)
      else
        match OwnNamespacePath(reg, username, home.value, v)
        case None => Failed(NotFound)
        case Some(p) => Resolved(p, Some(EnsureTarget(v, p)))
  }

  /** For the administrator, `/` and `/all` are the dashboard folder itself, `/{u}/rest` of
      another user with a home is joined onto that home, and every other path is joined onto the
      dashboard with one leading `/` removed. */
  lemma AdminResolution(reg: Registry, cwd: string, v: string)
    ensures var r := GetPhysicalPath(reg, cwd, AdminName, v);
      var seg := UserSegment(v);
      if v == "/" || v == "/all" then r.path == AdminDashboard(cwd)
      else if seg.Some? && seg.value.0 != AdminName && Truthy(HomeOf(reg, seg.value.0)) then
        r.path == JoinSub(HomeOf(reg, seg.value.0).value, seg.value.1)
      else r.path == Join(AdminDashboard(cwd), StripOneLeadingSlash(v))
  {
  }

  /** Apart from other users' homes, everything the administrator resolves lies under the
      dashboard folder. */
  lemma AdminStaysInDashboard(reg: Registry, cwd: string, v: string)
    requires UserSegment(v).None? || UserSegment(v).value.0 == AdminName
    ensures StartsWith(GetPhysicalPath(reg, cwd, AdminName, v).path, AdminDashboard(cwd))
  {
  }

  /** A drive path of a non-administrator is passed through with its separators normalised,
      whatever the registry holds, and nothing is ensured. */
  lemma DrivePathPassThrough(reg: Registry, reg': Registry, cwd: string, username: string, v: string)
    requires username != AdminName && IsDrivePath(v)
    ensures GetPhysicalPath(reg, cwd, username, v) == GetPhysicalPath(reg', cwd, username, v)
    ensures var r := GetPhysicalPath(reg, cwd, username, v);
      r.Resolved? && r.ensureDir.None? && |r.path| == |v| && '\\' !in r.path
      && forall i :: 0 <= i < |v| && v[i] != '\\' ==> r.path[i] == v[i]
  {
    var r := GetPhysicalPath(reg, cwd, username, v);
    assert forall i :: 0 <= i < |r.path| ==> r.path[i] != '\\';
  }

  /** Without a truthy home mapping, every non-drive path of a non-administrator fails; so does
      `/stats` for everyone but the administrator. */
  lemma NonAdminNeedsHome(reg: Registry, cwd: string, username: string, v: string)
    requires username != AdminName && !IsDrivePath(v)
    ensures !Truthy(HomeOf(reg, username)) ==> GetPhysicalPath(reg, cwd, username, v) == Failed(NoHomeMapping)
    ensures GetPhysicalPath(reg, cwd, username, "/stats").Failed?
  {
  }

  /** `/stats` has no separator after its first character. */
  lemma NotStats(v: string, i: int)
    requires 0 < i < |v| && v[i] == '/'
    ensures v != "/stats"
  {
    assert forall k :: 1 <= k < 6 ==> "/stats"[k] != '/';
  }

  /** `/{other}/rest` with `other` not the caller resolves into `other`'s home whenever `other`
      has one, for every caller with a home of their own: no role is consulted. Without a home
      for `other` it fails. */
  lemma CrossUserAccess(reg: Registry, cwd: string, username: string, other: string, rest: string)
    requires username != AdminName && IsEntryName(other) && other != username
    requires NoLineTerminator(rest)
    requires Truthy(HomeOf(reg, username))
    ensures var v := "/" + other + "/" + rest;
      GetPhysicalPath(reg, cwd, username, v) ==
        if Truthy(HomeOf(reg, other)) then Resolved(JoinSub(HomeOf(reg, other).value, rest), None)
        else Failed(Forbidden)
  {
    UserSegmentMatches(other, rest);
    var v := "/" + other + "/" + rest;
    assert v[0] == '/' && v[1] == other[0];
    assert other[0] != '/' by { assert other[0] in other; }
    assert !IsDrivePath(v);
    assert v[|other| + 1] == '/';
    NotStats(v, |other| + 1);
  }

  /** `/` and `/{u}` are the caller's home, and `/{u}/rest` is `join(home, rest)`. These paths
      always resolve and stay under the home folder. */
  lemma OwnHomeResolution(reg: Registry, cwd: string, username: string, v: string)
    requires username != AdminName && IsEntryName(username)
    requires Truthy(HomeOf(reg, username))
    requires v == "/" || v == HomePath(username) || StartsWith(v, HomePath(username) + "/")
    requires !IsDrivePath(v) && v != "/stats"
    ensures var r := GetPhysicalPath(reg, cwd, username, v);
      var home := HomeOf(reg, username).value;
      r.Resolved? && StartsWith(r.path, home) && r.ensureDir == Some(EnsureTarget(v, r.path))
      && (v == "/" || v == HomePath(username) ==> r.path == home)
      && (v != HomePath(username) && StartsWith(v, HomePath(username) + "/") ==>
            r.path == Join(home, v[|username| + 2..]))
  {
    OwnSegment(username, v);
    UserBranch(reg, cwd, username, v);
    OwnNamespaceHome(reg, username, HomeOf(reg, username).value, v);
    OwnBranch(reg, username, v);
  }

  /** `/`, `/{u}` and `/{u}/rest` have no first segment other than `u`. */
  lemma OwnSegment(username: string, v: string)
    requires IsEntryName(username)
    requires v == "/" || v == HomePath(username) || StartsWith(v, HomePath(username) + "/")
    ensures UserSegment(v).None? || UserSegment(v).value.0 == username
  {
    if v == HomePath(username) {
      UserSegmentMatches(username, "");
    } else if v != "/" {
      var rest := v[|username| + 2..];
      assert v == "/" + username + "/" + rest by {
        assert v[..|username| + 2] == "/" + username + "/";
      }
      UserSegmentMatches(username, rest);
    }
  }

  /** A non-administrator's path that is not a drive path goes to `UserPhysicalPath`. */
  lemma UserBranch(reg: Registry, cwd: string, username: string, v: string)
    requires username != AdminName && !IsDrivePath(v)
    ensures GetPhysicalPath(reg, cwd, username, v) == UserPhysicalPath(reg, username, v)
  {
  }

  /** A path of the caller's own namespace that the namespace lookup resolves is resolved to
      that path, with `EnsureTarget` as the directory to create. */
  lemma OwnBranch(reg: Registry, username: string, v: string)
    requires Truthy(HomeOf(reg, username)) && v != "/stats"
    requires UserSegment(v).None? || UserSegment(v).value.0 == username
    requires OwnNamespacePath(reg, username, HomeOf(reg, username).value, v).Some?
    ensures var p := OwnNamespacePath(reg, username, HomeOf(reg, username).value, v).value;
      UserPhysicalPath(reg, username, v) == Resolved(p, Some(EnsureTarget(v, p)))
  {
  }

  /** `/` and `/{u}` name the home itself and `/{u}/rest` is joined onto it, so all of them lie
      under the home. */
  lemma OwnNamespaceHome(reg: Registry, username: string, home: string, v: string)
    requires v == "/" || v == HomePath(username) || StartsWith(v, HomePath(username) + "/")
    ensures var r := OwnNamespacePath(reg, username, home, v);
      r.Some? && StartsWith(r.value, home)
      && (v == "/" || v == HomePath(username) ==> r.value == home)
      && (v != HomePath(username) && v != "/" ==> r.value == Join(home, v[|username| + 2..]))
  {
    if v != "/" && v != HomePath(username) {
      JoinExtends(home, v[|username| + 2..]);
    }
  }

  /** A non-administrator's own resolution ensures the path itself for a directory-looking
      virtual path and its parent for a path with an extension. */
  lemma EnsuredDirectory(reg: Registry, cwd: string, username: string, v: string)
    requires username != AdminName && !IsDrivePath(v)
    requires UserSegment(v).None? || UserSegment(v).value.0 == username
    requires GetPhysicalPath(reg, cwd, username, v).Resolved?
    ensures var r := GetPhysicalPath(reg, cwd, username, v);
      (EndsWith(v, "/") || Extname(v) == "" ==> r.ensureDir == Some(r.path))
      && (!EndsWith(v, "/") && Extname(v) != "" ==> r.ensureDir == Some(Dirname(r.path)))
  {
    UserBranch(reg, cwd, username, v);
    OwnResolved(reg, username, v);
    OwnBranch(reg, username, v);
  }

  /** A resolved path of the caller's own namespace had a home, was not `/stats`, and was
      found by the namespace lookup. */
  lemma OwnResolved(reg: Registry, username: string, v: string)
    requires UserSegment(v).None? || UserSegment(v).value.0 == username
    requires UserPhysicalPath(reg, username, v).Resolved?
    ensures Truthy(HomeOf(reg, username)) && v != "/stats"
    ensures OwnNamespacePath(reg, username, HomeOf(reg, username).value, v).Some?
  {
  }

  /** For `/{u}/rest` splicing onto a home row whose real path has no trailing separator, this
      resolver and the registry's own home step give the same physical path, provided no row
      maps the full virtual path. */
  lemma AgreesWithRegistryHomeSplice(reg: Registry, cwd: string, username: string, rest: string, h: PathRow)
    requires username != AdminName && IsEntryName(username)
    requires GetByUsernameAndVirtualPath(reg, username, HomePath(username)) == Some(h)
    requires h.realPath != "" && h.realPath[|h.realPath| - 1] != '/'
    requires rest != "" && rest[0] != '/'
    requires GetByUsernameAndVirtualPath(reg, username, HomePath(username) + "/" + rest).None?
    requires !IsDrivePath(HomePath(username) + "/" + rest)
    ensures var v := HomePath(username) + "/" + rest;
      GetRealPath(reg, username, v) == Some(h.realPath + "/" + rest)
      && GetPhysicalPath(reg, cwd, username, v).Resolved?
      && GetPhysicalPath(reg, cwd, username, v).path == h.realPath + "/" + rest
  {
    var v := HomePath(username) + "/" + rest;
    HomeRowResolves(reg, username, h);
    SpliceShape(username, rest);
    GetRealPathHomeStep(reg, username, v, h);
    OwnHomeResolution(reg, cwd, username, v);
    JoinOntoName(h.realPath, rest);
  }

  /** A user with a row at their home prefix has that row's real path as their home. */
  lemma HomeRowResolves(reg: Registry, username: string, h: PathRow)
    requires GetByUsernameAndVirtualPath(reg, username, HomePath(username)) == Some(h)
    ensures UserIdByName(reg.users, username).Some?
    ensures HomeOf(reg, username) == Some(h.realPath)
  {
    assert UserRec(h.userId, username) in reg.users;
  }

  /** The shape of `/{u}/rest`: it extends the home prefix by `/rest`, and it is not `/stats`. */
  lemma SpliceShape(username: string, rest: string)
    ensures var v := HomePath(username) + "/" + rest;
      && StartsWith(v, HomePath(username)) && v[|HomePath(username)|..] == "/" + rest
      && StartsWith(v, HomePath(username) + "/") && v[|username| + 2..] == rest
      && v != "/stats"
  {
    var v := HomePath(username) + "/" + rest;
    assert v[..|HomePath(username)|] == HomePath(username);
    assert v[..|username| + 2] == HomePath(username) + "/";
    assert v[|username| + 1] == '/';
    NotStats(v, |username| + 1);
  }

  /** Joining a name onto a directory with no trailing separator puts exactly one separator
      between them. */
  lemma JoinOntoName(d: string, name: string)
    requires d != "" && d[|d| - 1] != '/'
    requires name != "" && name[0] != '/'
    ensures Join(d, name) == d + "/" + name == d + ("/" + name)
  {
    assert StripLeadingSlashes(name) == name;
  }

  /** The `FileInfo` fields that follow from `fs.stat` and the path; the random `id` is not
      modelled. */
  datatype FileInfo = FileInfo(name: string, isFolder: bool, extension: string, size: nat,
                               modified: int, path: string, isFavorite: bool)

  /** The virtual path `getFileInfo` gives an entry at `rel` relative to the listed directory. */
  function ChildVirtualPath(current: string, rel: string): string {
    if current == "/" || current == "/all" then "/" + rel
    else if rel == "" then current
    else (if EndsWith(current, "/") then current else current + "/") + rel
  }

  /** Below the root, a child's virtual path is the current path, exactly one separator, and the
      relative path; at the root it is `/` followed by the relative path. */
  lemma ChildVirtualPathShape(current: string, rel: string)
    ensures current == "/" || current == "/all" ==> ChildVirtualPath(current, rel) == "/" + rel
    ensures current == "" ==> ChildVirtualPath(current, rel) == (if rel == "" then "" else "/" + rel)
    ensures current != "" && current != "/" && current != "/all" && rel != "" ==>
      ChildVirtualPath(current, rel) == DirPrefix(current) + rel
      && StartsWith(ChildVirtualPath(current, rel), current)
      && ChildVirtualPath(current, rel)[|DirPrefix(current)|..] == rel
    ensures current != "/" && current != "/all" && rel == "" ==> ChildVirtualPath(current, rel) == current
  {
    if current != "" && current != "/" && current != "/all" && rel != "" {
      var d := DirPrefix(current);
      assert ChildVirtualPath(current, rel) == d + rel;
      assert (d + rel)[..|current|] == d[..|current|] == current;
      assert (d + rel)[|d|..] == rel;
    }
  }

  /** `getFileInfo(filePath, basePath, currentVirtualPath)` of `fileUtils.ts`, for an entry whose
      `fs.stat` succeeded; `rel` is `path.relative(basePath, filePath)`. */
  function FileInfoOf(filePath: string, isDir: bool, statSize: nat, mtime: int, rel: string, current: string): (r: FileInfo)
    ensures r.isFolder == isDir && r.name == Basename(filePath) && r.modified == mtime && !r.isFavorite
    ensures isDir ==> r.size == 0 && r.extension == ""
    ensures !isDir ==> r.size == statSize
    ensures !isDir && Extname(filePath) == "" ==> r.extension == ""
    ensures !isDir && Extname(filePath) != "" ==> "." + r.extension == ToLower(Extname(filePath))
    ensures r.path == ChildVirtualPath(current, ReplaceAll(rel, '\\', '/'))
  {
    FileInfo(Basename(filePath), isDir,
             if !isDir then ToLower(Substring(Extname(filePath), 1)) else "",
             if isDir then 0 else statSize,
             mtime, ChildVirtualPath(current, ReplaceAll(rel, '\\', '/')), false)
  }

  /** The categories `getFileType` distinguishes. */
  datatype FileKind = Image | Video | Audio | Document | Archive | PlainFile

  const ImageExtensions: seq<string> := ["jpg", "jpeg", "png", "gif", "bmp", "webp", "svg"]
  const VideoExtensions: seq<string> := ["mp4", "webm", "mkv", "avi", "mov", "wmv", "flv"]
  const AudioExtensions: seq<string> := ["mp3", "wav", "ogg", "flac", "aac", "m4a"]
  const DocumentExtensions: seq<string> := ["pdf", "doc", "docx", "xls", "xlsx", "ppt", "pptx", "txt", "rtf", "md"]
  const ArchiveExtensions: seq<string> := ["zip", "rar", "7z", "tar", "gz"]

  /** `getFileType(extension)`: the first list, in the order image, video, audio, document,
      archive, that contains the extension. */
  function GetFileType(ext: string): FileKind {
    if ext in ImageExtensions then Image
    else if ext in VideoExtensions then Video
    else if ext in AudioExtensions then Audio
    else if ext in DocumentExtensions then Document
    else if ext in ArchiveExtensions then Archive
    else PlainFile
  }

  /** The five lists are disjoint, so each category is exactly membership in its own list, and
      `file` is membership in none. */
  lemma {:induction false} GetFileTypeByList(ext: string)
    ensures GetFileType(ext) == Image <==> ext in ImageExtensions
    ensures GetFileType(ext) == Video <==> ext in VideoExtensions
    ensures GetFileType(ext) == Audio <==> ext in AudioExtensions
    ensures GetFileType(ext) == Document <==> ext in DocumentExtensions
    ensures GetFileType(ext) == Archive <==> ext in ArchiveExtensions
    ensures GetFileType(ext) == PlainFile <==>
      ext !in ImageExtensions + VideoExtensions + AudioExtensions + DocumentExtensions + ArchiveExtensions
  {
  }
}
