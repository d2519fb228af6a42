/** `server/utils/pathUtils.ts`: the older resolver, keyed by user id, with a configured root
    folder as the fallback, and its reverse mapping from physical to virtual paths. */
module PathUtils {
  import opened Wrappers
  import opened Strings
  import opened NodePath
  import opened UserPath

  /** `/^[A-Za-z]:/`: a drive letter and a colon. */
  predicate StartsWithDrive(v: string) {
    |v| >= 2 && IsAsciiLetter(v[0]) && v[1] == ':'
  }

  /** `virtualPath.replace(/\\/g, '/')`. */
  function Normalise(v: string): (r: string)
    ensures |r| == |v| && '\\' !in r
    ensures forall i :: 0 <= i < |v| ==> r[i] == (if v[i] == '\\' then '/' else v[i])
  {
    var r := ReplaceAll(v, '\\', '/');
    assert forall i :: 0 <= i < |r| ==> r[i] != '\\';
    r
  }

  /** A path without backslashes is already normalised. */
  lemma NormaliseIdentity(v: string)
    requires '\\' !in v
    ensures Normalise(v) == v
  {
    assert forall i :: 0 <= i < |v| ==> v[i] != '\\';
  }

  /** Two backslash-free strings joined by `/` are backslash-free. */
  lemma NoBackslashJoined(a: string, b: string)
    requires '\\' !in a && '\\' !in b
    ensures '\\' !in a + "/" + b
  {
    var c := a + "/" + b;
    forall i | 0 <= i < |c| ensures c[i] != '\\' {
      if i < |a| {
        assert c[i] == a[i];
      } else if i > |a| {
        assert c[i] == b[i - |a| - 1];
      }
    }
  }

  /** The optional `userId` argument, as the key `getRealPathById` receives. */
  function KeyOf(userId: Option<string>): UserKey {
    match userId
    case None => NoKey
    case Some(s) => NameKey(s)
  }

  /** The resolved path and the directory `fs.ensureDir` is asked to create. */
  datatype Physical = Physical(path: string, ensureDir: Option<string>)

  /** `getPhysicalPath(virtualPath, userId)` of `pathUtils.ts`; `root` stands for
      `process.env.ROOT_PATH || path.join(__dirname, '..', '..', 'uploads')`. */
  function GetPhysicalPath(reg: Registry, root: string, v: string, userId: Option<string>): (r: Physical)
    ensures StartsWithDrive(v) ==> r == Physical(v, None)
  {
    if StartsWithDrive(v) then Physical(v, None)
    else
      var n := Normalise(v);
      if n == "/" || n == "" then Physical(root, None)
      else
        match GetRealPathById(reg, KeyOf(userId), n)
        case Some(row) =>
          var p := SpliceRecord(row, n);
          Physical(p, Some(Dirname(p)))
        case None =>
          var p := Join(root, n);
          Physical(p, Some(Dirname(p)))
  }

  /** The record's real path with the remainder of `n` past the record's virtual path joined on. */
  function SpliceRecord(row: PathRow, n: string): string {
    if |n| > |row.virtualPath| then Join(row.realPath, n[|row.virtualPath|..]) else row.realPath
  }

  /** Backslashes are rewritten before anything else is looked at: a path and its normalised
      form resolve alike. */
  lemma NormalisedFirst(reg: Registry, root: string, v: string, userId: Option<string>)
    requires !StartsWithDrive(v)
    ensures GetPhysicalPath(reg, root, v, userId) == GetPhysicalPath(reg, root, Normalise(v), userId)
  {
    var n := Normalise(v);
    NormaliseIdentity(n);
    if |v| >= 2 {
      assert (n[0] == v[0] || n[0] == '/') && (n[1] == v[1] || n[1] == '/');
    }
  }

  /** `/`, the empty path, and anything that normalises to them are the root folder. */
  lemma RootResolution(reg: Registry, root: string, v: string, userId: Option<string>)
    requires !StartsWithDrive(v) && (Normalise(v) == "/" || Normalise(v) == "")
    ensures GetPhysicalPath(reg, root, v, userId) == Physical(root, None)
  {
  }

  /** A found record splits the normalised path into its own virtual path and a remainder; the
      result is the record's real path when the remainder is empty and their join otherwise, and
      the parent of the result is ensured. */
  lemma RecordResolution(reg: Registry, root: string, v: string, userId: Option<string>)
    requires !StartsWithDrive(v) && Normalise(v) != "/" && Normalise(v) != ""
    requires GetRealPathById(reg, KeyOf(userId), Normalise(v)).Some?
    ensures var n := Normalise(v);
      var row := GetRealPathById(reg, KeyOf(userId), n).value;
      var rest := n[|row.virtualPath|..];
      var r := GetPhysicalPath(reg, root, v, userId);
      n == row.virtualPath + rest
      && r.path == (if rest == "" then row.realPath else Join(row.realPath, rest))
      && StartsWith(r.path, row.realPath)
      && r.ensureDir == Some(Dirname(r.path))
  {
    var n := Normalise(v);
    var row := GetRealPathById(reg, KeyOf(userId), n).value;
    RecordBranch(reg, root, v, userId);
    RecordSplice(row, n);
  }

  /** A normalised path with a record resolves through `SpliceRecord`. */
  lemma RecordBranch(reg: Registry, root: string, v: string, userId: Option<string>)
    requires !StartsWithDrive(v) && Normalise(v) != "/" && Normalise(v) != ""
    requires GetRealPathById(reg, KeyOf(userId), Normalise(v)).Some?
    ensures var p := SpliceRecord(GetRealPathById(reg, KeyOf(userId), Normalise(v)).value, Normalise(v));
      GetPhysicalPath(reg, root, v, userId) == Physical(p, Some(Dirname(p)))
  {
  }

  /** A path under a record's virtual path is that virtual path and a remainder, and its splice
      is the real path, joined with the remainder when there is one. */
  lemma RecordSplice(row: PathRow, n: string)
    requires StartsWith(n, row.virtualPath)
    ensures var rest := n[|row.virtualPath|..];
      n == row.virtualPath + rest
      && SpliceRecord(row, n) == (if rest == "" then row.realPath else Join(row.realPath, rest))
      && StartsWith(SpliceRecord(row, n), row.realPath)
  {
    PrefixSplice(n, row.virtualPath);
    JoinExtends(row.realPath, n[|row.virtualPath|..]);
  }

  /** Without a record (in particular without a user id) the normalised path is joined onto
      the root folder. */
  lemma DefaultResolution(reg: Registry, root: string, v: string, userId: Option<string>)
    requires !StartsWithDrive(v) && Normalise(v) != "/" && Normalise(v) != ""
    requires userId.None? || GetRealPathById(reg, KeyOf(userId), Normalise(v)).None?
    ensures var r := GetPhysicalPath(reg, root, v, userId);
      r.path == Join(root, Normalise(v)) && StartsWith(r.path, root) && r.ensureDir == Some(Dirname(r.path))
  {
  }

  /** The first row in table order whose real path is a string prefix of `n`, as an index. */
  function FirstRealPrefixFrom(paths: seq<PathRow>, n: string, k: nat): (r: Option<nat>)
    requires k <= |paths|
    ensures r.Some? ==> k <= r.value < |paths| && StartsWith(n, paths[r.value].realPath)
                        && forall j :: k <= j < r.value ==> !StartsWith(n, paths[j].realPath)
    ensures r.None? ==> forall j :: k <= j < |paths| ==> !StartsWith(n, paths[j].realPath)
    decreases |paths| - k
  {
    if k == |paths| then None
    else if StartsWith(n, paths[k].realPath) then Some(k)
    else FirstRealPrefixFrom(paths, n, k + 1)
  }

  /** `getVirtualPath(physicalPath)`: the first mapping of `getAll()` whose real path prefixes
      the normalised path gives `posix.join(virtual_path, remainder)`; failing that the root
      folder is stripped, and failing that the normalised path is returned. */
  function GetVirtualPath(paths: seq<PathRow>, root: string, p: string): string {
    var n := Normalise(p);
    match FirstRealPrefixFrom(paths, n, 0)
    case Some(i) => Join(paths[i].virtualPath, n[|paths[i].realPath|..])
    case None => if StartsWith(n, root) then "/" + n[|root|..] else n
  }

  /** The reverse mapping takes the FIRST matching row in table order, whatever later rows with
      longer real paths also match; without a match it strips the root or returns its input. */
  lemma VirtualPathFirstMatch(paths: seq<PathRow>, root: string, p: string)
    ensures var n := Normalise(p);
      (exists i :: 0 <= i < |paths| && StartsWith(n, paths[i].realPath)) ==>
        exists i :: 0 <= i < |paths| && StartsWith(n, paths[i].realPath)
          && (forall j :: 0 <= j < i ==> !StartsWith(n, paths[j].realPath))
          && GetVirtualPath(paths, root, p) == Join(paths[i].virtualPath, n[|paths[i].realPath|..])
    ensures var n := Normalise(p);
      (forall i :: 0 <= i < |paths| ==> !StartsWith(n, paths[i].realPath)) ==>
        GetVirtualPath(paths, root, p) == if StartsWith(n, root) then "/" + n[|root|..] else n
  {
    var n := Normalise(p);
    var k := FirstRealPrefixFrom(paths, n, 0);
    if k.Some? {
      var i := k.value;
      assert StartsWith(n, paths[i].realPath) && forall j :: 0 <= j < i ==> !StartsWith(n, paths[j].realPath);
      assert GetVirtualPath(paths, root, p) == Join(paths[i].virtualPath, n[|paths[i].realPath|..]);
    }
  }

  /** With `/a -> /data` listed before `/b -> /data/sub`, `/data/sub/x` maps back to `/a/sub/x`,
      not to the more specific `/b/x`. */
  lemma FirstMappingNotLongest(paths: seq<PathRow>, n: string)
    requires paths == [PathRow(1, 1, "/a", "/data"), PathRow(2, 1, "/b", "/data/sub")]
    requires n == "/data/sub/x"
    ensures StartsWith(n, paths[1].realPath)
    ensures GetVirtualPath(paths, "/srv", n) == "/a/sub/x"
  {
    ExampleStrings(n);
    NormaliseIdentity(n);
    assert FirstRealPrefixFrom(paths, n, 0) == Some(0);
    VirtualOfFirstMapping(paths, "/srv", n, 0);
  }

  /** The string facts the example above rests on. */
  lemma ExampleStrings(n: string)
    requires n == "/data/sub/x"
    ensures '\\' !in n && StartsWith(n, "/data") && StartsWith(n, "/data/sub")
    ensures Join("/a", n[5..]) == "/a/sub/x"
  {
    ExampleNoBackslash(n);
    assert n[..5] == "/data";
    assert n[..9] == "/data/sub";
    ExampleJoin(n[5..]);
  }

  lemma ExampleNoBackslash(n: string)
    requires n == "/data/sub/x"
    ensures '\\' !in n
  {
    assert forall i :: 0 <= i < |n| ==> n[i] != '\\';
  }

  lemma ExampleJoin(rest: string)
    requires rest == "/sub/x"
    ensures Join("/a", rest) == "/a/sub/x"
  {
    assert StripLeadingSlashes(rest) == "sub/x" by {
      assert rest[1..] == "sub/x";
      assert StripLeadingSlashes("sub/x") == "sub/x";
    }
    assert "/a/" + "sub/x" == "/a/sub/x";
  }

  /** Joining `a` with `"/" + rest` puts exactly one separator between them. */
  lemma JoinSlashRest(a: string, rest: string)
    requires a != "" && a[|a| - 1] != '/'
    requires rest != "" && rest[0] != '/'
    ensures Join(a, "/" + rest) == a + "/" + rest
  {
    assert ("/" + rest)[1..] == rest;
    assert StripLeadingSlashes(rest) == rest;
    assert StripLeadingSlashes("/" + rest) == rest;
  }

  /** Physical half of the round trip: a virtual path one remainder below a found record
      resolves to the record's real path with the same remainder. */
  lemma PhysicalOfRecord(reg: Registry, root: string, userId: Option<string>, row: PathRow, rest: string)
    requires row.virtualPath != "" && row.virtualPath[|row.virtualPath| - 1] != '/'
    requires row.realPath != "" && row.realPath[|row.realPath| - 1] != '/'
    requires rest != "" && rest[0] != '/'
    requires '\\' !in row.virtualPath && '\\' !in rest
    requires !StartsWithDrive(row.virtualPath + "/" + rest)
    requires GetRealPathById(reg, KeyOf(userId), row.virtualPath + "/" + rest) == Some(row)
    ensures GetPhysicalPath(reg, root, row.virtualPath + "/" + rest, userId).path == row.realPath + "/" + rest
  {
    var v := row.virtualPath + "/" + rest;
    RecordPathShape(row.virtualPath, rest);
    RecordBranch(reg, root, v, userId);
    SpliceChild(row, rest);
  }

  /** Splicing a record onto `vp/rest` gives `rp/rest`. */
  lemma SpliceChild(row: PathRow, rest: string)
    requires row.virtualPath != ""
    requires row.realPath != "" && row.realPath[|row.realPath| - 1] != '/'
    requires rest != "" && rest[0] != '/'
    ensures SpliceRecord(row, row.virtualPath + "/" + rest) == row.realPath + "/" + rest
  {
    var v := row.virtualPath + "/" + rest;
    assert v[|row.virtualPath|..] == "/" + rest;
    JoinSlashRest(row.realPath, rest);
  }

  /** `vp/rest` without backslashes is its own normal form, is neither `/` nor empty, and has
      `/rest` past `vp`. */
  lemma RecordPathShape(vp: string, rest: string)
    requires vp != "" && rest != ""
    requires '\\' !in vp && '\\' !in rest
    ensures var v := vp + "/" + rest;
      Normalise(v) == v && v != "/" && v != "" && v[|vp|..] == "/" + rest
  {
    var v := vp + "/" + rest;
    NoBackslashJoined(vp, rest);
    NormaliseIdentity(v);
    assert |v| > 1;
  }

  /** Round trip: a virtual path under a record maps to a physical path that maps back to it,
      when the record is also the first whose real path prefixes that physical path and neither
      side has stray separators or backslashes. */
  lemma VirtualPhysicalRoundTrip(reg: Registry, root: string, userId: Option<string>, row: PathRow, rest: string)
    requires row.virtualPath != "" && row.virtualPath[|row.virtualPath| - 1] != '/'
    requires row.realPath != "" && row.realPath[|row.realPath| - 1] != '/'
    requires rest != "" && rest[0] != '/'
    requires '\\' !in row.virtualPath && '\\' !in row.realPath && '\\' !in rest
    requires !StartsWithDrive(row.virtualPath + "/" + rest)
    requires GetRealPathById(reg, KeyOf(userId), row.virtualPath + "/" + rest) == Some(row)
    requires FirstRealPrefixFrom(reg.paths, row.realPath + "/" + rest, 0).Some?
    requires reg.paths[FirstRealPrefixFrom(reg.paths, row.realPath + "/" + rest, 0).value] == row
    ensures var v := row.virtualPath + "/" + rest;
      GetPhysicalPath(reg, root, v, userId).path == row.realPath + "/" + rest
      && GetVirtualPath(reg.paths, root, GetPhysicalPath(reg, root, v, userId).path) == v
  {
    PhysicalOfRecord(reg, root, userId, row, rest);
    VirtualOfRecord(reg.paths, root, row, rest, FirstRealPrefixFrom(reg.paths, row.realPath + "/" + rest, 0).value);
  }

  /** Virtual half of the round trip: a physical path one remainder below the first row whose
      real path prefixes it maps to that row's virtual path with the same remainder. */
  lemma VirtualOfRecord(paths: seq<PathRow>, root: string, row: PathRow, rest: string, i: nat)
    requires row.virtualPath != "" && row.virtualPath[|row.virtualPath| - 1] != '/'
    requires row.realPath != ""
    requires rest != "" && rest[0] != '/'
    requires '\\' !in row.realPath && '\\' !in rest
    requires FirstRealPrefixFrom(paths, row.realPath + "/" + rest, 0) == Some(i) && paths[i] == row
    ensures GetVirtualPath(paths, root, row.realPath + "/" + rest) == row.virtualPath + "/" + rest
  {
    var q := row.realPath + "/" + rest;
    NoBackslashJoined(row.realPath, rest);
    VirtualOfFirstMapping(paths, root, q, i);
    assert q[|row.realPath|..] == "/" + rest;
    JoinSlashRest(row.virtualPath, rest);
  }

  /** The reverse mapping through a known first matching row. */
  lemma VirtualOfFirstMapping(paths: seq<PathRow>, root: string, q: string, i: nat)
    requires '\\' !in q
    requires FirstRealPrefixFrom(paths, q, 0) == Some(i)
    ensures GetVirtualPath(paths, root, q) == Join(paths[i].virtualPath, q[|paths[i].realPath|..])
  {
    NormaliseIdentity(q);
  }
}
