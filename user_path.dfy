/** The path registry: the `users` and `user_paths` tables and the lookups of `UserPathModel`.
    The tables are in-memory sequences in table (rowid) order; a SQL `.get` returns the first
    matching row in that order. */
module UserPath {
  import opened Wrappers
  import opened Strings
  import JsNumber

  /** A row of `users`, reduced to the columns the registry reads. */
  datatype UserRec = UserRec(id: int, username: string)

  /** A row of `user_paths`. */
  datatype PathRow = PathRow(id: int, userId: int, virtualPath: string, realPath: string)

  /** The two tables together. */
  datatype Registry = Registry(users: seq<UserRec>, paths: seq<PathRow>)

  /** The canonical home prefix of a user, `/{username}`. */
  function HomePath(name: string): string {
    "/" + name
  }

  /** `SELECT id FROM users WHERE username = ?`. */
  function UserIdByName(users: seq<UserRec>, name: string): (r: Option<int>)
    ensures r.Some? ==> UserRec(r.value, name) in users
    ensures r.None? <==> forall u :: u in users ==> u.username != name
  {
    if users == [] then None
    else if users[0].username == name then Some(users[0].id)
    else UserIdByName(users[1..], name)
  }

  /** `SELECT username FROM users WHERE id = ?`. */
  function UsernameById(users: seq<UserRec>, id: int): (r: Option<string>)
    ensures r.Some? ==> UserRec(id, r.value) in users
    ensures r.None? <==> forall u :: u in users ==> u.id != id
  {
    if users == [] then None
    else if users[0].id == id then Some(users[0].username)
    else UsernameById(users[1..], id)
  }

  /** `getByUserId`: `SELECT * FROM user_paths WHERE user_id = ?`, in table order. */
  function GetByUserId(paths: seq<PathRow>, uid: int): (r: seq<PathRow>)
    ensures forall x :: x in r <==> x in paths && x.userId == uid
    ensures |r| <= |paths|
  {
    if paths == [] then []
    else (if paths[0].userId == uid then [paths[0]] else []) + GetByUserId(paths[1..], uid)
  }

  /** The condition of the join in `getByUsernameAndVirtualPath`: the row has virtual path `v`
      and belongs to a user named `name`. */
  predicate JoinMatch(users: seq<UserRec>, name: string, v: string, row: PathRow) {
    row.virtualPath == v && UserRec(row.userId, name) in users
  }

  /** The index of the first row satisfying the join, scanning from `k`. */
  function JoinIndexFrom(reg: Registry, name: string, v: string, k: nat): (r: Option<nat>)
    requires k <= |reg.paths|
    ensures r.Some? ==> k <= r.value < |reg.paths| && JoinMatch(reg.users, name, v, reg.paths[r.value])
                        && forall j :: k <= j < r.value ==> !JoinMatch(reg.users, name, v, reg.paths[j])
    ensures r.None? ==> forall j :: k <= j < |reg.paths| ==> !JoinMatch(reg.users, name, v, reg.paths[j])
    decreases |reg.paths| - k
  {
    if k == |reg.paths| then None
    else if JoinMatch(reg.users, name, v, reg.paths[k]) then Some(k)
    else JoinIndexFrom(reg, name, v, k + 1)
  }

  /** The index of the row `getByUsernameAndVirtualPath(name, v)` returns. */
  function JoinIndex(reg: Registry, name: string, v: string): (r: Option<nat>)
    ensures r.Some? ==> r.value < |reg.paths| && JoinMatch(reg.users, name, v, reg.paths[r.value])
                        && forall j :: 0 <= j < r.value ==> !JoinMatch(reg.users, name, v, reg.paths[j])
    ensures r.None? ==> forall j :: 0 <= j < |reg.paths| ==> !JoinMatch(reg.users, name, v, reg.paths[j])
  {
    JoinIndexFrom(reg, name, v, 0)
  }

  /** `getByUsernameAndVirtualPath(name, v)`. */
  function GetByUsernameAndVirtualPath(reg: Registry, name: string, v: string): (r: Option<PathRow>)
    ensures r.Some? ==> r.value in reg.paths && JoinMatch(reg.users, name, v, r.value)
    ensures r.None? <==> forall row :: row in reg.paths ==> !JoinMatch(reg.users, name, v, row)
  {
    match JoinIndex(reg, name, v)
    case Some(i) => Some(reg.paths[i])
    case None => None
  }

  /** The index of the first row of user `uid` with virtual path `v`, scanning from `k`. */
  function ExactIndexFrom(paths: seq<PathRow>, uid: int, v: string, k: nat): (r: Option<nat>)
    requires k <= |paths|
    ensures r.Some? ==> k <= r.value < |paths| && paths[r.value].userId == uid && paths[r.value].virtualPath == v
                        && forall j :: k <= j < r.value ==> !(paths[j].userId == uid && paths[j].virtualPath == v)
    ensures r.None? ==> forall j :: k <= j < |paths| ==> !(paths[j].userId == uid && paths[j].virtualPath == v)
    decreases |paths| - k
  {
    if k == |paths| then None
    else if paths[k].userId == uid && paths[k].virtualPath == v then Some(k)
    else ExactIndexFrom(paths, uid, v, k + 1)
  }

  /** `SELECT * FROM user_paths WHERE user_id = ? AND virtual_path = ?`. */
  function ExactById(paths: seq<PathRow>, uid: int, v: string): (r: Option<PathRow>)
    ensures r.Some? ==> r.value in paths && r.value.userId == uid && r.value.virtualPath == v
    ensures r.None? <==> forall row :: row in paths ==> !(row.userId == uid && row.virtualPath == v)
  {
    match ExactIndexFrom(paths, uid, v, 0)
    case Some(i) => Some(paths[i])
    case None => None
  }

  /** Longer virtual paths first: the order `sort((a, b) => b.virtual_path.length - a.virtual_path.length)`
      establishes. */
  ghost predicate SortedByLengthDesc(s: seq<PathRow>) {
    forall i, j :: 0 <= i < j < |s| ==> |s[j].virtualPath| <= |s[i].virtualPath|
  }

  /** Inserts `x` after every element at least as long, keeping the sort stable. */
  function InsertByLength(x: PathRow, s: seq<PathRow>): (r: seq<PathRow>)
    ensures multiset(r) == multiset(s) + multiset{x}
  {
    if s == [] then [x]
    else if |s[0].virtualPath| >= |x.virtualPath| then
      assert s == [s[0]] + s[1..];
      [s[0]] + InsertByLength(x, s[1..])
    else [x] + s
  }

  /** Insertion adds `x` and nothing else. */
  lemma InsertMembers(x: PathRow, s: seq<PathRow>)
    ensures forall y :: y in InsertByLength(x, s) ==> y == x || y in s
  {
  }

  /** A head at least as long as every later element extends a sorted sequence. */
  lemma SortedCons(a: PathRow, rest: seq<PathRow>)
    requires SortedByLengthDesc(rest)
    requires forall y :: y in rest ==> |y.virtualPath| <= |a.virtualPath|
    ensures SortedByLengthDesc([a] + rest)
  {
    var r := [a] + rest;
    forall i, j | 0 <= i < j < |r| ensures |r[j].virtualPath| <= |r[i].virtualPath| {
      assert r[j] == rest[j - 1];
      if i > 0 {
        assert r[i] == rest[i - 1];
      }
    }
  }

  /** Insertion keeps the length order. */
  lemma {:induction false} InsertKeepsSorted(x: PathRow, s: seq<PathRow>)
    requires SortedByLengthDesc(s)
    ensures SortedByLengthDesc(InsertByLength(x, s))
  {
    if s == [] {
    } else if |s[0].virtualPath| >= |x.virtualPath| {
      var tail := s[1..];
      assert SortedByLengthDesc(tail) by {
        forall i, j | 0 <= i < j < |tail| ensures |tail[j].virtualPath| <= |tail[i].virtualPath| {
          assert tail[i] == s[i + 1] && tail[j] == s[j + 1];
        }
      }
      InsertKeepsSorted(x, tail);
      InsertMembers(x, tail);
      forall y | y in InsertByLength(x, tail) ensures |y.virtualPath| <= |s[0].virtualPath| {
        if y != x {
          var k :| 0 <= k < |tail| && tail[k] == y;
          assert s[k + 1] == y;
        }
      }
      SortedCons(s[0], InsertByLength(x, tail));
    } else {
      forall y | y in s ensures |y.virtualPath| <= |x.virtualPath| {
        var k :| 0 <= k < |s| && s[k] == y;
        if k > 0 {
          assert |s[k].virtualPath| <= |s[0].virtualPath|;
        }
      }
      SortedCons(x, s);
    }
  }

  /** The array sort of `getRealPath`, as a stable insertion sort on the length key. */
  function SortByLengthDesc(rows: seq<PathRow>): (r: seq<PathRow>)
    ensures multiset(r) == multiset(rows)
    ensures SortedByLengthDesc(r)
  {
    if rows == [] then []
    else
      assert rows == rows[..|rows| - 1] + [rows[|rows| - 1]];
      InsertKeepsSorted(rows[|rows| - 1], SortByLengthDesc(rows[..|rows| - 1]));
      InsertByLength(rows[|rows| - 1], SortByLengthDesc(rows[..|rows| - 1]))
  }

  /** The early-return scan `for (const path of userPaths) if (v.startsWith(path.virtual_path)) ...`. */
  function FirstPrefix(s: seq<PathRow>, v: string): (r: Option<PathRow>)
    ensures r.Some? ==> r.value in s && StartsWith(v, r.value.virtualPath)
    ensures r.None? <==> forall x :: x in s ==> !StartsWith(v, x.virtualPath)
    ensures r.Some? && SortedByLengthDesc(s) ==>
              forall x :: x in s && StartsWith(v, x.virtualPath) ==> |x.virtualPath| <= |r.value.virtualPath|
  {
    if s == [] then None
    else if StartsWith(v, s[0].virtualPath) then Some(s[0])
    else FirstPrefix(s[1..], v)
  }

  /** The prefix step of both lookups: the user's rows sorted longest first, then the first whose
      virtual path is a string prefix of `v`. */
  function LongestPrefixRow(paths: seq<PathRow>, uid: int, v: string): (r: Option<PathRow>)
    ensures r.Some? ==> r.value in paths && r.value.userId == uid && StartsWith(v, r.value.virtualPath)
    ensures r.Some? ==> forall x :: x in paths && x.userId == uid && StartsWith(v, x.virtualPath)
                          ==> |x.virtualPath| <= |r.value.virtualPath|
    ensures r.None? <==> forall x :: x in paths && x.userId == uid ==> !StartsWith(v, x.virtualPath)
  {
    var mine := GetByUserId(paths, uid);
    var sorted := SortByLengthDesc(mine);
    assert forall x :: x in sorted <==> x in mine by {
      forall x ensures x in sorted <==> x in mine {
        assert x in sorted <==> x in multiset(sorted);
      }
    }
    FirstPrefix(sorted, v)
  }

  /** `getRealPath(username, virtualPath)`: the real path a user's virtual path maps to, trying
      the exact row, then the home row `/{username}` with the remainder appended, then the longest
      registered prefix with the remainder appended. */
  function GetRealPath(reg: Registry, name: string, v: string): (r: Option<string>)
    ensures UserIdByName(reg.users, name).None? ==> r.None?
  {
    match UserIdByName(reg.users, name)
    case None => None
    case Some(uid) =>
      match GetByUsernameAndVirtualPath(reg, name, v)
      case Some(exact) => Some(exact.realPath)
      case None =>
        var home := HomePath(name);
        var homeRow := if StartsWith(v, home) then GetByUsernameAndVirtualPath(reg, name, home) else None;
        match homeRow
        case Some(h) => Some(h.realPath + v[|home|..])
        case None =>
          match LongestPrefixRow(reg.paths, uid, v)
          case Some(p) => Some(p.realPath + v[|p.virtualPath|..])
          case None => None
  }

  /** The first argument of `getRealPathById`: a number, a string, or `undefined`. */
  datatype UserKey = NoKey | IdKey(id: int) | NameKey(name: string)

  /** `!userIdOrName`: `undefined`, the number 0 and the empty string are falsy. */
  predicate IsFalsy(key: UserKey) {
    key.NoKey? || (key.IdKey? && key.id == 0) || (key.NameKey? && key.name == "")
  }

  /** The user id `getRealPathById` works with: a number is used as it is, a string that
      `parseInt(s, 10)` accepts is used as an id, any other string is looked up as a username. */
  function ResolveUserId(users: seq<UserRec>, key: UserKey): (r: Option<int>)
    ensures key.IdKey? ==> r == Some(key.id)
    ensures key.NameKey? && JsNumber.ParseInt(key.name, JsNumber.Radix10).Some? ==>
              r == JsNumber.ParseInt(key.name, JsNumber.Radix10)
    ensures key.NameKey? && JsNumber.ParseInt(key.name, JsNumber.Radix10).None? ==>
              r == UserIdByName(users, key.name)
  {
    match key
    case NoKey => None
    case IdKey(n) => Some(n)
    case NameKey(s) =>
      match JsNumber.ParseInt(s, JsNumber.Radix10)
      case Some(n) => Some(n)
      case None => UserIdByName(users, s)
  }

  /** `getRealPathById(userIdOrName, virtualPath)`: the registry ROW (not a spliced path) that
      resolves `v`, by the same exact / home / longest-prefix order. The returned row belongs to
      the resolved user and its virtual path is always a string prefix of `v`. */
  function GetRealPathById(reg: Registry, key: UserKey, v: string): (r: Option<PathRow>)
    ensures IsFalsy(key) ==> r.None?
    ensures r.Some? ==> r.value in reg.paths && StartsWith(v, r.value.virtualPath)
    ensures r.Some? ==> ResolveUserId(reg.users, key) == Some(r.value.userId)
  {
    if IsFalsy(key) then None
    else
      match ResolveUserId(reg.users, key)
      case None => None
      case Some(uid) =>
        match ExactById(reg.paths, uid, v)
        case Some(row) => Some(row)
        case None =>
          var homeRow :=
            match UsernameById(reg.users, uid)
            case Some(name) =>
              if StartsWith(v, HomePath(name)) then ExactById(reg.paths, uid, HomePath(name)) else None
            case None => None;
          if homeRow.Some? then homeRow else LongestPrefixRow(reg.paths, uid, v)
  }

  /** At most one row per (user, virtual path) pair: the invariant `setPath` maintains. */
  ghost predicate UniquePairs(paths: seq<PathRow>) {
    forall i, j :: 0 <= i < j < |paths| ==>
      !(paths[i].userId == paths[j].userId && paths[i].virtualPath == paths[j].virtualPath)
  }

  /** The `UNIQUE` username column and the `id` primary key of `users`. */
  ghost predicate UniqueUsers(users: seq<UserRec>) {
    forall i, j :: 0 <= i < j < |users| ==> users[i].id != users[j].id && users[i].username != users[j].username
  }

  /** The `user_paths` table after `setPath(name, v, realPath)`, `freshId` being the id
      AUTOINCREMENT hands out next: the existing row of the pair gets the new real path,
      otherwise one row is appended. */
  function SetPathRows(reg: Registry, freshId: int, name: string, v: string, realPath: string): seq<PathRow> {
    match UserIdByName(reg.users, name)
    case None => reg.paths
    case Some(uid) =>
      match JoinIndex(reg, name, v)
      case Some(i) => reg.paths[i := reg.paths[i].(realPath := realPath)]
      case None => reg.paths + [PathRow(freshId, uid, v, realPath)]
  }

  /** An unknown username leaves the table unchanged. */
  lemma SetPathUnknownUser(reg: Registry, freshId: int, name: string, v: string, realPath: string)
    requires forall u :: u in reg.users ==> u.username != name
    ensures SetPathRows(reg, freshId, name, v, realPath) == reg.paths
  {
  }

  /** With a row for the pair: only that row's real path changes; every other row and every other
      column is as before. Without one: exactly one row is appended. */
  lemma SetPathUpserts(reg: Registry, freshId: int, name: string, v: string, realPath: string)
    requires UserIdByName(reg.users, name).Some?
    ensures var rows := SetPathRows(reg, freshId, name, v, realPath);
      (exists i :: 0 <= i < |reg.paths| && JoinMatch(reg.users, name, v, reg.paths[i])) ==>
        |rows| == |reg.paths| &&
        exists i :: 0 <= i < |reg.paths| && JoinMatch(reg.users, name, v, reg.paths[i])
          && rows[i] == reg.paths[i].(realPath := realPath)
          && forall j :: 0 <= j < |rows| && j != i ==> rows[j] == reg.paths[j]
    ensures var rows := SetPathRows(reg, freshId, name, v, realPath);
      (forall i :: 0 <= i < |reg.paths| ==> !JoinMatch(reg.users, name, v, reg.paths[i])) ==>
        rows == reg.paths + [PathRow(freshId, UserIdByName(reg.users, name).value, v, realPath)]
  {
    match JoinIndex(reg, name, v)
    case Some(i) =>
    case None =>
  }

  /** `setPath` never creates a second row for a (user, virtual path) pair. */
  lemma SetPathKeepsPairsUnique(reg: Registry, freshId: int, name: string, v: string, realPath: string)
    requires UniquePairs(reg.paths)
    ensures UniquePairs(SetPathRows(reg, freshId, name, v, realPath))
  {
    var rows := SetPathRows(reg, freshId, name, v, realPath);
    match UserIdByName(reg.users, name)
    case None =>
    case Some(uid) =>
      match JoinIndex(reg, name, v)
      case Some(i) =>
        assert forall j :: 0 <= j < |rows| ==>
          rows[j].userId == reg.paths[j].userId && rows[j].virtualPath == reg.paths[j].virtualPath;
      case None =>
        forall i | 0 <= i < |reg.paths|
          ensures !(rows[i].userId == uid && rows[i].virtualPath == v)
        {
          assert !JoinMatch(reg.users, name, v, reg.paths[i]);
        }
  }

  /** After a successful `setPath(name, v, r)`, `getRealPath(name, v)` is exactly `r`,
      found by the exact-match step. */
  lemma SetPathThenGetRealPath(reg: Registry, freshId: int, name: string, v: string, realPath: string)
    requires UserIdByName(reg.users, name).Some?
    ensures GetRealPath(Registry(reg.users, SetPathRows(reg, freshId, name, v, realPath)), name, v)
            == Some(realPath)
  {
    var uid := UserIdByName(reg.users, name).value;
    var reg' := Registry(reg.users, SetPathRows(reg, freshId, name, v, realPath));
    match JoinIndex(reg, name, v)
    case Some(i) =>
      assert JoinMatch(reg.users, name, v, reg'.paths[i]);
      forall j | 0 <= j < i ensures !JoinMatch(reg.users, name, v, reg'.paths[j]) {
        assert reg'.paths[j] == reg.paths[j];
      }
      assert JoinIndex(reg', name, v) == Some(i);
    case None =>
      var k := |reg.paths|;
      assert reg'.paths[k] == PathRow(freshId, uid, v, realPath);
      assert JoinMatch(reg.users, name, v, reg'.paths[k]);
      forall j | 0 <= j < k ensures !JoinMatch(reg.users, name, v, reg'.paths[j]) {
        assert reg'.paths[j] == reg.paths[j];
      }
      assert JoinIndex(reg', name, v) == Some(k);
  }

  /** When no exact row exists, `v` starts with `/{name}` and the home row exists, the result is
      the home row's real path with the rest of `v` appended by plain concatenation, whatever
      other (longer) prefixes the user has registered. */
  lemma GetRealPathHomeStep(reg: Registry, name: string, v: string, home: PathRow)
    requires UserIdByName(reg.users, name).Some?
    requires GetByUsernameAndVirtualPath(reg, name, v).None?
    requires StartsWith(v, HomePath(name))
    requires GetByUsernameAndVirtualPath(reg, name, HomePath(name)) == Some(home)
    ensures GetRealPath(reg, name, v) == Some(home.realPath + v[|HomePath(name)|..])
  {
  }

  /** When neither the exact nor the home step applies, the result splices the remainder onto a
      registered prefix of the user that is at least as long as every other matching one, and is
      null exactly when none of the user's rows is a string prefix of `v`. */
  lemma {:induction false} GetRealPathPrefixStep(reg: Registry, name: string, v: string)
    requires UserIdByName(reg.users, name).Some?
    requires GetByUsernameAndVirtualPath(reg, name, v).None?
    requires !StartsWith(v, HomePath(name)) || GetByUsernameAndVirtualPath(reg, name, HomePath(name)).None?
    ensures var uid := UserIdByName(reg.users, name).value;
      GetRealPath(reg, name, v).None? <==>
        forall x :: x in reg.paths && x.userId == uid ==> !StartsWith(v, x.virtualPath)
    ensures var uid := UserIdByName(reg.users, name).value;
      GetRealPath(reg, name, v).Some? ==>
        exists p :: p in reg.paths && p.userId == uid && StartsWith(v, p.virtualPath)
          && GetRealPath(reg, name, v) == Some(p.realPath + v[|p.virtualPath|..])
          && forall x :: x in reg.paths && x.userId == uid && StartsWith(v, x.virtualPath)
               ==> |x.virtualPath| <= |p.virtualPath|
  {
    var uid := UserIdByName(reg.users, name).value;
    var lp := LongestPrefixRow(reg.paths, uid, v);
    assert GetRealPath(reg, name, v) == if lp.Some? then Some(lp.value.realPath + v[|lp.value.virtualPath|..]) else None;
    if lp.Some? {
      var p := lp.value;
      assert p in reg.paths && p.userId == uid && StartsWith(v, p.virtualPath);
    }
  }

  /** Under the one-row-per-pair invariant the prefix step does not depend on tie order: any
      longest matching row of the user is THE row it picks. */
  lemma LongestPrefixDeterminate(paths: seq<PathRow>, uid: int, v: string, q: PathRow)
    requires UniquePairs(paths)
    requires q in paths && q.userId == uid && StartsWith(v, q.virtualPath)
    requires forall x :: x in paths && x.userId == uid && StartsWith(v, x.virtualPath)
               ==> |x.virtualPath| <= |q.virtualPath|
    ensures LongestPrefixRow(paths, uid, v) == Some(q)
  {
    var p := LongestPrefixRow(paths, uid, v).value;
    assert |p.virtualPath| == |q.virtualPath|;
    EqualLengthPrefixes(v, p.virtualPath, q.virtualPath);
    var i :| 0 <= i < |paths| && paths[i] == p;
    var j :| 0 <= j < |paths| && paths[j] == q;
    assert paths[i].userId == paths[j].userId && paths[i].virtualPath == paths[j].virtualPath;
    assert i == j;
  }

  /** The home step shadows a longer custom prefix: with `/alice -> /data/alice` and
      `/alice/work -> /mnt/work`, `/alice/work/report.docx` resolves under `/data/alice`,
      not under `/mnt/work`. */
  lemma HomeShadowsLongerPrefix(reg: Registry, v: string)
    requires reg == Registry([UserRec(1, "alice")],
                             [PathRow(1, 1, "/alice", "/data/alice"), PathRow(2, 1, "/alice/work", "/mnt/work")])
    requires v == "/alice/work/report.docx"
    ensures StartsWith(v, reg.paths[1].virtualPath) && |reg.paths[1].virtualPath| > |reg.paths[0].virtualPath|
    ensures GetRealPath(reg, "alice", v) == Some("/data/alice/work/report.docx")
  {
    ShadowStrings(v);
    assert !JoinMatch(reg.users, "alice", v, reg.paths[0]);
    assert !JoinMatch(reg.users, "alice", v, reg.paths[1]);
    assert GetByUsernameAndVirtualPath(reg, "alice", v).None?;
    assert JoinMatch(reg.users, "alice", "/alice", reg.paths[0]);
    assert JoinIndex(reg, "alice", "/alice") == Some(0);
    GetRealPathHomeStep(reg, "alice", v, reg.paths[0]);
  }

  /** The string facts the example above rests on. */
  lemma ShadowStrings(v: string)
    requires v == "/alice/work/report.docx"
    ensures v != "/alice" && v != "/alice/work"
    ensures StartsWith(v, HomePath("alice")) && StartsWith(v, "/alice/work")
    ensures "/data/alice" + v[|HomePath("alice")|..] == "/data/alice/work/report.docx"
  {
    assert v[..6] == "/alice";
    assert v[..11] == "/alice/work";
    assert v[6..] == "/work/report.docx";
  }

  /** Prefix tests are plain `startsWith`: the home row of `alice` also resolves `/alice2/x`. */
  lemma PrefixIsNotSegmentAware()
    ensures var reg := Registry([UserRec(1, "alice")], [PathRow(1, 1, "/alice", "/data/alice")]);
      GetRealPath(reg, "alice", "/alice2/x") == Some("/data/alice2/x")
  {
    var reg := Registry([UserRec(1, "alice")], [PathRow(1, 1, "/alice", "/data/alice")]);
    var v := "/alice2/x";
    assert !JoinMatch(reg.users, "alice", v, reg.paths[0]);
    assert StartsWith(v, HomePath("alice"));
    assert JoinIndex(reg, "alice", "/alice") == Some(0);
    GetRealPathHomeStep(reg, "alice", v, reg.paths[0]);
    assert v[|HomePath("alice")|..] == "2/x";
    assert "/data/alice" + "2/x" == "/data/alice2/x";
  }

  /** With unique user keys, the username found for an id is the name that id was found for. */
  lemma NameIdRoundTrip(users: seq<UserRec>, name: string)
    requires UniqueUsers(users)
    requires UserIdByName(users, name).Some?
    ensures UsernameById(users, UserIdByName(users, name).value) == Some(name)
  {
    var uid := UserIdByName(users, name).value;
    var k :| 0 <= k < |users| && users[k] == UserRec(uid, name);
    var other := UsernameById(users, uid);
    if other.Some? {
      var k' :| 0 <= k' < |users| && users[k'] == UserRec(uid, other.value);
      assert k == k';
    }
  }

  /** With unique user keys, the join on a username selects exactly the rows of that user's id. */
  lemma JoinIsById(reg: Registry, name: string, v: string)
    requires UniqueUsers(reg.users)
    requires UserIdByName(reg.users, name).Some?
    ensures forall j :: 0 <= j < |reg.paths| ==>
              (JoinMatch(reg.users, name, v, reg.paths[j]) <==>
                (reg.paths[j].userId == UserIdByName(reg.users, name).value && reg.paths[j].virtualPath == v))
  {
    var uid := UserIdByName(reg.users, name).value;
    forall j | 0 <= j < |reg.paths|
      ensures JoinMatch(reg.users, name, v, reg.paths[j]) <==>
                (reg.paths[j].userId == uid && reg.paths[j].virtualPath == v)
    {
      var row := reg.paths[j];
      if UserRec(row.userId, name) in reg.users {
        var k :| 0 <= k < |reg.users| && reg.users[k] == UserRec(uid, name);
        var k' :| 0 <= k' < |reg.users| && reg.users[k'] == UserRec(row.userId, name);
        assert k == k';
      }
    }
  }

  /** For a username that `parseInt` rejects, with the `users` keys unique, `getRealPathById`
      finds the row whose splice is exactly what `getRealPath` returns. */
  lemma ByIdAgreesWithByName(reg: Registry, name: string, v: string)
    requires UniqueUsers(reg.users)
    requires name != "" && JsNumber.ParseInt(name, JsNumber.Radix10).None?
    ensures GetRealPath(reg, name, v) == Splice(GetRealPathById(reg, NameKey(name), v), v)
  {
    assert ResolveUserId(reg.users, NameKey(name)) == UserIdByName(reg.users, name);
    if UserIdByName(reg.users, name).Some? {
      ResolvedAgrees(reg, NameKey(name), name, v);
    }
  }

  /** For a numeric id of an existing user, with the `users` keys unique, `getRealPathById`
      finds the row whose splice is exactly what `getRealPath` returns for that user's name. */
  lemma ByIdKeyAgreesWithByName(reg: Registry, uid: int, v: string)
    requires UniqueUsers(reg.users)
    requires uid != 0 && UsernameById(reg.users, uid).Some?
    ensures GetRealPath(reg, UsernameById(reg.users, uid).value, v) == Splice(GetRealPathById(reg, IdKey(uid), v), v)
  {
    var name := UsernameById(reg.users, uid).value;
    IdNameRoundTrip(reg.users, uid, name);
    ResolvedAgrees(reg, IdKey(uid), name, v);
  }

  /** The real path a registry row gives `v`: its real path with the rest of `v` appended. */
  function Splice(row: Option<PathRow>, v: string): Option<string> {
    match row
    case Some(r) => if |r.virtualPath| <= |v| then Some(r.realPath + v[|r.virtualPath|..]) else None
    case None => None
  }

  /** With unique user keys, the id found for the name of `uid` is `uid`. */
  lemma IdNameRoundTrip(users: seq<UserRec>, uid: int, name: string)
    requires UniqueUsers(users)
    requires UsernameById(users, uid) == Some(name)
    ensures UserIdByName(users, name) == Some(uid)
  {
    var k :| 0 <= k < |users| && users[k] == UserRec(uid, name);
    var other := UserIdByName(users, name);
    var k' :| 0 <= k' < |users| && users[k'] == UserRec(other.value, name);
    assert k == k';
  }

  /** When a key resolves to the id of the user `name`, the lookup by key and the lookup by
      name agree, the by-key row spliced onto `v`. */
  lemma {:induction false} ResolvedAgrees(reg: Registry, key: UserKey, name: string, v: string)
    requires UniqueUsers(reg.users)
    requires !IsFalsy(key) && UserIdByName(reg.users, name).Some?
    requires ResolveUserId(reg.users, key) == UserIdByName(reg.users, name)
    ensures GetRealPath(reg, name, v) == Splice(GetRealPathById(reg, key, v), v)
  {
    var uid := UserIdByName(reg.users, name).value;
    var home := HomePath(name);
    NameIdRoundTrip(reg.users, name);
    JoinIsById(reg, name, v);
    JoinIsById(reg, name, home);
    JoinAgreesWithExact(reg, name, uid, v);
    JoinAgreesWithExact(reg, name, uid, home);
    var homeByName := if StartsWith(v, home) then GetByUsernameAndVirtualPath(reg, name, home) else None;
    var homeById := if StartsWith(v, home) then ExactById(reg.paths, uid, home) else None;
    assert homeByName == homeById;
    var byId := GetRealPathById(reg, key, v);
    var exact := ExactById(reg.paths, uid, v);
    if exact.Some? {
      assert byId == exact;
      assert v[|exact.value.virtualPath|..] == [];
      assert exact.value.realPath + [] == exact.value.realPath;
    } else if homeById.Some? {
      assert byId == homeById;
      assert |homeById.value.virtualPath| == |home|;
    } else {
      assert byId == LongestPrefixRow(reg.paths, uid, v);
    }
  }

  /** A numeric string is read as the id it parses to: `getRealPathById('7', v)` is
      `getRealPathById(7, v)`. */
  lemma NumericKeyIsId(reg: Registry, s: string, v: string)
    requires s != "" && JsNumber.ParseInt(s, JsNumber.Radix10).Some? && JsNumber.ParseInt(s, JsNumber.Radix10).value != 0
    ensures GetRealPathById(reg, NameKey(s), v) == GetRealPathById(reg, IdKey(JsNumber.ParseInt(s, JsNumber.Radix10).value), v)
  {
    var n := JsNumber.ParseInt(s, JsNumber.Radix10).value;
    assert !IsFalsy(NameKey(s)) && !IsFalsy(IdKey(n));
    assert ResolveUserId(reg.users, NameKey(s)) == Some(n) == ResolveUserId(reg.users, IdKey(n));
  }

  /** With the key resolving to `uid`, the user's exact row is returned whenever there is one. */
  lemma GetRealPathByIdExactStep(reg: Registry, key: UserKey, uid: int, v: string)
    requires !IsFalsy(key) && ResolveUserId(reg.users, key) == Some(uid)
    requires ExactById(reg.paths, uid, v).Some?
    ensures GetRealPathById(reg, key, v) == ExactById(reg.paths, uid, v)
    ensures GetRealPathById(reg, key, v).value.virtualPath == v
  {
  }

  /** Without an exact row, when `v` starts with `/{name}` of the user and the home row exists,
      the home row is returned, whatever longer prefixes the user has registered. */
  lemma GetRealPathByIdHomeStep(reg: Registry, key: UserKey, uid: int, name: string, v: string)
    requires !IsFalsy(key) && ResolveUserId(reg.users, key) == Some(uid)
    requires ExactById(reg.paths, uid, v).None?
    requires UsernameById(reg.users, uid) == Some(name) && StartsWith(v, HomePath(name))
    requires ExactById(reg.paths, uid, HomePath(name)).Some?
    ensures GetRealPathById(reg, key, v) == ExactById(reg.paths, uid, HomePath(name))
    ensures GetRealPathById(reg, key, v).value.virtualPath == HomePath(name)
  {
  }

  /** When neither the exact nor the home step applies, the user's longest registered prefix of
      `v` is returned. */
  lemma GetRealPathByIdPrefixStep(reg: Registry, key: UserKey, uid: int, v: string)
    requires !IsFalsy(key) && ResolveUserId(reg.users, key) == Some(uid)
    requires ExactById(reg.paths, uid, v).None?
    requires var nm := UsernameById(reg.users, uid);
      nm.None? || !StartsWith(v, HomePath(nm.value)) || ExactById(reg.paths, uid, HomePath(nm.value)).None?
    ensures GetRealPathById(reg, key, v) == LongestPrefixRow(reg.paths, uid, v)
  {
  }

  /** `getRealPathById` is null exactly when the key is falsy, does not resolve to a user id,
      or none of that user's rows is a string prefix of `v`. */
  lemma GetRealPathByIdNone(reg: Registry, key: UserKey, v: string)
    ensures GetRealPathById(reg, key, v).None? <==>
      IsFalsy(key) || ResolveUserId(reg.users, key).None? ||
      forall x :: x in reg.paths && x.userId == ResolveUserId(reg.users, key).value ==> !StartsWith(v, x.virtualPath)
  {
    if !IsFalsy(key) && ResolveUserId(reg.users, key).Some? {
      var uid := ResolveUserId(reg.users, key).value;
      var r := GetRealPathById(reg, key, v);
      if r.None? {
        assert ExactById(reg.paths, uid, v).None?;
        assert r == LongestPrefixRow(reg.paths, uid, v);
      }
    }
  }

  /** `getRealPath` returns the exact row's real path whenever the join finds one. */
  lemma GetRealPathExactStep(reg: Registry, name: string, v: string, row: PathRow)
    requires UserIdByName(reg.users, name).Some?
    requires GetByUsernameAndVirtualPath(reg, name, v) == Some(row)
    ensures GetRealPath(reg, name, v) == Some(row.realPath)
  {
  }

  /** When the join condition and the id condition select the same rows, the by-name and the
      by-id exact lookups return the same row, the first of them in table order. */
  lemma JoinAgreesWithExact(reg: Registry, name: string, uid: int, v: string)
    requires forall j :: 0 <= j < |reg.paths| ==>
               (JoinMatch(reg.users, name, v, reg.paths[j]) <==>
                 (reg.paths[j].userId == uid && reg.paths[j].virtualPath == v))
    ensures GetByUsernameAndVirtualPath(reg, name, v) == ExactById(reg.paths, uid, v)
  {
    var a := JoinIndex(reg, name, v);
    var b := ExactIndexFrom(reg.paths, uid, v, 0);
    if a.Some? && b.Some? {
      assert !(a.value < b.value) && !(b.value < a.value);
    }
  }

  /** The `user_paths` table with the `users` it joins against, and the next AUTOINCREMENT id. */
  class UserPathTable {
    var users: seq<UserRec>
    var paths: seq<PathRow>
    var nextId: int

    /** The registry as the pure lookups see it. */
    function State(): Registry
      reads this
    {
      Registry(users, paths)
    }

    /** Row ids are positive, unique and below the next id; one row per (user, virtual path). */
    ghost predicate Valid()
      reads this
    {
      && 0 < nextId
      && (forall i :: 0 <= i < |paths| ==> 0 < paths[i].id < nextId)
      && (forall i, j :: 0 <= i < j < |paths| ==> paths[i].id != paths[j].id)
      && UniquePairs(paths)
    }

    constructor (users: seq<UserRec>)
      ensures Valid()
      ensures this.users == users && paths == [] && nextId == 1
    {
      this.users := users;
      paths := [];
      nextId := 1;
    }

    /** `setPath(username, virtualPath, realPath)`: false for an unknown user, otherwise an
        UPDATE of the pair's row or an INSERT of a new one. */
    method SetPath(username: string, virtualPath: string, realPath: string) returns (ok: bool)
      requires Valid()
      modifies this
      ensures Valid()
      ensures ok <==> UserIdByName(old(users), username).Some?
      ensures users == old(users)
      ensures paths == SetPathRows(old(State()), old(nextId), username, virtualPath, realPath)
    {
      var user := UserIdByName(users, username);
      if user.None? {
        return false;
      }
      SetPathKeepsPairsUnique(State(), nextId, username, virtualPath, realPath);
      var existing := JoinIndex(State(), username, virtualPath);
      if existing.Some? {
        var i := existing.value;
        paths := paths[i := paths[i].(realPath := realPath)];
      } else {
        paths := paths + [PathRow(nextId, user.value, virtualPath, realPath)];
        nextId := nextId + 1;
      }
      ok := true;
    }
  }
}
