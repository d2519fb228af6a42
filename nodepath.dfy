/** The posix flavour of Node's `path` module, as far as the modelled code uses it.
    `Dirname`, `Basename` and `Extname` follow Node's algorithms character by character;
    `Join` is an abstract join of already-normalised operands (no `.`/`..` collapsing). */
module NodePath {
  import opened Strings

  /** `path.sep` on the posix host the model assumes. */
  const Sep: char := '/'

  /** `s` without its leading `/` characters. */
  function StripLeadingSlashes(s: string): (r: string)
    ensures r == "" || r[0] != '/'
    ensures |r| <= |s|
  {
    if s != "" && s[0] == '/' then StripLeadingSlashes(s[1..]) else s
  }

  /** `s` without its trailing `/` characters. */
  function StripTrailingSlashes(s: string): (r: string)
    ensures r == "" || r[|r| - 1] != '/'
    ensures |r| <= |s|
  {
    if s != "" && s[|s| - 1] == '/' then StripTrailingSlashes(s[..|s| - 1]) else s
  }

  /** The directory `a` with exactly the separator a child name is appended after. */
  function DirPrefix(a: string): (r: string)
    ensures r == a || r == a + "/"
  {
    if a == "" || a[|a| - 1] == '/' then a else a + "/"
  }

  /** `path.join(a, b)` (and `path.posix.join`) for normalised operands: the separators between
      the two are collapsed into one, and an empty or all-separator `b` leaves `a` unchanged. */
  function Join(a: string, b: string): string {
    var b' := StripLeadingSlashes(b);
    if b' == "" then a else DirPrefix(a) + b'
  }

  /** The directory prefix of `a`, and so every path joined onto `a`, starts with `a`. */
  lemma JoinExtends(a: string, b: string)
    ensures StartsWith(DirPrefix(a), a)
    ensures StartsWith(Join(a, b), a)
  {
    var d := DirPrefix(a);
    assert d[..|a|] == a;
    var b' := StripLeadingSlashes(b);
    if b' != "" {
      assert (d + b')[..|a|] == d[..|a|];
    }
  }

  /** A directory entry name as `readdir` returns it: non-empty and without a separator. */
  predicate IsEntryName(n: string) {
    n != "" && '/' !in n
  }

  lemma JoinName(a: string, n: string)
    requires IsEntryName(n)
    ensures Join(a, n) == DirPrefix(a) + n
  {
  }

  /** Joining distinct entry names onto one directory gives distinct paths, and no such path
      lies under the directory prefix of another. */
  lemma JoinNamesApart(a: string, n: string, m: string)
    requires IsEntryName(n) && IsEntryName(m) && n != m
    ensures Join(a, n) != Join(a, m)
    ensures !StartsWith(Join(a, n), DirPrefix(Join(a, m)))
  {
    JoinName(a, n);
    JoinName(a, m);
    var p := DirPrefix(a);
    assert (p + n)[|p|..] == n;
    assert (p + m)[|p|..] == m;
    assert m[|m| - 1] != '/';
    assert DirPrefix(p + m) == p + m + "/";
    if |m| < |n| {
      assert (p + n)[|p| + |m|] == n[|m|];
      assert n[|m|] in n;
      assert (p + m + "/")[|p| + |m|] == '/';
      assert (p + n)[..|p| + |m| + 1] != p + m + "/";
    }
  }

  /** Scans `p[1..i]` from the right for the separator that ends the directory part, as the
      loop of Node's `posix.dirname` does; -1 when there is none. */
  function DirEnd(p: string, i: int, matchedSlash: bool): (r: int)
    requires i < |p|
    ensures r == -1 || (1 <= r <= i && p[r] == '/')
    ensures r != -1 && matchedSlash ==> r < i
    decreases i
  {
    if i < 1 then -1
    else if p[i] == '/' then (if !matchedSlash then i else DirEnd(p, i - 1, true))
    else DirEnd(p, i - 1, false)
  }

  /** Node's `path.posix.dirname(p)`. */
  function Dirname(p: string): (r: string)
    ensures p != "" && r != "." && r != "/" ==> |r| < |p|
  {
    if |p| == 0 then "."
    else
      var e := DirEnd(p, |p| - 1, true);
      if e == -1 then (if p[0] == '/' then "/" else ".")
      else if p[0] == '/' && e == 1 then "//"
      else p[..e]
  }

  /** The separator scan passes over the characters of a last component and stops at the
      separator before it. */
  lemma DirEndSkips(p: string, i: int, matchedSlash: bool, e: int)
    requires 1 <= e < i < |p| && p[e] == '/'
    requires forall j :: e < j <= i ==> p[j] != '/'
    ensures DirEnd(p, i, matchedSlash) == e
    decreases i
  {
    if i - 1 > e {
      DirEndSkips(p, i - 1, false, e);
    }
  }

  /** The separator scan finds nothing when `p[1..i]` has no separator. */
  lemma DirEndNone(p: string, i: int, matchedSlash: bool)
    requires i < |p|
    requires forall j :: 1 <= j <= i ==> p[j] != '/'
    ensures DirEnd(p, i, matchedSlash) == -1
    decreases i
  {
    if i >= 1 {
      DirEndNone(p, i - 1, false);
    }
  }

  /** The parent of `a/n` is `a`, for a directory without a trailing separator. */
  lemma DirnameOfChild(a: string, n: string)
    requires a != "" && a[|a| - 1] != '/' && IsEntryName(n)
    ensures Dirname(a + "/" + n) == a
  {
    var p := a + "/" + n;
    forall j | |a| < j <= |p| - 1 ensures p[j] != '/' {
      assert p[j] == n[j - |a| - 1];
    }
    DirEndSkips(p, |p| - 1, true, |a|);
    assert p[..|a|] == a;
  }

  /** Node's `path.posix.basename(p)`: the last component, trailing separators ignored. */
  function Basename(p: string): (r: string)
    ensures '/' !in r
  {
    var t := StripTrailingSlashes(p);
    var k := LastIndexOf(t, '/');
    t[k + 1..]
  }

  /** The last component of a joined child path is the child's name. */
  lemma BasenameOfJoin(a: string, n: string)
    requires IsEntryName(n)
    ensures Basename(Join(a, n)) == n
  {
    JoinName(a, n);
    var d := DirPrefix(a);
    var t := d + n;
    assert t[|t| - 1] == n[|n| - 1];
    assert n[|n| - 1] in n;
    assert StripTrailingSlashes(t) == t;
    LastSlashBeforeName(d, n);
    assert t[|d|..] == n;
  }

  /** In `d + n`, with `d` empty or ending in a separator and `n` free of them, the last
      separator is the one that ends `d`. */
  lemma LastSlashBeforeName(d: string, n: string)
    requires d == "" || d[|d| - 1] == '/'
    requires '/' !in n
    ensures LastIndexOf(d + n, '/') == |d| - 1
  {
    var t := d + n;
    forall j | |d| <= j < |t| ensures t[j] != '/' {
      assert t[j] == n[j - |d|];
    }
    var k := LastIndexOf(t, '/');
    if d != "" {
      assert t[|d| - 1] == '/';
    }
  }

  /** The extension of a single component, as Node computes it: from the last `.`, unless the
      component has no `.`, starts with its only leading `.`, or is `..`. */
  function ExtOf(b: string): (r: string)
    ensures r == "" || (r[0] == '.' && EndsWith(b, r))
  {
    var d := LastIndexOf(b, '.');
    if d < 1 || b == ".." then "" else b[d..]
  }

  /** Node's `path.posix.extname(p)`. */
  function Extname(p: string): string {
    ExtOf(Basename(p))
  }
}
