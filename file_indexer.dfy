/** `server/services/fileIndexer.ts`: the metadata cache. A walk over a directory tree sums
    sizes bottom-up and upserts one `file_metadata` row per visited path; an upward walk
    recomputes ancestor sizes from their children's rows; a delete removes a path and
    everything below it.

    The filesystem a walk observes is given as a finite tree: a `Node` is what `fs.stat` and
    `fs.readdir` report for one path. The `file_metadata` table is a map keyed by its primary
    key, the physical path. `CURRENT_TIMESTAMP` is the parameter `now`. */
module FileIndexer {
  import opened Wrappers
  import opened Strings
  import opened NodePath
  import opened UserPath

  /** What the filesystem reports at one path: `fs.stat` fails, a file with its byte size,
      a directory with its listing in `readdir` order, or a directory whose listing fails. */
  datatype Node =
    | StatError
    | File(size: nat, mtime: int)
    | Dir(mtime: int, entries: seq<Entry>)
    | UnreadableDir(mtime: int)

  /** One `readdir` result: the entry name and what `fs.stat` reports for it. */
  datatype Entry = Entry(name: string, node: Node)

  /** One `file_metadata` row, without its key. `size` and `last_indexed` may be SQL NULL. */
  datatype MetaRow = MetaRow(
    name: string,
    isDirectory: bool,
    size: Option<int>,
    lastModified: int,
    lastIndexed: Option<int>,
    parentPath: Option<string>,
    virtualPath: string)

  type Table = map<string, MetaRow>

  // ---------------------------------------------------------------------------------------
  // The downward walk, as functions of the tree

  /** The value `indexFileOrDirectory` returns for a node: a file's size, the sum over a
      directory's entries, and 0 for a failed stat or a failed listing. */
  function Total(node: Node): nat
    decreases node, 1, 0, 0
  {
    match node
    case File(size, _) => size
    case Dir(_, entries) => EntriesTotal(node, |entries|)
    case _ => 0
  }

  /** `totalSize` after the first `k` entries of a directory. */
  function EntriesTotal(node: Node, k: nat): nat
    requires node.Dir? && k <= |node.entries|
    decreases node, 0, k, 0
  {
    if k == 0 then 0 else EntriesTotal(node, k - 1) + Total(node.entries[k - 1].node)
  }

  /** The row the upsert writes for a visited path. */
  function RowFor(p: string, v: string, parent: Option<string>, isDir: bool, size: nat, mtime: int, now: int): MetaRow {
    MetaRow(Basename(p), isDir, Some(size), mtime, Some(now), parent, v)
  }

  /** Every row the walk from physical path `p` (virtual path `v`, parent `parent`) writes,
      later writes taking precedence: the entries' walks in listing order, then the node's
      own row. A failed stat writes nothing. */
  function Writes(p: string, v: string, parent: Option<string>, node: Node, now: int): Table
    decreases node, 3
  {
    match node
    case StatError => map[]
    case File(size, mtime) => map[p := RowFor(p, v, parent, false, size, mtime, now)]
    case UnreadableDir(mtime) => map[p := RowFor(p, v, parent, true, 0, mtime, now)]
    case Dir(mtime, entries) =>
      EntriesWrites(p, v, node, |entries|, now)[p := RowFor(p, v, parent, true, Total(node), mtime, now)]
  }

  /** The rows written by the walks of the first `k` entries of a directory. Each entry is
      walked from `path.join(p, name)`, with virtual path `posix.join(v, name)` and parent `v`. */
  function EntriesWrites(p: string, v: string, node: Node, k: nat, now: int): Table
    requires node.Dir? && k <= |node.entries|
    decreases node, 2
  {
    Fold(EntryTable(p, v, node, now), k)
  }

  /** One more entry adds its walk's rows and its size. */
  lemma EntriesStep(p: string, v: string, node: Node, i: nat, now: int)
    requires node.Dir? && i < |node.entries|
    ensures EntriesWrites(p, v, node, i + 1, now) == EntriesWrites(p, v, node, i, now) + ChildWrites(p, v, node, i, now)
    ensures EntriesTotal(node, i + 1) == EntriesTotal(node, i) + Total(node.entries[i].node)
  {
  }

  /** The union of the tables `f(0)`, ..., `f(k - 1)`, later tables taking precedence. */
  function Fold(f: nat -> Table, k: nat): Table {
    if k == 0 then map[] else Fold(f, k - 1) + f(k - 1)
  }

  /** The tables the walks of a directory's entries write, by entry index. */
  function EntryTable(p: string, v: string, node: Node, now: int): nat -> Table
    decreases node, 1
  {
    (j: nat) => if node.Dir? && j < |node.entries| then ChildWrites(p, v, node, j, now) else map[]
  }

  lemma EntryTableAt(p: string, v: string, node: Node, j: nat, now: int)
    requires node.Dir? && j < |node.entries|
    ensures EntryTable(p, v, node, now)(j) == ChildWrites(p, v, node, j, now)
  {
  }

  /** A key that only table `i` holds has in the union the value table `i` gives it. */
  lemma {:induction false} FoldAt(f: nat -> Table, k: nat, i: nat, c: string)
    requires i < k
    requires forall j :: 0 <= j < k && j != i ==> c !in f(j)
    ensures c in Fold(f, k) <==> c in f(i)
    ensures c in f(i) ==> Fold(f, k)[c] == f(i)[c]
  {
    if i < k - 1 {
      FoldAt(f, k - 1, i, c);
    } else {
      FoldMiss(f, k - 1, c);
    }
  }

  lemma {:induction false} FoldMiss(f: nat -> Table, k: nat, c: string)
    requires forall j :: 0 <= j < k ==> c !in f(j)
    ensures c !in Fold(f, k)
  {
    if k > 0 {
      FoldMiss(f, k - 1, c);
    }
  }

  lemma {:induction false} FoldUnder(f: nat -> Table, k: nat, p: string)
    requires forall j :: 0 <= j < k ==> AllUnder(f(j), p)
    ensures AllUnder(Fold(f, k), p)
  {
    if k > 0 {
      FoldUnder(f, k - 1, p);
      UnderUnion(Fold(f, k - 1), f(k - 1), p);
    }
  }

  lemma {:induction false} FoldRetimed(f: nat -> Table, g: nat -> Table, k: nat, later: int)
    requires forall j :: 0 <= j < k ==> Retimed(f(j), g(j), later)
    ensures Retimed(Fold(f, k), Fold(g, k), later)
  {
    if k > 0 {
      FoldRetimed(f, g, k - 1, later);
      RetimedUnion(Fold(f, k - 1), f(k - 1), Fold(g, k - 1), g(k - 1), later);
    }
  }

  /** `k` is `p` itself or lies below it. */
  predicate InSubtree(k: string, p: string) {
    k == p || StartsWith(k, DirPrefix(p))
  }

  lemma InSubtreeTrans(k: string, c: string, p: string)
    requires InSubtree(k, c) && InSubtree(c, p)
    ensures InSubtree(k, p)
  {
    if c != p && k != c {
      JoinExtends(c, "");
      StartsWithTrans(k, DirPrefix(c), c);
      StartsWithTrans(k, c, DirPrefix(p));
    }
  }

  /** A child path lies below its directory. */
  lemma JoinInSubtree(p: string, name: string)
    ensures InSubtree(Join(p, name), p)
  {
    var b := StripLeadingSlashes(name);
    if b != "" {
      StartsWithConcat(DirPrefix(p), b);
    }
  }

  /** Every row of `t` is at `p` or below it. */
  predicate AllUnder(t: Table, p: string) {
    forall q :: q in t ==> InSubtree(q, p)
  }

  /** The walk from `p` writes only rows at `p` and below it. */
  lemma {:induction false} WritesUnderPath(p: string, v: string, parent: Option<string>, node: Node, now: int)
    ensures AllUnder(Writes(p, v, parent, node, now), p)
    decreases node
  {
    if node.Dir? {
      forall j | 0 <= j < |node.entries| ensures AllUnder(ChildWrites(p, v, node, j, now), p) {
        var e := node.entries[j];
        assert e in node.entries;
        var c := Join(p, e.name);
        WritesUnderPath(c, Join(v, e.name), Some(v), e.node, now);
        JoinInSubtree(p, e.name);
        UnderTrans(ChildWrites(p, v, node, j, now), c, p);
      }
      DirUnder(p, v, parent, node, now);
    }
  }

  /** A directory's walk stays below it when each of its entries' walks does. */
  lemma DirUnder(p: string, v: string, parent: Option<string>, node: Node, now: int)
    requires node.Dir?
    requires forall j :: 0 <= j < |node.entries| ==> AllUnder(ChildWrites(p, v, node, j, now), p)
    ensures AllUnder(Writes(p, v, parent, node, now), p)
  {
    var n, f := |node.entries|, EntryTable(p, v, node, now);
    forall j | 0 <= j < n ensures AllUnder(f(j), p) {
      EntryTableAt(p, v, node, j, now);
    }
    FoldUnder(f, n, p);
  }

  lemma UnderTrans(t: Table, c: string, p: string)
    requires AllUnder(t, c) && InSubtree(c, p)
    ensures AllUnder(t, p)
  {
    forall q | q in t ensures InSubtree(q, p) {
      InSubtreeTrans(q, c, p);
    }
  }

  lemma UnderUnion(a: Table, b: Table, p: string)
    requires AllUnder(a, p) && AllUnder(b, p)
    ensures AllUnder(a + b, p)
  {
  }

  /** Map union is associative; the walk's effect composes entry by entry. */
  lemma UnionAssoc(a: Table, b: Table, c: Table)
    ensures (a + b) + c == a + (b + c)
  {
  }

  lemma UnionSingle(a: Table, k: string, r: MetaRow)
    ensures a + map[k := r] == a[k := r]
  {
  }

  lemma UnionUpdate(a: Table, b: Table, k: string, r: MetaRow)
    ensures (a + b)[k := r] == a + b[k := r]
  {
  }

  /** Every entry of a listing is a proper name, and no two entries share one, as `readdir`
      guarantees. */
  predicate WellFormedListing(node: Node)
    requires node.Dir?
  {
    && (forall j :: 0 <= j < |node.entries| ==> IsEntryName(node.entries[j].name))
    && (forall j, l :: 0 <= j < l < |node.entries| ==> node.entries[j].name != node.entries[l].name)
  }

  /** The physical path of the `i`-th entry of a directory at `p`. */
  function ChildPath(p: string, node: Node, i: nat): string
    requires node.Dir? && i < |node.entries|
  {
    Join(p, node.entries[i].name)
  }

  /** The rows the walk of the `i`-th entry writes. */
  function ChildWrites(p: string, v: string, node: Node, i: nat, now: int): Table
    requires node.Dir? && i < |node.entries|
    decreases node, 0
  {
    var e := node.entries[i];
    Writes(Join(p, e.name), Join(v, e.name), Some(v), e.node, now)
  }

  /** The walked path's own row: written for everything but a failed stat, with the
      subtree's total as its size, the given parent and virtual path, and the last component
      of the physical path as its name. */
  lemma IndexedRow(p: string, v: string, parent: Option<string>, node: Node, now: int)
    requires !node.StatError?
    ensures p in Writes(p, v, parent, node, now)
    ensures Writes(p, v, parent, node, now)[p]
         == MetaRow(Basename(p), !node.File?, Some(Total(node)), node.mtime, Some(now), parent, v)
  {
  }

  /** The walk of one entry never writes at a sibling's path. */
  lemma SiblingMiss(p: string, v: string, node: Node, i: nat, j: nat, now: int)
    requires node.Dir? && WellFormedListing(node)
    requires i < |node.entries| && j < |node.entries| && i != j
    ensures ChildPath(p, node, i) !in ChildWrites(p, v, node, j, now)
  {
    var e := node.entries[j];
    WritesUnderPath(Join(p, e.name), Join(v, e.name), Some(v), e.node, now);
    JoinNamesApart(p, node.entries[i].name, e.name);
  }

  /** Each entry of a directory is walked from `path.join(p, name)` with virtual path
      `posix.join(v, name)` and parent `v`: its row carries its name and its subtree's total,
      unless its stat failed, in which case there is no row at its path at all. */
  lemma ChildRow(p: string, v: string, parent: Option<string>, node: Node, i: nat, now: int)
    requires node.Dir? && WellFormedListing(node) && i < |node.entries|
    ensures var e := node.entries[i];
      var c := Join(p, e.name);
      var w := Writes(p, v, parent, node, now);
      && (e.node.StatError? ==> c !in w)
      && (!e.node.StatError? ==> c in w && w[c] == MetaRow(e.name, !e.node.File?, Some(Total(e.node)),
                                                             e.node.mtime, Some(now), Some(v), Join(v, e.name)))
  {
    ChildKeyRow(p, v, parent, node, i, now);
    ChildOwnRow(p, v, node, i, now);
  }

  /** At an entry's path, the directory's walk holds what the entry's own walk wrote. */
  lemma ChildKeyRow(p: string, v: string, parent: Option<string>, node: Node, i: nat, now: int)
    requires node.Dir? && WellFormedListing(node) && i < |node.entries|
    ensures var c, w, cw := ChildPath(p, node, i), Writes(p, v, parent, node, now), ChildWrites(p, v, node, i, now);
      (c in w <==> c in cw) && (c in cw ==> w[c] == cw[c])
  {
    var c := ChildPath(p, node, i);
    JoinName(p, node.entries[i].name);
    assert c != p by {
      assert |c| > |p|;
    }
    EntriesRowAt(p, v, node, i, now);
    DirWritesAt(p, v, parent, node, c, now);
  }

  /** Away from the directory's own path, its walk holds what its entries' walks wrote. */
  lemma DirWritesAt(p: string, v: string, parent: Option<string>, node: Node, c: string, now: int)
    requires node.Dir? && c != p
    ensures var w, ew := Writes(p, v, parent, node, now), EntriesWrites(p, v, node, |node.entries|, now);
      (c in w <==> c in ew) && (c in ew ==> w[c] == ew[c])
  {
  }

  /** An entry's own walk writes its row at its path, named after the entry, unless its stat
      failed. */
  lemma ChildOwnRow(p: string, v: string, node: Node, i: nat, now: int)
    requires node.Dir? && WellFormedListing(node) && i < |node.entries|
    ensures var e, c, cw := node.entries[i], ChildPath(p, node, i), ChildWrites(p, v, node, i, now);
      && (e.node.StatError? ==> c !in cw)
      && (!e.node.StatError? ==> c in cw && cw[c] == MetaRow(e.name, !e.node.File?, Some(Total(e.node)),
                                                               e.node.mtime, Some(now), Some(v), Join(v, e.name)))
  {
    var e := node.entries[i];
    BasenameOfJoin(p, e.name);
    if !e.node.StatError? {
      IndexedRow(Join(p, e.name), Join(v, e.name), Some(v), e.node, now);
    }
  }

  /** Among the entries' walks, only entry `i`'s own walk writes at its path. */
  lemma EntriesRowAt(p: string, v: string, node: Node, i: nat, now: int)
    requires node.Dir? && WellFormedListing(node) && i < |node.entries|
    ensures var c := ChildPath(p, node, i);
      var w, cw := EntriesWrites(p, v, node, |node.entries|, now), ChildWrites(p, v, node, i, now);
      (c in w <==> c in cw) && (c in cw ==> w[c] == cw[c])
  {
    var c := ChildPath(p, node, i);
    var n, f := |node.entries|, EntryTable(p, v, node, now);
    forall j | 0 <= j < n && j != i ensures c !in f(j) {
      EntryTableAt(p, v, node, j, now);
      SiblingMiss(p, v, node, i, j, now);
    }
    EntryTableAt(p, v, node, i, now);
    FoldAt(f, n, i, c);
  }

  /** The sizes the rows at the first `k` entry paths of `t` carry, a missing row or a NULL
      size counting 0. */
  function ChildRowSizes(t: Table, p: string, node: Node, k: nat): int
    requires node.Dir? && k <= |node.entries|
  {
    if k == 0 then 0
    else
      var c := ChildPath(p, node, k - 1);
      ChildRowSizes(t, p, node, k - 1) + (if c in t && t[c].size.Some? then t[c].size.value else 0)
  }

  /** A directory's row records the sum of the sizes its entries' rows record. */
  lemma DirSizeSumsChildRows(p: string, v: string, parent: Option<string>, node: Node, now: int)
    requires node.Dir? && WellFormedListing(node)
    ensures var w := Writes(p, v, parent, node, now);
      p in w && w[p].size == Some(ChildRowSizes(w, p, node, |node.entries|))
  {
    var w := Writes(p, v, parent, node, now);
    forall i | 0 <= i < |node.entries| ensures ChildRowHolds(w, p, node, i) {
      ChildRow(p, v, parent, node, i, now);
    }
    ChildSizesAgree(w, p, node, |node.entries|);
  }

  /** `t` holds, at the path of entry `i`, a row with that entry's total, or no row when
      the entry's stat failed. */
  predicate ChildRowHolds(t: Table, p: string, node: Node, i: nat)
    requires node.Dir? && i < |node.entries|
  {
    var c := ChildPath(p, node, i);
    var n := node.entries[i].node;
    (n.StatError? ==> c !in t) && (!n.StatError? ==> c in t && t[c].size == Some(Total(n)))
  }

  lemma {:induction false} ChildSizesAgree(t: Table, p: string, node: Node, k: nat)
    requires node.Dir? && k <= |node.entries|
    requires forall i :: 0 <= i < k ==> ChildRowHolds(t, p, node, i)
    ensures ChildRowSizes(t, p, node, k) == EntriesTotal(node, k)
  {
    if k > 0 {
      ChildSizesAgree(t, p, node, k - 1);
      assert ChildRowHolds(t, p, node, k - 1);
    }
  }

  /** Rows outside the walked subtree are untouched: neither added, removed nor changed. */
  lemma IndexFrame(rows: Table, p: string, v: string, parent: Option<string>, node: Node, now: int, k: string)
    requires !InSubtree(k, p)
    ensures var after := rows + Writes(p, v, parent, node, now);
      (k in after <==> k in rows) && (k in rows ==> after[k] == rows[k])
  {
    WritesUnderPath(p, v, parent, node, now);
  }

  /** `w'` holds the rows of `w`, each stamped with the indexing time `later`. */
  predicate Retimed(w: Table, w': Table, later: int) {
    w'.Keys == w.Keys && forall q :: q in w ==> w'[q] == w[q].(lastIndexed := Some(later))
  }

  lemma RetimedUnion(a: Table, b: Table, a': Table, b': Table, later: int)
    requires Retimed(a, a', later) && Retimed(b, b', later)
    ensures Retimed(a + b, a' + b', later)
  {
  }

  /** Walking the same tree at another time writes the same rows at the same paths, the
      indexing timestamp aside. */
  lemma {:induction false} WritesAtOtherTime(p: string, v: string, parent: Option<string>, node: Node, now: int, later: int)
    ensures Retimed(Writes(p, v, parent, node, now), Writes(p, v, parent, node, later), later)
    decreases node
  {
    if node.Dir? {
      forall j | 0 <= j < |node.entries|
        ensures Retimed(ChildWrites(p, v, node, j, now), ChildWrites(p, v, node, j, later), later)
      {
        var e := node.entries[j];
        assert e in node.entries;
        WritesAtOtherTime(Join(p, e.name), Join(v, e.name), Some(v), e.node, now, later);
        ChildRetimed(p, v, node, j, now, later);
      }
      DirRetimed(p, v, parent, node, now, later);
    } else {
      LeafRetimed(p, v, parent, node, now, later);
    }
  }

  lemma ChildRetimed(p: string, v: string, node: Node, j: nat, now: int, later: int)
    requires node.Dir? && j < |node.entries|
    requires var e := node.entries[j];
      Retimed(Writes(Join(p, e.name), Join(v, e.name), Some(v), e.node, now),
              Writes(Join(p, e.name), Join(v, e.name), Some(v), e.node, later), later)
    ensures Retimed(ChildWrites(p, v, node, j, now), ChildWrites(p, v, node, j, later), later)
  {
  }

  /** A file, an unreadable directory or a failed stat writes at most its own row. */
  lemma LeafRetimed(p: string, v: string, parent: Option<string>, node: Node, now: int, later: int)
    requires !node.Dir?
    ensures Retimed(Writes(p, v, parent, node, now), Writes(p, v, parent, node, later), later)
  {
  }

  /** A directory's walk at another time is retimed when each of its entries' walks is. */
  lemma DirRetimed(p: string, v: string, parent: Option<string>, node: Node, now: int, later: int)
    requires node.Dir?
    requires forall j :: 0 <= j < |node.entries| ==>
               Retimed(ChildWrites(p, v, node, j, now), ChildWrites(p, v, node, j, later), later)
    ensures Retimed(Writes(p, v, parent, node, now), Writes(p, v, parent, node, later), later)
  {
    var n, f, g := |node.entries|, EntryTable(p, v, node, now), EntryTable(p, v, node, later);
    forall j | 0 <= j < n ensures Retimed(f(j), g(j), later) {
      EntryTableAt(p, v, node, j, now);
      EntryTableAt(p, v, node, j, later);
    }
    FoldRetimed(f, g, n, later);
    var r := RowFor(p, v, parent, true, Total(node), node.mtime, now);
    RetimedUpdate(EntriesWrites(p, v, node, n, now), EntriesWrites(p, v, node, n, later), p, r, later);
  }

  lemma RetimedUpdate(w: Table, w': Table, k: string, r: MetaRow, later: int)
    requires Retimed(w, w', later)
    ensures Retimed(w[k := r], w'[k := r.(lastIndexed := Some(later))], later)
  {
  }

  /** Re-indexing an unchanged tree keeps the set of rows and every row's size; only the
      indexing timestamps of the walked rows move. */
  lemma ReindexKeepsSizes(rows: Table, p: string, v: string, parent: Option<string>, node: Node, now: int, later: int)
    ensures var once := rows + Writes(p, v, parent, node, now);
      var twice := once + Writes(p, v, parent, node, later);
      twice.Keys == once.Keys
      && forall k :: k in once ==>
           twice[k].size == once[k].size
           && (twice[k] == once[k] || twice[k] == once[k].(lastIndexed := Some(later)))
  {
    WritesAtOtherTime(p, v, parent, node, now, later);
  }

  // ---------------------------------------------------------------------------------------
  // The upward walk

  /** What one row adds to `SUM(size) ... WHERE parent_path = v`: its size when its parent
      is `v`, nothing (SQL NULL) otherwise. */
  function Contribution(row: MetaRow, v: string): Option<int> {
    if row.parentPath == Some(v) then row.size else None
  }

  /** SQL addition inside `SUM`: NULL operands are skipped, and the sum of nothing is NULL. */
  function AddSize(a: Option<int>, b: Option<int>): Option<int> {
    match (a, b)
    case (None, _) => b
    case (_, None) => a
    case (Some(x), Some(y)) => Some(x + y)
  }

  /** `SUM(size)` over the rows at `keys` whose parent is `v`. */
  ghost function SumOver(rows: Table, v: string, keys: set<string>): Option<int>
    requires keys <= rows.Keys
    decreases keys
  {
    if keys == {} then None
    else
      var k :| k in keys;
      AddSize(Contribution(rows[k], v), SumOver(rows, v, keys - {k}))
  }

  /** `SELECT SUM(size) FROM file_metadata WHERE parent_path = v`. */
  ghost function ParentSum(rows: Table, v: string): Option<int> {
    SumOver(rows, v, rows.Keys)
  }

  lemma AddSizeSwap(a: Option<int>, b: Option<int>, c: Option<int>)
    ensures AddSize(a, AddSize(b, c)) == AddSize(b, AddSize(a, c))
    ensures AddSize(a, AddSize(b, c)) == AddSize(AddSize(a, b), c)
  {
  }

  /** The sum does not depend on the order the rows are visited in: any row can be taken
      out first. */
  lemma SumRemove(rows: Table, v: string, keys: set<string>, k: string)
    requires keys <= rows.Keys && k in keys
    ensures SumOver(rows, v, keys) == AddSize(Contribution(rows[k], v), SumOver(rows, v, keys - {k}))
    decreases keys
  {
    var j :| j in keys && SumOver(rows, v, keys) == AddSize(Contribution(rows[j], v), SumOver(rows, v, keys - {j}));
    if j != k {
      SumRemove(rows, v, keys - {j}, k);
      SumRemove(rows, v, keys - {k}, j);
      assert keys - {j} - {k} == keys - {k} - {j};
      AddSizeSwap(Contribution(rows[j], v), Contribution(rows[k], v), SumOver(rows, v, keys - {k} - {j}));
    }
  }

  /** The sum is NULL exactly when no row with parent `v` has a non-NULL size; in particular
      a directory without child rows gets NULL, not 0. */
  lemma {:induction false} SumNullIff(rows: Table, v: string, keys: set<string>)
    requires keys <= rows.Keys
    ensures SumOver(rows, v, keys) == None
        <==> forall k :: k in keys ==> Contribution(rows[k], v) == None
    decreases keys
  {
    if keys != {} {
      var k :| k in keys;
      SumRemove(rows, v, keys, k);
      SumNullIff(rows, v, keys - {k});
    }
  }

  lemma ParentSumNull(rows: Table, v: string)
    ensures ParentSum(rows, v) == None
        <==> forall k :: k in rows ==> rows[k].parentPath != Some(v) || rows[k].size.None?
  {
    SumNullIff(rows, v, rows.Keys);
  }

  /** Where the upward walk stops: `!dirPath`, `/`, `.` and `..`. */
  predicate IsWalkStop(d: string) {
    d == "" || d == "/" || d == "." || d == ".."
  }

  /** Strictly decreases from a directory to its parent unless the parent is a stop. */
  function WalkMeasure(d: string): nat {
    if IsWalkStop(d) then 0 else |d| + 1
  }

  /** The effect of `updateParentDirectorySizes(d, v)`: at each step the directory's row, if
      there is one, gets the children's `SUM(size)` and a new indexing time; the walk goes
      on to both parents until a stop or a `dirname` fixpoint. */
  ghost function AncestorWalk(rows: Table, d: string, v: string, now: int): Table
    decreases WalkMeasure(d)
  {
    if IsWalkStop(d) then rows
    else
      var total := ParentSum(rows, v);
      var next := if d in rows then rows[d := rows[d].(size := total, lastIndexed := Some(now))] else rows;
      var pd := Dirname(d);
      if pd != d then AncestorWalk(next, pd, Dirname(v), now) else next
  }

  /** `k` is one of the physical directories the walk from `d` visits. */
  ghost predicate OnWalk(k: string, d: string)
    decreases WalkMeasure(d)
  {
    !IsWalkStop(d) && (k == d || (Dirname(d) != d && OnWalk(k, Dirname(d))))
  }

  lemma {:induction false} OnWalkShorter(k: string, d: string)
    requires OnWalk(k, d)
    ensures |k| <= |d|
    decreases WalkMeasure(d)
  {
    if k != d {
      OnWalkShorter(k, Dirname(d));
    }
  }

  /** The walk never adds or removes a row, changes only size and indexing time, and leaves
      every row off the walk as it was. */
  lemma {:induction false} WalkFrame(rows: Table, d: string, v: string, now: int)
    ensures var after := AncestorWalk(rows, d, v, now);
      && after.Keys == rows.Keys
      && (forall k :: k in rows ==>
            after[k] == rows[k].(size := after[k].size, lastIndexed := after[k].lastIndexed))
      && (forall k :: k in rows && !OnWalk(k, d) ==> after[k] == rows[k])
    decreases WalkMeasure(d)
  {
    if !IsWalkStop(d) {
      var next := if d in rows then rows[d := rows[d].(size := ParentSum(rows, v), lastIndexed := Some(now))] else rows;
      if Dirname(d) != d {
        WalkFrame(next, Dirname(d), Dirname(v), now);
      }
    }
  }

  /** The first directory of the walk, when it has a row, ends up with the `SUM(size)` of
      the rows whose parent is the given virtual path, as they were before the walk. */
  lemma WalkFirst(rows: Table, d: string, v: string, now: int)
    requires !IsWalkStop(d) && d in rows
    ensures d in AncestorWalk(rows, d, v, now)
    ensures AncestorWalk(rows, d, v, now)[d] == rows[d].(size := ParentSum(rows, v), lastIndexed := Some(now))
  {
    var next := rows[d := rows[d].(size := ParentSum(rows, v), lastIndexed := Some(now))];
    WalkFrame(rows, d, v, now);
    var pd := Dirname(d);
    if pd != d {
      WalkFrame(next, pd, Dirname(v), now);
      if OnWalk(d, pd) {
        OnWalkShorter(d, pd);
      }
    }
  }

  /** `dirname` applied `i` times: the directory the walk from `d` visits at its `i`-th step. */
  function Up(d: string, i: nat): string
    decreases i
  {
    if i == 0 then d else Up(Dirname(d), i - 1)
  }

  /** The walk from `d` comes to its `i`-th step: none of the directories before it is a stop
      or a `dirname` fixpoint, and the `i`-th is not a stop. */
  ghost predicate Reaches(d: string, i: nat)
    decreases i
  {
    !IsWalkStop(d) && (i == 0 || (Dirname(d) != d && Reaches(Dirname(d), i - 1)))
  }

  /** One step of the walk at `d`, keyed by `v`. */
  ghost function WalkStep(rows: Table, d: string, v: string, now: int): Table {
    if d in rows then rows[d := rows[d].(size := ParentSum(rows, v), lastIndexed := Some(now))] else rows
  }

  /** The table as it stands when the walk from `d` comes to its `i`-th step. */
  ghost function WalkBefore(rows: Table, d: string, v: string, now: int, i: nat): Table
    decreases i
  {
    if i == 0 || IsWalkStop(d) || Dirname(d) == d then rows
    else WalkBefore(WalkStep(rows, d, v, now), Dirname(d), Dirname(v), now, i - 1)
  }

  lemma {:induction false} WalkBeforeKeys(rows: Table, d: string, v: string, now: int, i: nat)
    ensures WalkBefore(rows, d, v, now, i).Keys == rows.Keys
    decreases i
  {
    if !(i == 0 || IsWalkStop(d) || Dirname(d) == d) {
      WalkBeforeKeys(WalkStep(rows, d, v, now), Dirname(d), Dirname(v), now, i - 1);
    }
  }

  /** Every directory the walk visits that has a row ends up with the `SUM(size)` of the rows
      whose parent is the matching virtual ancestor, `dirname` applied as often to `v`, over the
      table as it stands when the walk gets there. */
  lemma {:induction false} WalkEach(rows: Table, d: string, v: string, now: int, i: nat)
    requires Reaches(d, i) && Up(d, i) in rows
    ensures var before := WalkBefore(rows, d, v, now, i);
      var after := AncestorWalk(rows, d, v, now);
      && Up(d, i) in before && Up(d, i) in after
      && after[Up(d, i)] == before[Up(d, i)].(size := ParentSum(before, Up(v, i)), lastIndexed := Some(now))
    decreases i
  {
    WalkBeforeKeys(rows, d, v, now, i);
    if i == 0 {
      WalkFirst(rows, d, v, now);
    } else {
      var next := WalkStep(rows, d, v, now);
      assert AncestorWalk(rows, d, v, now) == AncestorWalk(next, Dirname(d), Dirname(v), now);
      WalkEach(next, Dirname(d), Dirname(v), now, i - 1);
    }
  }

  /** The sum at the `i`-th step reads the row the walk left on the directory below, which is
      final: each parent's size is computed from its child's updated size. */
  lemma {:induction false} WalkPropagates(rows: Table, d: string, v: string, now: int, i: nat)
    requires 1 <= i && Reaches(d, i) && Up(d, i - 1) in rows
    ensures var before := WalkBefore(rows, d, v, now, i);
      var after := AncestorWalk(rows, d, v, now);
      Up(d, i - 1) in before && Up(d, i - 1) in after && before[Up(d, i - 1)] == after[Up(d, i - 1)]
    decreases i
  {
    WalkBeforeKeys(rows, d, v, now, i);
    WalkFrame(rows, d, v, now);
    var next := WalkStep(rows, d, v, now);
    assert AncestorWalk(rows, d, v, now) == AncestorWalk(next, Dirname(d), Dirname(v), now);
    if i == 1 {
      WalkFirst(rows, d, v, now);
    } else {
      WalkPropagates(next, Dirname(d), Dirname(v), now, i - 1);
    }
  }

  /** `updateFileMetadata` stores a NULL parent for entries whose parent virtual path is `/`. */
  function ParentOf(v: string): (r: Option<string>)
    ensures r.None? <==> Dirname(v) == "/"
    ensures r.Some? ==> r.value == Dirname(v)
  {
    var pv := Dirname(v);
    if pv == "/" then None else Some(pv)
  }

  /** The walk started at a file's parent never reaches the file's own path. */
  lemma WalkMissesChild(f: string)
    ensures !OnWalk(f, Dirname(f))
  {
    if OnWalk(f, Dirname(f)) {
      OnWalkShorter(f, Dirname(f));
    }
  }

  /** The table after `updateFileMetadata(f, v)`. */
  ghost function UpdateEffect(rows: Table, f: string, v: string, node: Node, now: int): Table {
    AncestorWalk(rows + Writes(f, v, ParentOf(v), node, now), Dirname(f), Dirname(v), now)
  }

  /** After `updateFileMetadata(f, v)` the target carries its fresh row (with the parent as
      just described), and the physical parent, when it has a row, carries the `SUM(size)`
      of the rows whose parent is the virtual parent. */
  lemma UpdateFileMetadataEffect(rows: Table, f: string, v: string, node: Node, now: int)
    ensures var w := Writes(f, v, ParentOf(v), node, now);
      var after := UpdateEffect(rows, f, v, node, now);
      && (!node.StatError? ==> f in after && after[f] == w[f])
      && (!IsWalkStop(Dirname(f)) && Dirname(f) in rows + w ==>
            Dirname(f) in after && after[Dirname(f)].size == ParentSum(rows + w, Dirname(v)))
  {
    var w := Writes(f, v, ParentOf(v), node, now);
    WalkFrame(rows + w, Dirname(f), Dirname(v), now);
    WalkMissesChild(f);
    if !node.StatError? {
      IndexedRow(f, v, ParentOf(v), node, now);
    }
    if !IsWalkStop(Dirname(f)) && Dirname(f) in rows + w {
      WalkFirst(rows + w, Dirname(f), Dirname(v), now);
    }
  }

  /** After `updateFileMetadata(f, v)` every ancestor directory of `f` the walk reaches, when it
      has a row, carries the `SUM(size)` of the rows whose parent is the matching virtual
      ancestor of `v`, over the table as the walk finds it there. */
  lemma UpdateFileMetadataAncestors(rows: Table, f: string, v: string, node: Node, now: int, i: nat)
    requires Reaches(Dirname(f), i) && Up(Dirname(f), i) in rows + Writes(f, v, ParentOf(v), node, now)
    ensures var w := Writes(f, v, ParentOf(v), node, now);
      var after := UpdateEffect(rows, f, v, node, now);
      Up(Dirname(f), i) in after
      && after[Up(Dirname(f), i)].size == ParentSum(WalkBefore(rows + w, Dirname(f), Dirname(v), now, i), Up(Dirname(v), i))
  {
    WalkEach(rows + Writes(f, v, ParentOf(v), node, now), Dirname(f), Dirname(v), now, i);
  }

  // ---------------------------------------------------------------------------------------
  // Deleting

  /** `DELETE FROM file_metadata WHERE path = p OR path LIKE p/%`, with `LIKE` read as a
      plain prefix test. */
  function DeleteSubtree(rows: Table, p: string): (r: Table)
    ensures r.Keys <= rows.Keys
  {
    map k | k in rows && k != p && !StartsWith(k, p + "/") :: rows[k]
  }

  /** Deleting after indexing the same path removes everything the walk wrote: the walk writes
      only where the delete reaches, when the path has no trailing separator. */
  lemma DeleteUndoesIndex(rows: Table, p: string, v: string, parent: Option<string>, node: Node, now: int)
    requires p != "" && p[|p| - 1] != '/'
    ensures DeleteSubtree(rows + Writes(p, v, parent, node, now), p) == DeleteSubtree(rows, p)
  {
    WritesUnderPath(p, v, parent, node, now);
    DeleteAbsorbs(rows, Writes(p, v, parent, node, now), p);
  }

  /** Rows written only at `p` and below it are all removed by the delete of `p`. */
  lemma DeleteAbsorbs(rows: Table, w: Table, p: string)
    requires p != "" && p[|p| - 1] != '/'
    requires AllUnder(w, p)
    ensures DeleteSubtree(rows + w, p) == DeleteSubtree(rows, p)
  {
    assert DirPrefix(p) == p + "/";
  }

  /** A sibling, and everything below it, survives the delete: `/d/a2` is not under `/d/a`. */
  lemma DeleteKeepsSiblings(rows: Table, d: string, n: string, m: string, k: string)
    requires IsEntryName(n) && IsEntryName(m) && n != m
    requires k in rows && InSubtree(k, Join(d, m))
    ensures k in DeleteSubtree(rows, Join(d, n)) && DeleteSubtree(rows, Join(d, n))[k] == rows[k]
  {
    SiblingOutside(d, n, m, k);
  }

  /** A path at or below one entry of a directory is neither another entry nor below it. */
  lemma SiblingOutside(d: string, n: string, m: string, k: string)
    requires IsEntryName(n) && IsEntryName(m) && n != m
    requires InSubtree(k, Join(d, m))
    ensures k != Join(d, n) && !StartsWith(k, Join(d, n) + "/")
  {
    var q := Join(d, m);
    var p := Join(d, n);
    JoinNamesApart(d, m, n);
    JoinNamesApart(d, n, m);
    EntryPathPrefix(d, n);
    EntryPathPrefix(d, m);
    if k != q && StartsWith(k, p + "/") {
      PrefixesCompare(k, q + "/", p + "/");
      if StartsWith(q + "/", p + "/") {
        SlashPrefix(p, q);
      } else {
        SlashPrefix(q, p);
      }
    }
  }

  /** The directory prefix of an entry's path is the path and one separator. */
  lemma EntryPathPrefix(d: string, n: string)
    requires IsEntryName(n)
    ensures DirPrefix(Join(d, n)) == Join(d, n) + "/"
  {
    JoinName(d, n);
    var p := Join(d, n);
    assert p[|p| - 1] == n[|n| - 1];
    assert n[|n| - 1] in n;
  }

  /** A directory prefix `p/` of `q/` is a directory prefix of `q` itself, unless `p` is `q`. */
  lemma SlashPrefix(p: string, q: string)
    requires StartsWith(q + "/", p + "/") && p != q
    ensures StartsWith(q, p + "/")
  {
    if |p| == |q| {
      forall i | 0 <= i < |p| ensures p[i] == q[i] {
        assert (q + "/")[..|p| + 1][i] == (p + "/")[i];
      }
      assert false;
    } else {
      assert (q + "/")[..|p| + 1] == q[..|p| + 1];
    }
  }

  /** Two prefixes of one string: the shorter is a prefix of the longer. */
  lemma PrefixesCompare(s: string, a: string, b: string)
    requires StartsWith(s, a) && StartsWith(s, b)
    ensures StartsWith(a, b) || StartsWith(b, a)
  {
    if |b| <= |a| {
      assert a[..|b|] == s[..|b|];
    } else {
      assert b[..|a|] == s[..|a|];
    }
  }

  /** With the walk keyed by the virtual parent, the deleted entry's directory gets the
      `SUM(size)` of the children that remain. */
  lemma FixedDeleteParentSize(rows: Table, f: string, v: string, now: int)
    requires !IsWalkStop(Dirname(f)) && Dirname(f) in DeleteSubtree(rows, f)
    ensures var rest := DeleteSubtree(rows, f);
      var after := AncestorWalk(rest, Dirname(f), Dirname(v), now);
      Dirname(f) in after && after[Dirname(f)].size == ParentSum(rest, Dirname(v))
  {
    WalkFirst(DeleteSubtree(rows, f), Dirname(f), Dirname(v), now);
  }

  /** A user root `/data/alice` (virtual `/alice`) holding `a.txt` (5 bytes) and `b.txt`
      (7 bytes). */
  function ExampleRows(d: string, a: string, b: string): Table {
    map[d := MetaRow("alice", true, Some(12), 0, Some(0), None, "/alice"),
        a := MetaRow("a.txt", false, Some(5), 0, Some(0), Some("/alice"), "/alice/a.txt"),
        b := MetaRow("b.txt", false, Some(7), 0, Some(0), Some("/alice"), "/alice/b.txt")]
  }

  /** Deleting `b.txt` leaves the root and `a.txt`. */
  lemma ExampleDelete(d: string, a: string, b: string)
    requires d == "/data/alice" && a == "/data/alice/a.txt" && b == "/data/alice/b.txt"
    ensures DeleteSubtree(ExampleRows(d, a, b), b) == ExampleRows(d, a, b) - {b}
    ensures (ExampleRows(d, a, b) - {b}).Keys == {d, a}
  {
    assert a != b by { assert a[12] != b[12]; }
    assert !StartsWith(d, b + "/") && !StartsWith(a, b + "/");
  }

  /** The remaining children of `/alice` sum to 5, and no row has `/data/alice` as parent. */
  lemma ExampleSums(rows: Table, d: string, a: string)
    requires d == "/data/alice" && a == "/data/alice/a.txt"
    requires rows.Keys == {d, a}
    requires rows[d] == MetaRow("alice", true, Some(12), 0, Some(0), None, "/alice")
    requires rows[a] == MetaRow("a.txt", false, Some(5), 0, Some(0), Some("/alice"), "/alice/a.txt")
    ensures ParentSum(rows, "/alice") == Some(5)
    ensures ParentSum(rows, d) == None
  {
    assert d != a;
    SumRemove(rows, "/alice", rows.Keys, a);
    assert rows.Keys - {a} == {d};
    SumRemove(rows, "/alice", {d}, d);
    assert {d} - {d} == {};
    assert Some("/alice") != Some(d) by { assert |"/alice"| != |d|; }
    ParentSumNull(rows, d);
  }

  /** The paths of the example and their parents. */
  lemma ExamplePaths(d: string, b: string, vb: string)
    requires d == "/data/alice" && b == "/data/alice/b.txt" && vb == "/alice/b.txt"
    ensures Dirname(b) == d && Dirname(vb) == "/alice" && !IsWalkStop(d)
  {
    assert b == d + "/" + "b.txt";
    assert vb == "/alice" + "/" + "b.txt";
    DirnameOfChild(d, "b.txt");
    DirnameOfChild("/alice", "b.txt");
  }

  /** As written, deleting `/data/alice/b.txt` sets the size of `/data/alice` to NULL: the
      walk looks for rows whose parent is `/data/alice`, while the rows record the virtual
      parent `/alice`. Keyed by the virtual parent, the size is 5, the remaining child. */
  lemma DeleteLosesParentSize(d: string, a: string, b: string, now: int)
    requires d == "/data/alice" && a == "/data/alice/a.txt" && b == "/data/alice/b.txt"
    ensures var rest := DeleteSubtree(ExampleRows(d, a, b), b);
      var asWritten := AncestorWalk(rest, Dirname(b), Dirname(b), now);
      var fixed := AncestorWalk(rest, Dirname(b), Dirname("/alice/b.txt"), now);
      d in asWritten && asWritten[d].size == None
      && d in fixed && fixed[d].size == Some(5)
  {
    var rows := ExampleRows(d, a, b);
    ExampleDelete(d, a, b);
    var rest := DeleteSubtree(rows, b);
    ExamplePaths(d, b, "/alice/b.txt");
    ExampleSums(rest, d, a);
    WalkFirst(rest, d, d, now);
    WalkFirst(rest, d, "/alice", now);
  }

  // ---------------------------------------------------------------------------------------
  // Indexing every configured root

  /** What `fs.stat` sees at a configured real path; an unknown path fails to stat. */
  function NodeAt(fs: map<string, Node>, p: string): Node {
    if p in fs then fs[p] else StatError
  }

  /** The rows written by indexing the `j`th registry row from its real path, with its
      virtual path and a NULL parent. */
  function RootWalk(paths: seq<PathRow>, fs: map<string, Node>, now: int, j: nat): Table
    requires j < |paths|
  {
    var r := paths[j];
    Writes(r.realPath, r.virtualPath, None, NodeAt(fs, r.realPath), now)
  }

  function RootTable(paths: seq<PathRow>, fs: map<string, Node>, now: int): nat -> Table {
    (j: nat) => if j < |paths| then RootWalk(paths, fs, now, j) else map[]
  }

  /** The rows written by indexing the first `k` registry rows in table order. */
  function RootWrites(paths: seq<PathRow>, fs: map<string, Node>, now: int, k: nat): Table
    requires k <= |paths|
  {
    Fold(RootTable(paths, fs, now), k)
  }

  lemma RootTableAt(paths: seq<PathRow>, fs: map<string, Node>, now: int, j: nat)
    requires j < |paths|
    ensures RootTable(paths, fs, now)(j) == RootWalk(paths, fs, now, j)
  {
  }

  /** One more registry row adds its walk's rows. */
  lemma RootStep(paths: seq<PathRow>, fs: map<string, Node>, now: int, i: nat)
    requires i < |paths|
    ensures RootWrites(paths, fs, now, i + 1) == RootWrites(paths, fs, now, i) + RootWalk(paths, fs, now, i)
  {
    RootTableAt(paths, fs, now, i);
  }

  /** The last table of a union that holds a key decides its value. */
  lemma {:induction false} FoldLast(f: nat -> Table, k: nat, i: nat, c: string)
    requires i < k && c in f(i)
    requires forall j :: i < j < k ==> c !in f(j)
    ensures c in Fold(f, k) && Fold(f, k)[c] == f(i)[c]
  {
    if i < k - 1 {
      FoldLast(f, k - 1, i, c);
      UnionLeft(Fold(f, k - 1), f(k - 1), c);
    } else {
      UnionRight(Fold(f, k - 1), f(k - 1), c);
    }
  }

  /** A path below none of the configured real paths is untouched by indexing them all. */
  lemma RootsFrame(paths: seq<PathRow>, fs: map<string, Node>, now: int, k: nat, q: string)
    requires k <= |paths|
    requires forall j :: 0 <= j < k ==> !InSubtree(q, paths[j].realPath)
    ensures q !in RootWrites(paths, fs, now, k)
  {
    forall j | 0 <= j < k ensures q !in RootTable(paths, fs, now)(j) {
      RootTableAt(paths, fs, now, j);
      var r := paths[j];
      WritesUnderPath(r.realPath, r.virtualPath, None, NodeAt(fs, r.realPath), now);
    }
    FoldMiss(RootTable(paths, fs, now), k, q);
  }

  /** A configured root that stats, and that no later root's walk overwrites, ends up with its
      own row: its virtual path and a NULL parent. */
  lemma RootRow(paths: seq<PathRow>, fs: map<string, Node>, now: int, k: nat, i: nat)
    requires i < k <= |paths|
    requires !NodeAt(fs, paths[i].realPath).StatError?
    requires forall j :: i < j < k ==> !InSubtree(paths[i].realPath, paths[j].realPath)
    ensures var r := paths[i];
      var n := NodeAt(fs, r.realPath);
      r.realPath in RootWrites(paths, fs, now, k)
      && RootWrites(paths, fs, now, k)[r.realPath]
         == MetaRow(Basename(r.realPath), !n.File?, Some(Total(n)), n.mtime, Some(now), None, r.virtualPath)
  {
    var r := paths[i];
    IndexedRow(r.realPath, r.virtualPath, None, NodeAt(fs, r.realPath), now);
    RootKeepsOwnRow(paths, fs, now, k, i);
  }

  /** The row a root's own walk writes at the root survives the walks of the later roots. */
  lemma RootKeepsOwnRow(paths: seq<PathRow>, fs: map<string, Node>, now: int, k: nat, i: nat)
    requires i < k <= |paths|
    requires paths[i].realPath in RootWalk(paths, fs, now, i)
    requires forall j :: i < j < k ==> !InSubtree(paths[i].realPath, paths[j].realPath)
    ensures paths[i].realPath in RootWrites(paths, fs, now, k)
    ensures RootWrites(paths, fs, now, k)[paths[i].realPath] == RootWalk(paths, fs, now, i)[paths[i].realPath]
  {
    var q := paths[i].realPath;
    forall j | i < j < k ensures q !in RootTable(paths, fs, now)(j) {
      RootTableAt(paths, fs, now, j);
      var r := paths[j];
      WritesUnderPath(r.realPath, r.virtualPath, None, NodeAt(fs, r.realPath), now);
    }
    RootTableAt(paths, fs, now, i);
    FoldLast(RootTable(paths, fs, now), k, i, q);
  }

  /** A key the right-hand table holds is looked up there. */
  lemma UnionRight(a: Table, b: Table, q: string)
    requires q in b
    ensures q in a + b && (a + b)[q] == b[q]
  {
  }

  /** A key the right-hand table lacks is looked up in the left-hand one. */
  lemma UnionLeft(a: Table, b: Table, q: string)
    requires q !in b
    ensures (q in a + b <==> q in a) && (q in a ==> (a + b)[q] == a[q])
  {
  }

  // ---------------------------------------------------------------------------------------
  // The table

  class MetadataCache {
    /** `file_metadata`, keyed by `path`. */
    var rows: Table

    constructor(initial: Table)
      ensures rows == initial
    {
      rows := initial;
    }

    /** `indexFileOrDirectory(filePath, virtualPath, parentPath)` on the tree `node` observed
        at `filePath`: returns the subtree's total size, and upserts exactly the rows of the
        walk — every other row is as it was. */
    method IndexFileOrDirectory(filePath: string, virtualPath: string, parentPath: Option<string>, node: Node, now: int)
      returns (totalSize: nat)
      modifies this
      ensures totalSize == Total(node)
      ensures rows == old(rows) + Writes(filePath, virtualPath, parentPath, node, now)
      decreases node, 1
    {
      match node
      case StatError =>
        totalSize := 0;
      case File(size, mtime) =>
        totalSize := size;
        UnionSingle(rows, filePath, RowFor(filePath, virtualPath, parentPath, false, totalSize, mtime, now));
        rows := rows[filePath := RowFor(filePath, virtualPath, parentPath, false, totalSize, mtime, now)];
      case UnreadableDir(mtime) =>
        totalSize := 0;
        UnionSingle(rows, filePath, RowFor(filePath, virtualPath, parentPath, true, totalSize, mtime, now));
        rows := rows[filePath := RowFor(filePath, virtualPath, parentPath, true, totalSize, mtime, now)];
      case Dir(mtime, items) =>
        totalSize := IndexEntries(filePath, virtualPath, node, now);
        UnionUpdate(old(rows), EntriesWrites(filePath, virtualPath, node, |items|, now), filePath,
                    RowFor(filePath, virtualPath, parentPath, true, totalSize, mtime, now));
        rows := rows[filePath := RowFor(filePath, virtualPath, parentPath, true, totalSize, mtime, now)];
    }

    /** The loop of `indexFileOrDirectory` over a directory's entries: indexes each entry in
        listing order and returns the sum of their sizes. */
    method IndexEntries(filePath: string, virtualPath: string, node: Node, now: int) returns (totalSize: nat)
      requires node.Dir?
      modifies this
      ensures totalSize == Total(node)
      ensures rows == old(rows) + EntriesWrites(filePath, virtualPath, node, |node.entries|, now)
      decreases node, 0
    {
      var items := node.entries;
      totalSize := 0;
      for i := 0 to |items|
        invariant totalSize == EntriesTotal(node, i)
        invariant rows == old(rows) + EntriesWrites(filePath, virtualPath, node, i, now)
      {
        var item := items[i];
        var itemPath := Join(filePath, item.name);
        var itemVirtualPath := Join(virtualPath, item.name);
        EntriesStep(filePath, virtualPath, node, i, now);
        UnionAssoc(old(rows), EntriesWrites(filePath, virtualPath, node, i, now),
                   Writes(itemPath, itemVirtualPath, Some(virtualPath), item.node, now));
        var itemSize := IndexFileOrDirectory(itemPath, itemVirtualPath, Some(virtualPath), item.node, now);
        totalSize := totalSize + itemSize;
      }
    }

    /** `SELECT SUM(size) as total FROM file_metadata WHERE parent_path = ?`, evaluated row
        by row; the table is not changed. */
    method QueryParentSum(virtualPath: string) returns (total: Option<int>)
      ensures total == ParentSum(rows, virtualPath)
    {
      total := None;
      var remaining := rows.Keys;
      while remaining != {}
        invariant remaining <= rows.Keys
        invariant ParentSum(rows, virtualPath) == AddSize(total, SumOver(rows, virtualPath, remaining))
        decreases remaining
      {
        var k :| k in remaining;
        SumRemove(rows, virtualPath, remaining, k);
        AddSizeSwap(total, Contribution(rows[k], virtualPath), SumOver(rows, virtualPath, remaining - {k}));
        total := AddSize(total, Contribution(rows[k], virtualPath));
        remaining := remaining - {k};
      }
    }

    /** `updateParentDirectorySizes(dirPath, virtualPath)`: rewrites the size of each
        ancestor that has a row, walking both paths up together. */
    method UpdateParentDirectorySizes(dirPath: string, virtualPath: string, now: int)
      modifies this
      ensures rows == AncestorWalk(old(rows), dirPath, virtualPath, now)
      decreases WalkMeasure(dirPath)
    {
      if IsWalkStop(dirPath) {
        return;
      }
      var totalSize := QueryParentSum(virtualPath);
      if dirPath in rows {
        rows := rows[dirPath := rows[dirPath].(size := totalSize, lastIndexed := Some(now))];
      }
      var parentDir := Dirname(dirPath);
      var parentVirtualPath := Dirname(virtualPath);
      if parentDir != dirPath {
        UpdateParentDirectorySizes(parentDir, parentVirtualPath, now);
      }
    }

    /** `updateFileMetadata(filePath, virtualPath)`: re-indexes the target, then refreshes
        the sizes of its ancestors. */
    method UpdateFileMetadata(filePath: string, virtualPath: string, node: Node, now: int)
      modifies this
      ensures rows == UpdateEffect(old(rows), filePath, virtualPath, node, now)
    {
      var parentDir := Dirname(filePath);
      var parentVirtualPath := Dirname(virtualPath);
      var _ := IndexFileOrDirectory(filePath, virtualPath, if parentVirtualPath == "/" then None else Some(parentVirtualPath), node, now);
      UpdateParentDirectorySizes(parentDir, parentVirtualPath, now);
    }

    /** `deleteFileMetadata(filePath)` as written: removes the subtree, then starts the
        upward walk with the physical parent as the virtual key too. */
    method DeleteFileMetadata(filePath: string, now: int)
      modifies this
      ensures rows == AncestorWalk(DeleteSubtree(old(rows), filePath), Dirname(filePath), Dirname(filePath), now)
    {
      rows := DeleteSubtree(rows, filePath);
      var parentDir := Dirname(filePath);
      UpdateParentDirectorySizes(parentDir, Dirname(filePath), now);
    }

    /** The delete with the walk keyed by the virtual parent, as `updateFileMetadata` does. */
    method DeleteFileMetadataFixed(filePath: string, virtualPath: string, now: int)
      modifies this
      ensures rows == AncestorWalk(DeleteSubtree(old(rows), filePath), Dirname(filePath), Dirname(virtualPath), now)
    {
      rows := DeleteSubtree(rows, filePath);
      var parentDir := Dirname(filePath);
      UpdateParentDirectorySizes(parentDir, Dirname(virtualPath), now);
    }

    /** `indexAllRootPaths()`: indexes every registry row from its real path, in table
        order, with a NULL parent. */
    method IndexAllRootPaths(table: UserPathTable, fs: map<string, Node>, now: int)
      modifies this
      ensures rows == old(rows) + RootWrites(table.paths, fs, now, |table.paths|)
    {
      var userPaths := table.paths;
      for i := 0 to |userPaths|
        invariant rows == old(rows) + RootWrites(userPaths, fs, now, i)
      {
        var userPath := userPaths[i];
        RootStep(userPaths, fs, now, i);
        UnionAssoc(old(rows), RootWrites(userPaths, fs, now, i), RootWalk(userPaths, fs, now, i));
        var _ := IndexFileOrDirectory(userPath.realPath, userPath.virtualPath, None, NodeAt(fs, userPath.realPath), now);
      }
    }
  }
}
