/**
 * The filtered directory tree shown to the model (`get_repo_structure` in
 * `src/code_explainer/git_utils.py`).
 *
 * The file system is given as a value: an `Entry` is a file, a directory
 * with its listing (`readable` is false when listing it raises
 * `PermissionError`), or something that is neither (a dangling link, say). The tree is drawn one
 * line per entry with box-drawing connectors, directories first, skipping
 * build and cache directories and compiled files, and going no deeper than
 * `max_depth` levels below the root.
 */
module RepoTree {
  import opened Wrappers
  import opened Text

  datatype Entry =
    | File(name: string)
    | Dir(name: string, readable: bool, listing: seq<Entry>)
    | Other(name: string)

  /** The names of `SKIP_DIRS` (a set in the source; only membership is ever asked). */
  const SKIP_DIRS: seq<string> := [
    ".git", ".hg", ".svn", "node_modules", "__pycache__",
    ".tox", ".venv", "venv", ".env", "env", ".eggs",
    "dist", "build", ".mypy_cache", ".pytest_cache",
    ".ruff_cache", "htmlcov", ".coverage", "*.egg-info"]

  /** The names of `SKIP_SUFFIXES`. */
  const SKIP_SUFFIXES: seq<string> := [".pyc", ".pyo", ".so", ".o", ".a", ".dylib"]

  /** Python's `x in names` for a collection of names, one name at a time. */
  predicate Listed(x: string, names: seq<string>)
  {
    names != [] && (x == names[0] || Listed(x, names[1..]))
  }

  lemma {:induction false} ListedIff(x: string, names: seq<string>)
    ensures Listed(x, names) <==> x in names
  {
    if names != [] {
      ListedIff(x, names[1..]);
      assert names == [names[0]] + names[1..];
    }
  }

  /** `Path(name).suffix`: from the last dot on, unless that dot is first or last. */
  function Suffix(name: string): (r: string)
    ensures r == [] || (r[0] == '.' && EndsWith(name, r) && |r| < |name|)
  {
    match LastIndexOf(name, '.')
    case Some(i) =>
      if 0 < i < |name| - 1 then name[i..] else ""
    case None => ""
  }

  /**
   * The suffix is the last `.` and what follows it, with no further `.`; it
   * is empty exactly when the name has no `.`, ends with one, or has its only
   * `.` in front (a hidden name such as `.bashrc`).
   */
  lemma SuffixSpec(name: string)
    ensures var r := Suffix(name);
      && (r != [] ==> 2 <= |r| < |name| && r[0] == '.' && '.' !in r[1..] && EndsWith(name, r))
      && (r == [] <==> ('.' !in name || name[|name| - 1] == '.' || (name[0] == '.' && '.' !in name[1..])))
  {
    match LastIndexOf(name, '.')
    case None =>
    case Some(i) =>
      assert name[i] == '.' && '.' !in name[i + 1..];
      if 0 < i < |name| - 1 {
        assert name[i..][1..] == name[i + 1..];
        assert name[|name| - 1] in name[i + 1..];
        assert name[i] in name[1..] by {
          assert name[1..][i - 1] == name[i];
        }
      } else if i == 0 {
        assert name[1..] == name[i + 1..];
      } else {
        assert name[|name| - 1] == '.';
      }
  }

  /** The filter of `_walk`: an entry matching any of these is neither shown nor entered. */
  predicate Skipped(e: Entry)
  {
    || (StartsWith(e.name, ".") && Listed(e.name, SKIP_DIRS))
    || (e.Dir? && Listed(e.name, SKIP_DIRS))
    || (e.Dir? && EndsWith(e.name, ".egg-info"))
    || (e.File? && Listed(Suffix(e.name), SKIP_SUFFIXES))
  }

  /**
   * An entry is skipped exactly when it is a hidden name from `SKIP_DIRS`
   * (file or directory), a directory named in `SKIP_DIRS` or ending in
   * `.egg-info`, or a file whose suffix is one of `SKIP_SUFFIXES`.
   */
  lemma SkippedIff(e: Entry)
    ensures Skipped(e) <==>
      || (StartsWith(e.name, ".") && e.name in SKIP_DIRS)
      || (e.Dir? && e.name in SKIP_DIRS)
      || (e.Dir? && EndsWith(e.name, ".egg-info"))
      || (e.File? && Suffix(e.name) in SKIP_SUFFIXES)
  {
    ListedIff(e.name, SKIP_DIRS);
    ListedIff(Suffix(e.name), SKIP_SUFFIXES);
  }

  // ---------------------------------------------------------------------
  // Ordering: `sorted(..., key=lambda e: (not e.is_dir(), e.name))`
  // ---------------------------------------------------------------------

  /** The sort key of `a` is smaller than that of `b`. */
  predicate KeyLess(a: Entry, b: Entry)
  {
    (a.Dir? && !b.Dir?) || (a.Dir? == b.Dir? && Less(a.name, b.name))
  }

  lemma KeyLessTransitive(a: Entry, b: Entry, c: Entry)
    requires KeyLess(a, b) && KeyLess(b, c)
    ensures KeyLess(a, c)
  {
    if a.Dir? == b.Dir? == c.Dir? {
      LessTransitive(a.name, b.name, c.name);
    }
  }

  /** No entry comes after one with a larger key. */
  predicate SortedByKey(s: seq<Entry>)
  {
    forall i, j :: 0 <= i < j < |s| ==> !KeyLess(s[j], s[i])
  }

  /** Places `x` after every element whose key is not larger (so equal keys keep their order). */
  function Insert(s: seq<Entry>, x: Entry): (r: seq<Entry>)
    ensures multiset(r) == multiset(s) + multiset{x}
  {
    if s == [] then [x]
    else if KeyLess(x, s[0]) then [x] + s
    else
      assert s == [s[0]] + s[1..];
      [s[0]] + Insert(s[1..], x)
  }

  lemma {:induction false} InsertSorted(s: seq<Entry>, x: Entry)
    requires SortedByKey(s)
    ensures SortedByKey(Insert(s, x))
  {
    if s == [] {
    } else if KeyLess(x, s[0]) {
      InsertFrontSorted(s, x);
    } else {
      InsertSorted(s[1..], x);
      InsertLaterSorted(s, x);
    }
  }

  /** `x` placed in front of a sorted sequence whose first key is larger. */
  lemma InsertFrontSorted(s: seq<Entry>, x: Entry)
    requires SortedByKey(s) && s != [] && KeyLess(x, s[0])
    ensures SortedByKey([x] + s)
  {
    var r := [x] + s;
    forall i, j | 0 <= i < j < |r| ensures !KeyLess(r[j], r[i]) {
      if i == 0 {
        assert r[j] == s[j - 1];
        if KeyLess(r[j], x) {
          KeyLessTransitive(r[j], x, s[0]);
          LessIrreflexive(s[0].name);
        }
      } else {
        assert r[i] == s[i - 1] && r[j] == s[j - 1];
      }
    }
  }

  /** The head of a sorted sequence stays in front of `x` inserted into the rest. */
  lemma InsertLaterSorted(s: seq<Entry>, x: Entry)
    requires SortedByKey(s) && s != [] && !KeyLess(x, s[0])
    requires SortedByKey(Insert(s[1..], x))
    ensures SortedByKey([s[0]] + Insert(s[1..], x))
  {
    var rest := Insert(s[1..], x);
    var r := [s[0]] + rest;
    HeadNotAbove(s, x);
    forall i, j | 0 <= i < j < |r| ensures !KeyLess(r[j], r[i]) {
      assert r[j] == rest[j - 1];
      if i > 0 {
        assert r[i] == rest[i - 1];
      }
    }
  }

  /** No element of `x` inserted into the tail has a smaller key than the head. */
  lemma HeadNotAbove(s: seq<Entry>, x: Entry)
    requires SortedByKey(s) && s != [] && !KeyLess(x, s[0])
    ensures forall e :: e in multiset(Insert(s[1..], x)) ==> !KeyLess(e, s[0])
  {
    forall e | e in multiset(Insert(s[1..], x)) ensures !KeyLess(e, s[0]) {
      if e != x {
        assert e in multiset(s[1..]);
        var k :| 0 <= k < |s[1..]| && s[1..][k] == e;
        assert s[k + 1] == e;
      }
    }
  }

  /** Python's `sorted` with the key above: a stable insertion sort. */
  function Sort(s: seq<Entry>): (r: seq<Entry>)
    ensures multiset(r) == multiset(s)
  {
    if s == [] then []
    else
      assert s == s[..|s| - 1] + [s[|s| - 1]];
      Insert(Sort(s[..|s| - 1]), s[|s| - 1])
  }

  lemma {:induction false} SortSorted(s: seq<Entry>)
    ensures SortedByKey(Sort(s))
  {
    if s != [] {
      SortSorted(s[..|s| - 1]);
      InsertSorted(Sort(s[..|s| - 1]), s[|s| - 1]);
    }
  }

  // ---------------------------------------------------------------------
  // Filtering
  // ---------------------------------------------------------------------

  /** The entries of `s` that `skip` does not reject, in order. */
  function Keep(s: seq<Entry>, skip: Entry -> bool): (r: seq<Entry>)
    ensures |r| <= |s|
  {
    if s == [] then []
    else if skip(s[|s| - 1]) then Keep(s[..|s| - 1], skip)
    else Keep(s[..|s| - 1], skip) + [s[|s| - 1]]
  }

  /** `Keep` over one more entry. */
  lemma KeepSnoc(s: seq<Entry>, x: Entry, skip: Entry -> bool)
    ensures Keep(s + [x], skip) == if skip(x) then Keep(s, skip) else Keep(s, skip) + [x]
  {
    assert (s + [x])[..|s|] == s;
  }

  /** `Keep` keeps exactly the entries that are not rejected. */
  lemma {:induction false} KeepMembers(s: seq<Entry>, skip: Entry -> bool, x: Entry)
    ensures x in Keep(s, skip) <==> x in s && !skip(x)
  {
    if s != [] {
      KeepMembers(s[..|s| - 1], skip, x);
      assert s == s[..|s| - 1] + [s[|s| - 1]];
    }
  }

  /** `Keep` leaves the survivors in their order. */
  lemma {:induction false} KeepSorted(s: seq<Entry>, skip: Entry -> bool)
    requires SortedByKey(s)
    ensures SortedByKey(Keep(s, skip))
  {
    if s != [] {
      var init := s[..|s| - 1];
      assert SortedByKey(init);
      KeepSorted(init, skip);
      if !skip(s[|s| - 1]) {
        var r := Keep(init, skip) + [s[|s| - 1]];
        forall i, j | 0 <= i < j < |r| ensures !KeyLess(r[j], r[i]) {
          if j == |r| - 1 {
            KeepMembers(init, skip, r[i]);
            var k :| 0 <= k < |init| && init[k] == r[i];
          }
        }
      }
    }
  }

  /** The loop of `_walk` that builds `filtered`. */
  method FilterEntries(entries: seq<Entry>) returns (filtered: seq<Entry>)
    ensures filtered == Keep(entries, Skipped)
  {
    filtered := [];
    for i := 0 to |entries|
      invariant filtered == Keep(entries[..i], Skipped)
    {
      var entry := entries[i];
      assert entries[..i + 1] == entries[..i] + [entry];
      KeepSnoc(entries[..i], entry, Skipped);
      // the four `continue` tests of the loop, in the source's order
      if !Skipped(entry) {
        filtered := filtered + [entry];
      }
    }
    assert entries[..|entries|] == entries;
  }

  /** What one level of `_walk` shows of a listing, in the order shown. */
  function Visible(listing: seq<Entry>): (vs: seq<Entry>)
    ensures forall e :: e in vs ==> e in listing
  {
    var vs := Keep(Sort(listing), Skipped);
    assert forall e :: e in vs ==> e in listing by {
      forall e | e in vs ensures e in listing {
        KeepMembers(Sort(listing), Skipped, e);
        assert e in multiset(Sort(listing));
      }
    }
    vs
  }

  /**
   * Each level is ordered: directories before everything else, and names
   * ascending within each group; nothing skipped is shown, and everything
   * else of the listing is.
   */
  lemma VisibleOrdered(listing: seq<Entry>)
    ensures var vs := Visible(listing);
      && (forall i, j :: 0 <= i < j < |vs| && vs[j].Dir? ==> vs[i].Dir?)
      && (forall i, j :: 0 <= i < j < |vs| && vs[i].Dir? == vs[j].Dir? ==> !Less(vs[j].name, vs[i].name))
      && (forall x :: x in vs <==> x in listing && !Skipped(x))
  {
    SortSorted(listing);
    KeepSorted(Sort(listing), Skipped);
    forall x ensures x in Visible(listing) <==> x in listing && !Skipped(x) {
      KeepMembers(Sort(listing), Skipped, x);
      assert x in Sort(listing) <==> x in multiset(Sort(listing));
    }
  }

  // ---------------------------------------------------------------------
  // The drawing
  // ---------------------------------------------------------------------

  function Connector(isLast: bool): string
  {
    if isLast then "└── " else "├── "
  }

  function Extension(isLast: bool): string
  {
    if isLast then "    " else "│   "
  }

  /** One drawn line: `prefix + connector + entry.name`, with the depth it was drawn at. */
  datatype Row = Row(prefix: string, isLast: bool, entry: Entry, depth: int)

  function LineOf(r: Row): string
  {
    r.prefix + Connector(r.isLast) + r.entry.name
  }

  function LinesOf(rows: seq<Row>): (lines: seq<string>)
    ensures |lines| == |rows|
    ensures forall k :: 0 <= k < |rows| ==> lines[k] == LineOf(rows[k])
  {
    if rows == [] then [] else [LineOf(rows[0])] + LinesOf(rows[1..])
  }

  lemma LinesOfAppend(a: seq<Row>, b: seq<Row>)
    ensures LinesOf(a + b) == LinesOf(a) + LinesOf(b)
  {
    var l := LinesOf(a + b);
    var m := LinesOf(a) + LinesOf(b);
    forall k | 0 <= k < |l| ensures l[k] == m[k] {
      if k < |a| {
        assert (a + b)[k] == a[k];
      } else {
        assert (a + b)[k] == b[k - |a|];
      }
    }
  }

  /** The rows `_walk(dir, prefix, depth)` draws for the directory `dir`. */
  function WalkRows(dir: Entry, prefix: string, depth: int, maxDepth: int): seq<Row>
    requires dir.Dir?
    decreases dir, 1, 0
  {
    if depth > maxDepth || !dir.readable then []
    else LevelRows(dir, Visible(dir.listing), 0, prefix, depth, maxDepth)
  }

  /** The rows drawn for `vs[i..]`, the visible entries of `dir` from the `i`-th on. */
  function LevelRows(dir: Entry, vs: seq<Entry>, i: nat, prefix: string, depth: int, maxDepth: int): seq<Row>
    requires dir.Dir? && i <= |vs|
    requires forall e :: e in vs ==> e in dir.listing
    decreases dir, 0, |vs| - i
  {
    if i == |vs| then []
    else
      var isLast := i == |vs| - 1;
      var e := vs[i];
      assert e in dir.listing;
      var below := if e.Dir? then WalkRows(e, prefix + Extension(isLast), depth + 1, maxDepth) else [];
      [Row(prefix, isLast, e, depth)] + below + LevelRows(dir, vs, i + 1, prefix, depth, maxDepth)
  }

  /** `LevelRows` unfolded once, at an entry that is not the end of the level. */
  lemma LevelRowsStep(dir: Entry, vs: seq<Entry>, i: nat, prefix: string, depth: int, maxDepth: int)
    requires dir.Dir? && i < |vs|
    requires forall e :: e in vs ==> e in dir.listing
    ensures var isLast := i == |vs| - 1;
      var below := if vs[i].Dir? then WalkRows(vs[i], prefix + Extension(isLast), depth + 1, maxDepth) else [];
      LinesOf(LevelRows(dir, vs, i, prefix, depth, maxDepth))
        == [prefix + Connector(isLast) + vs[i].name] + LinesOf(below)
           + LinesOf(LevelRows(dir, vs, i + 1, prefix, depth, maxDepth))
  {
    var isLast := i == |vs| - 1;
    var row := Row(prefix, isLast, vs[i], depth);
    var below := if vs[i].Dir? then WalkRows(vs[i], prefix + Extension(isLast), depth + 1, maxDepth) else [];
    var rest := LevelRows(dir, vs, i + 1, prefix, depth, maxDepth);
    LinesOfAppend([row] + below, rest);
    LinesOfAppend([row], below);
  }

  lemma ConcatAssoc(a: seq<string>, b: seq<string>, c: seq<string>, d: seq<string>)
    ensures a + b + c + d == a + (b + c + d)
  {
  }

  /** The lines of `get_repo_structure`, before they are joined with newlines. */
  function RepoLines(root: Entry, maxDepth: int): seq<string>
    requires root.Dir?
  {
    [root.name + "/"] + LinesOf(WalkRows(root, "", 1, maxDepth))
  }

  /**
   * A row drawn by `_walk(dir, prefix, depth)` or below it: at a depth from
   * `depth` to `maxDepth`, not skipped, and with a prefix that extends
   * `prefix` by one four-character column per level below `depth`.
   */
  predicate RowWithin(r: Row, prefix: string, depth: int, maxDepth: int)
  {
    && depth <= r.depth <= maxDepth
    && !Skipped(r.entry)
    && |r.prefix| == |prefix| + 4 * (r.depth - depth)
    && r.prefix[..|prefix|] == prefix
  }

  lemma RowWithinParent(r: Row, prefix: string, ext: string, depth: int, maxDepth: int)
    requires |ext| == 4 && RowWithin(r, prefix + ext, depth + 1, maxDepth)
    ensures RowWithin(r, prefix, depth, maxDepth)
  {
    assert r.prefix[..|prefix|] == r.prefix[..|prefix| + 4][..|prefix|];
  }

  lemma {:induction false} WalkRowsWithin(dir: Entry, prefix: string, depth: int, maxDepth: int)
    requires dir.Dir?
    ensures forall r :: r in WalkRows(dir, prefix, depth, maxDepth) ==> RowWithin(r, prefix, depth, maxDepth)
    decreases dir, 1, 0
  {
    if depth <= maxDepth && dir.readable {
      var vs := Visible(dir.listing);
      VisibleOrdered(dir.listing);
      LevelRowsWithin(dir, vs, 0, prefix, depth, maxDepth);
    }
  }

  lemma {:induction false} LevelRowsWithin(dir: Entry, vs: seq<Entry>, i: nat, prefix: string, depth: int, maxDepth: int)
    requires dir.Dir? && i <= |vs| && depth <= maxDepth
    requires forall e :: e in vs ==> e in dir.listing && !Skipped(e)
    ensures forall r :: r in LevelRows(dir, vs, i, prefix, depth, maxDepth) ==> RowWithin(r, prefix, depth, maxDepth)
    decreases dir, 0, |vs| - i
  {
    if i < |vs| {
      var isLast := i == |vs| - 1;
      var e := vs[i];
      assert e in dir.listing;
      LevelRowsWithin(dir, vs, i + 1, prefix, depth, maxDepth);
      if e.Dir? {
        var ext := Extension(isLast);
        WalkRowsWithin(e, prefix + ext, depth + 1, maxDepth);
        forall r | r in WalkRows(e, prefix + ext, depth + 1, maxDepth)
          ensures RowWithin(r, prefix, depth, maxDepth)
        {
          RowWithinParent(r, prefix, ext, depth, maxDepth);
        }
      }
    }
  }

  /**
   * `p` is the row of the directory under which `r` is drawn: a directory
   * that is shown (so not skipped), one level up, listing `r`'s entry, with
   * `r` indented by the extension of `p`'s column.
   */
  predicate ParentOf(p: Row, r: Row)
  {
    && p.entry.Dir?
    && !Skipped(p.entry)
    && p.depth == r.depth - 1
    && r.entry in p.entry.listing
    && r.prefix == p.prefix + Extension(p.isLast)
  }

  /**
   * Every row drawn by `_walk(dir, prefix, depth)` is either one of `dir`'s
   * own entries at `depth` with `prefix`, or deeper with its parent's row
   * drawn before it.
   */
  predicate Rooted(rows: seq<Row>, dir: Entry, prefix: string, depth: int)
    requires dir.Dir?
  {
    forall k :: 0 <= k < |rows| ==> RootedAt(rows, k, dir, prefix, depth)
  }

  /** Row `k` is one of `dir`'s own entries, or is deeper with its parent's row before it. */
  predicate RootedAt(rows: seq<Row>, k: nat, dir: Entry, prefix: string, depth: int)
    requires dir.Dir? && k < |rows|
  {
    || (rows[k].depth == depth && rows[k].entry in dir.listing && rows[k].prefix == prefix)
    || (rows[k].depth > depth && exists j :: 0 <= j < k && ParentOf(rows[j], rows[k]))
  }

  /** An entry's row, the rows under it, then the rows of the later entries of the level. */
  lemma RootedCons(row: Row, below: seq<Row>, rest: seq<Row>, dir: Entry, prefix: string, depth: int)
    requires dir.Dir? && row.depth == depth && row.entry in dir.listing && row.prefix == prefix
    requires !Skipped(row.entry)
    requires below != [] ==> row.entry.Dir? && Rooted(below, row.entry, prefix + Extension(row.isLast), depth + 1)
    requires Rooted(rest, dir, prefix, depth)
    ensures Rooted([row] + below + rest, dir, prefix, depth)
  {
    var rows := [row] + below + rest;
    forall k | 0 <= k < |rows| ensures RootedAt(rows, k, dir, prefix, depth) {
      if 1 <= k <= |below| {
        RootedBelow(row, below, rest, dir, prefix, depth, k);
      } else if k > |below| {
        RootedRest(row, below, rest, dir, prefix, depth, k);
      }
    }
  }

  /** A row under the entry's row: its parent is the entry's row or is among the rows under it. */
  lemma RootedBelow(row: Row, below: seq<Row>, rest: seq<Row>, dir: Entry, prefix: string, depth: int, k: nat)
    requires dir.Dir? && row.depth == depth && !Skipped(row.entry)
    requires row.entry.Dir? && Rooted(below, row.entry, prefix + Extension(row.isLast), depth + 1)
    requires row.prefix == prefix && 1 <= k <= |below|
    ensures RootedAt([row] + below + rest, k, dir, prefix, depth)
  {
    var rows := [row] + below + rest;
    var b := below[k - 1];
    assert rows[k] == b;
    assert RootedAt(below, k - 1, row.entry, prefix + Extension(row.isLast), depth + 1);
    if b.depth == depth + 1 && b.entry in row.entry.listing && b.prefix == prefix + Extension(row.isLast) {
      assert rows[0] == row && ParentOf(rows[0], rows[k]);
    } else {
      var j' :| 0 <= j' < k - 1 && ParentOf(below[j'], b);
      assert rows[j' + 1] == below[j'];
    }
  }

  /** A row of a later entry keeps its parent, shifted past the entry's rows. */
  lemma RootedRest(row: Row, below: seq<Row>, rest: seq<Row>, dir: Entry, prefix: string, depth: int, k: nat)
    requires dir.Dir? && Rooted(rest, dir, prefix, depth)
    requires |below| < k < 1 + |below| + |rest|
    ensures RootedAt([row] + below + rest, k, dir, prefix, depth)
  {
    var rows := [row] + below + rest;
    var m := k - 1 - |below|;
    assert rows[k] == rest[m];
    assert RootedAt(rest, m, dir, prefix, depth);
    if !(rest[m].depth == depth && rest[m].entry in dir.listing && rest[m].prefix == prefix) {
      var j' :| 0 <= j' < m && ParentOf(rest[j'], rest[m]);
      assert rows[j' + 1 + |below|] == rest[j'];
    }
  }

  /**
   * Every row `_walk(dir, prefix, depth)` draws is one of `dir`'s entries
   * with `prefix`, or is drawn under its parent directory's row, indented by
   * that row's extension: a directory is entered only when it is shown.
   */
  lemma {:induction false} WalkRowsRooted(dir: Entry, prefix: string, depth: int, maxDepth: int)
    requires dir.Dir?
    ensures Rooted(WalkRows(dir, prefix, depth, maxDepth), dir, prefix, depth)
    decreases dir, 1, 0
  {
    if depth <= maxDepth && dir.readable {
      var vs := Visible(dir.listing);
      VisibleOrdered(dir.listing);
      LevelRowsRooted(dir, vs, 0, prefix, depth, maxDepth);
    }
  }

  /** `WalkRowsRooted` for the rows of `vs[i..]` and everything drawn below them. */
  lemma {:induction false} LevelRowsRooted(dir: Entry, vs: seq<Entry>, i: nat, prefix: string, depth: int, maxDepth: int)
    requires dir.Dir? && i <= |vs|
    requires forall e :: e in vs ==> e in dir.listing && !Skipped(e)
    ensures Rooted(LevelRows(dir, vs, i, prefix, depth, maxDepth), dir, prefix, depth)
    decreases dir, 0, |vs| - i
  {
    if i < |vs| {
      var isLast := i == |vs| - 1;
      var e := vs[i];
      assert e in dir.listing;
      var row := Row(prefix, isLast, e, depth);
      var below := if e.Dir? then WalkRows(e, prefix + Extension(isLast), depth + 1, maxDepth) else [];
      var rest := LevelRows(dir, vs, i + 1, prefix, depth, maxDepth);
      LevelRowsRooted(dir, vs, i + 1, prefix, depth, maxDepth);
      if e.Dir? {
        WalkRowsRooted(e, prefix + Extension(isLast), depth + 1, maxDepth);
      }
      RootedCons(row, below, rest, dir, prefix, depth);
    }
  }

  /** The rows drawn at depth `d`, in order. */
  function AtDepth(rows: seq<Row>, d: int): seq<Row>
  {
    if rows == [] then []
    else (if rows[0].depth == d then [rows[0]] else []) + AtDepth(rows[1..], d)
  }

  lemma {:induction false} AtDepthAppend(a: seq<Row>, b: seq<Row>, d: int)
    ensures AtDepth(a + b, d) == AtDepth(a, d) + AtDepth(b, d)
  {
    if a != [] {
      AtDepthAppend(a[1..], b, d);
      assert (a + b)[0] == a[0];
      assert (a + b)[1..] == a[1..] + b;
      var h := if a[0].depth == d then [a[0]] else [];
      assert AtDepth(a + b, d) == h + (AtDepth(a[1..], d) + AtDepth(b, d));
      assert AtDepth(a, d) == h + AtDepth(a[1..], d);
      assert (h + AtDepth(a[1..], d)) + AtDepth(b, d) == h + (AtDepth(a[1..], d) + AtDepth(b, d));
    } else {
      assert a + b == b;
    }
  }

  lemma {:induction false} AtDepthNone(rows: seq<Row>, d: int)
    requires forall r :: r in rows ==> r.depth > d
    ensures AtDepth(rows, d) == []
  {
    if rows != [] {
      assert rows[0] in rows;
      AtDepthNone(rows[1..], d);
    }
  }

  /** At one level, the first row drawn is the entry's own; the rows below it are deeper. */
  lemma LevelTopStep(dir: Entry, vs: seq<Entry>, i: nat, prefix: string, depth: int, maxDepth: int)
    requires dir.Dir? && i < |vs| && depth <= maxDepth
    requires forall e :: e in vs ==> e in dir.listing
    ensures AtDepth(LevelRows(dir, vs, i, prefix, depth, maxDepth), depth)
         == [Row(prefix, i == |vs| - 1, vs[i], depth)] + AtDepth(LevelRows(dir, vs, i + 1, prefix, depth, maxDepth), depth)
  {
    var isLast := i == |vs| - 1;
    var e := vs[i];
    assert e in dir.listing;
    var row := Row(prefix, isLast, e, depth);
    var below := if e.Dir? then WalkRows(e, prefix + Extension(isLast), depth + 1, maxDepth) else [];
    var rest := LevelRows(dir, vs, i + 1, prefix, depth, maxDepth);
    assert LevelRows(dir, vs, i, prefix, depth, maxDepth) == [row] + below + rest;
    if e.Dir? {
      WalkRowsWithin(e, prefix + Extension(isLast), depth + 1, maxDepth);
    }
    AtDepthNone(below, depth);
    AtDepthAppend([row] + below, rest, depth);
    AtDepthAppend([row], below, depth);
    assert AtDepth([row], depth) == [row];
  }

  /** The rows of `vs[i..]` at one level: each entry once, in order, only the last one marked last. */
  lemma {:induction false} LevelTop(dir: Entry, vs: seq<Entry>, i: nat, prefix: string, depth: int, maxDepth: int)
    requires dir.Dir? && i <= |vs| && depth <= maxDepth
    requires forall e :: e in vs ==> e in dir.listing
    ensures var top := AtDepth(LevelRows(dir, vs, i, prefix, depth, maxDepth), depth);
      && |top| == |vs| - i
      && forall k :: 0 <= k < |top| ==> top[k] == Row(prefix, i + k == |vs| - 1, vs[i + k], depth)
    decreases |vs| - i
  {
    if i < |vs| {
      LevelTop(dir, vs, i + 1, prefix, depth, maxDepth);
      LevelTopStep(dir, vs, i, prefix, depth, maxDepth);
      var topRest := AtDepth(LevelRows(dir, vs, i + 1, prefix, depth, maxDepth), depth);
      var top := AtDepth(LevelRows(dir, vs, i, prefix, depth, maxDepth), depth);
      forall k | 0 <= k < |top| ensures top[k] == Row(prefix, i + k == |vs| - 1, vs[i + k], depth) {
        if k > 0 {
          assert top[k] == topRest[k - 1];
        }
      }
    }
  }

  /**
   * What `get_repo_structure` draws: the root's name with a slash first; then
   * one line per shown entry, each at a depth from 1 to `max_depth`, none of
   * them skipped, indented by four characters per level (`WalkRowsRooted`
   * adds where each line's directory line is).
   */
  lemma RepoLinesShape(root: Entry, maxDepth: int)
    requires root.Dir?
    ensures var lines := RepoLines(root, maxDepth);
      var rows := WalkRows(root, "", 1, maxDepth);
      && lines[0] == root.name + "/"
      && |lines| == |rows| + 1
      && (forall k :: 1 <= k < |lines| ==> lines[k] == LineOf(rows[k - 1]))
      && (forall r :: r in rows ==> RowWithin(r, "", 1, maxDepth))
  {
    WalkRowsWithin(root, "", 1, maxDepth);
  }

  /**
   * The root's own entries, at depth 1, are exactly its visible entries in
   * their order, all with an empty prefix and with `└── ` on the last one only.
   */
  lemma RepoTopLevel(root: Entry, maxDepth: int)
    requires root.Dir? && root.readable && 1 <= maxDepth
    ensures var top := AtDepth(WalkRows(root, "", 1, maxDepth), 1);
      var vs := Visible(root.listing);
      && |top| == |vs|
      && forall k :: 0 <= k < |top| ==> top[k] == Row("", k == |vs| - 1, vs[k], 1)
  {
    var vs := Visible(root.listing);
    VisibleOrdered(root.listing);
    assert WalkRows(root, "", 1, maxDepth) == LevelRows(root, vs, 0, "", 1, maxDepth);
    LevelTop(root, vs, 0, "", 1, maxDepth);
  }

  /** The shared `lines` list that the nested `_walk` appends to. */
  class TreeBuilder {
    var lines: seq<string>
    const maxDepth: int

    constructor (maxDepth: int)
      ensures this.maxDepth == maxDepth && lines == []
    {
      this.maxDepth := maxDepth;
      lines := [];
    }

    /** `_walk(dir_path, prefix, depth)` for the directory `dir`. */
    method Walk(dir: Entry, prefix: string, depth: int)
      requires dir.Dir?
      modifies this
      ensures lines == old(lines) + LinesOf(WalkRows(dir, prefix, depth, maxDepth))
      decreases dir
    {
      if depth > maxDepth {
        return;
      }
      if !dir.readable {
        return;
      }
      var entries := Sort(dir.listing);
      var filtered := FilterEntries(entries);
      assert filtered == Visible(dir.listing);
      ghost var start := lines;
      for i := 0 to |filtered|
        invariant lines + LinesOf(LevelRows(dir, filtered, i, prefix, depth, maxDepth))
                  == start + LinesOf(LevelRows(dir, filtered, 0, prefix, depth, maxDepth))
      {
        var entry := filtered[i];
        var isLast := i == |filtered| - 1;
        var connector := Connector(isLast);
        LevelRowsStep(dir, filtered, i, prefix, depth, maxDepth);
        ghost var before := lines;
        ghost var below := if entry.Dir? then WalkRows(entry, prefix + Extension(isLast), depth + 1, maxDepth) else [];
        ghost var rest := LinesOf(LevelRows(dir, filtered, i + 1, prefix, depth, maxDepth));
        lines := lines + [prefix + connector + entry.name];
        if entry.Dir? {
          var extension := Extension(isLast);
          assert entry in dir.listing;
          Walk(entry, prefix + extension, depth + 1);
        }
        assert lines == before + [prefix + connector + entry.name] + LinesOf(below);
        ConcatAssoc(before, [prefix + connector + entry.name], LinesOf(below), rest);
      }
    }
  }

  /** `get_repo_structure(repo_path, max_depth)` for the root directory `root`. */
  method GetRepoStructure(root: Entry, maxDepth: int) returns (tree: string)
    requires root.Dir?
    ensures tree == Join(RepoLines(root, maxDepth), '\n')
  {
    var builder := new TreeBuilder(maxDepth);
    builder.lines := builder.lines + [root.name + "/"];
    builder.Walk(root, "", 1);
    tree := Join(builder.lines, '\n');
  }
}
