/**
 * The small text and lookup helpers of the command-line front end
 * (`src/code_explainer/cli.py`): the output file name for a path, the
 * project config lookup, entry-point discovery, the list of files a diff
 * touches, and the `FILE:SYMBOL` split of a function target.
 *
 * File-system questions are parameters: `isFile(name)` answers
 * `os.path.isfile` for a name relative to the repository, and
 * `read(name)` gives a file's text or `None` when it cannot be read.
 */
module CliHelpers {
  import opened Wrappers
  import opened Text

  // ---------------------------------------------------------------------
  // _sanitize_path_for_filename
  // ---------------------------------------------------------------------

  /** `path.replace("/", "-").replace("\\", "-")`: both separators become dashes, nothing else changes. */
  function Dashed(path: string): (d: string)
    ensures |d| == |path| && '/' !in d && '\\' !in d
    ensures forall k :: 0 <= k < |path| ==> d[k] == if path[k] == '/' || path[k] == '\\' then '-' else path[k]
  {
    var once := ReplaceChar(path, '/', '-');
    var d := ReplaceChar(once, '\\', '-');
    assert '/' !in d && '\\' !in d by {
      forall k | 0 <= k < |d| ensures d[k] != '/' && d[k] != '\\' {
        assert once[k] != '/';
      }
    }
    d
  }

  /**
   * `_sanitize_path_for_filename(path)`: the file name holds no path
   * separator, and it is the dashed path cut just before its last dot, or
   * the whole dashed path when there is no dot.
   */
  function SanitizePath(path: string): (r: string)
    ensures '/' !in r && '\\' !in r
    ensures |r| <= |path| && r == Dashed(path)[..|r|]
    ensures '.' !in Dashed(path) ==> r == Dashed(path)
    ensures '.' in Dashed(path) ==> |r| < |path| && Dashed(path)[|r|] == '.' && '.' !in Dashed(path)[|r| + 1..]
  {
    var name := Dashed(path);
    match LastIndexOf(name, '.')
    case None => name
    case Some(i) =>
      assert forall c :: c in name[..i] ==> c in name;
      name[..i]
  }

  /**
   * A path with no separator loses only what follows its last dot: earlier
   * dots stay (`a.b.py` gives `a.b`).
   */
  lemma SanitizeDropsExtension(p: string, i: nat)
    requires '/' !in p && '\\' !in p
    requires i < |p| && p[i] == '.' && '.' !in p[i + 1..]
    ensures SanitizePath(p) == p[..i]
  {
    ReplaceCharAbsent(p, '/', '-');
    ReplaceCharAbsent(p, '\\', '-');
    forall k | i < k < |p| ensures p[k] != '.' {
      assert p[k] == p[i + 1..][k - i - 1];
    }
    LastIndexOfIs(p, '.', i);
  }

  // ---------------------------------------------------------------------
  // _find_project_config
  // ---------------------------------------------------------------------

  const CONFIG_FILES: seq<string> :=
    ["pyproject.toml", "package.json", "Cargo.toml", "go.mod", "pom.xml", "build.gradle", "Makefile"]

  /** The first of `names[i..]` that can be read, with its text. */
  function FirstReadable(names: seq<string>, read: string -> Option<string>, i: nat): (r: Option<(string, string)>)
    requires i <= |names|
    ensures r.Some? ==> exists k :: i <= k < |names| && names[k] == r.value.0 && read(names[k]) == Some(r.value.1)
                                   && forall j :: i <= j < k ==> read(names[j]).None?
    ensures r.None? <==> forall j :: i <= j < |names| ==> read(names[j]).None?
    decreases |names| - i
  {
    if i == |names| then None
    else
      match read(names[i])
      case Some(content) => Some((names[i], content))
      case None => FirstReadable(names, read, i + 1)
  }

  /** `_find_project_config(repo_path)`: `(None, None)` is `None` here. */
  method FindProjectConfig(read: string -> Option<string>) returns (r: Option<(string, string)>)
    ensures r == FirstReadable(CONFIG_FILES, read, 0)
  {
    var configFiles := CONFIG_FILES;
    for i := 0 to |configFiles|
      invariant FirstReadable(configFiles, read, 0) == FirstReadable(configFiles, read, i)
    {
      var content := read(configFiles[i]);
      if content.Some? {
        return Some((configFiles[i], content.value));
      }
    }
    return None;
  }

  // ---------------------------------------------------------------------
  // _find_entry_points
  // ---------------------------------------------------------------------

  const CANDIDATES: seq<string> :=
    ["src/main.py", "main.py", "app.py", "src/app.py", "manage.py", "setup.py", "cli.py"]

  const SCRIPTS_HEADER := "[project.scripts]"

  /** The names of `names[..n]` that are files, in order. */
  function Present(names: seq<string>, isFile: string -> bool): (r: seq<string>)
    ensures |r| <= |names|
  {
    if names == [] then []
    else
      var init := Present(names[..|names| - 1], isFile);
      if isFile(names[|names| - 1]) then init + [names[|names| - 1]] else init
  }

  lemma {:induction false} PresentMembers(names: seq<string>, isFile: string -> bool, x: string)
    ensures x in Present(names, isFile) <==> x in names && isFile(x)
  {
    if names != [] {
      PresentMembers(names[..|names| - 1], isFile, x);
      assert names == names[..|names| - 1] + [names[|names| - 1]];
    }
  }

  /**
   * The script entries taken from `lines`: after a line mentioning the
   * header, the stripped lines holding `=`, up to the first line that opens
   * another table with `[`.
   */
  function ScriptEntries(lines: seq<string>, inScripts: bool): (r: seq<string>)
    ensures |r| <= |lines|
  {
    if lines == [] then []
    else if Contains(lines[0], SCRIPTS_HEADER) then ScriptEntries(lines[1..], true)
    else if inScripts && StartsWith(lines[0], "[") then []
    else if inScripts && '=' in lines[0] then [Strip(lines[0])] + ScriptEntries(lines[1..], true)
    else ScriptEntries(lines[1..], inScripts)
  }

  /** A line that switches the scan into the scripts table. */
  predicate IsHeader(line: string)
  {
    Contains(line, SCRIPTS_HEADER)
  }

  /** A line that opens another table and so ends the scripts table. */
  predicate Closes(line: string)
  {
    StartsWith(line, "[") && !IsHeader(line)
  }

  /** A line of the scripts table that is taken as an entry. */
  predicate IsEntry(line: string)
  {
    '=' in line && !IsHeader(line)
  }

  /** The first index from `from` on whose line satisfies `p`, or `|lines|`. */
  function FirstWhere(lines: seq<string>, from: nat, p: string -> bool): (r: nat)
    requires from <= |lines|
    ensures from <= r <= |lines|
    ensures r < |lines| ==> p(lines[r])
    ensures forall k :: from <= k < r ==> !p(lines[k])
    decreases |lines| - from
  {
    if from == |lines| || p(lines[from]) then from else FirstWhere(lines, from + 1, p)
  }

  /** The stripped entry lines of `lines[lo..hi]`, in order. */
  function EntriesIn(lines: seq<string>, lo: nat, hi: nat): seq<string>
    requires lo <= hi <= |lines|
    decreases hi - lo
  {
    if lo == hi then []
    else (if IsEntry(lines[lo]) then [Strip(lines[lo])] else []) + EntriesIn(lines, lo + 1, hi)
  }

  /**
   * The scripts table as a window: the lines after the first header line and
   * before the first later line that opens another table (or the end).
   */
  function ScriptWindow(lines: seq<string>): seq<string>
  {
    var h := FirstWhere(lines, 0, IsHeader);
    if h == |lines| then []
    else EntriesIn(lines, h + 1, FirstWhere(lines, h + 1, Closes))
  }

  /** An entry is taken from the window exactly when its line is an entry line there. */
  lemma {:induction false} EntriesInMembers(lines: seq<string>, lo: nat, hi: nat, e: string)
    requires lo <= hi <= |lines|
    ensures e in EntriesIn(lines, lo, hi) <==> exists k :: lo <= k < hi && IsEntry(lines[k]) && e == Strip(lines[k])
    decreases hi - lo
  {
    if lo < hi {
      EntriesInMembers(lines, lo + 1, hi, e);
      var head := if IsEntry(lines[lo]) then [Strip(lines[lo])] else [];
      var rest := EntriesIn(lines, lo + 1, hi);
      assert EntriesIn(lines, lo, hi) == head + rest;
      if e in head {
        assert lo <= lo < hi && IsEntry(lines[lo]) && e == Strip(lines[lo]);
      }
      if k :| lo <= k < hi && IsEntry(lines[k]) && e == Strip(lines[k]) {
        if k == lo {
          assert e in head;
        } else {
          assert e in rest;
        }
      }
    }
  }

  /** Before the first header line nothing is taken. */
  lemma {:induction false} ScriptsBeforeHeader(lines: seq<string>, i: nat, h: nat)
    requires i <= h <= |lines|
    requires forall k :: i <= k < h ==> !IsHeader(lines[k])
    ensures ScriptEntries(lines[i..], false) == ScriptEntries(lines[h..], false)
    decreases h - i
  {
    if i < h {
      assert lines[i..][1..] == lines[i + 1..];
      ScriptsBeforeHeader(lines, i + 1, h);
    }
  }

  /** Inside the scripts table, up to the line that closes it, the entry lines are taken. */
  lemma {:induction false} ScriptsInWindow(lines: seq<string>, i: nat, b: nat)
    requires i <= b <= |lines|
    requires forall k :: i <= k < b ==> !Closes(lines[k])
    requires b == |lines| || Closes(lines[b])
    ensures ScriptEntries(lines[i..], true) == EntriesIn(lines, i, b)
    decreases b - i
  {
    assert i < |lines| ==> lines[i..][1..] == lines[i + 1..];
    if i < b {
      ScriptsInWindow(lines, i + 1, b);
    }
  }

  /**
   * The scan takes exactly the window: every entry line after the first
   * header line and before the first later line that opens another table,
   * in order, and nothing else.
   */
  lemma ScriptEntriesWindow(lines: seq<string>)
    ensures ScriptEntries(lines, false) == ScriptWindow(lines)
  {
    var h := FirstWhere(lines, 0, IsHeader);
    ScriptsBeforeHeader(lines, 0, h);
    assert lines[0..] == lines;
    if h < |lines| {
      var b := FirstWhere(lines, h + 1, Closes);
      assert lines[h..][1..] == lines[h + 1..];
      ScriptsInWindow(lines, h + 1, b);
    }
  }

  /** What `_find_entry_points` returns. */
  function EntryPoints(isFile: string -> bool, config: Option<string>): seq<string>
  {
    Present(CANDIDATES, isFile)
      + if config.Some? && Contains(config.value, SCRIPTS_HEADER)
        then ScriptEntries(Split(config.value, '\n'), false)
        else []
  }

  /** `_find_entry_points(repo_path, config_content)` */
  method FindEntryPoints(isFile: string -> bool, configContent: Option<string>) returns (entryPoints: seq<string>)
    ensures entryPoints == EntryPoints(isFile, configContent)
  {
    entryPoints := [];
    var candidates := CANDIDATES;
    for i := 0 to |candidates|
      invariant entryPoints == Present(candidates[..i], isFile)
    {
      assert candidates[..i + 1][..i] == candidates[..i];
      if isFile(candidates[i]) {
        entryPoints := entryPoints + [candidates[i]];
      }
    }
    assert candidates[..|candidates|] == candidates;
    if configContent.Some? && configContent.value != [] && Contains(configContent.value, SCRIPTS_HEADER) {
      var lines := Split(configContent.value, '\n');
      var scripts := ScanScripts(lines);
      entryPoints := entryPoints + scripts;
    }
  }

  /** The `in_scripts` loop of `_find_entry_points`. */
  method ScanScripts(lines: seq<string>) returns (scripts: seq<string>)
    ensures scripts == ScriptEntries(lines, false)
  {
    scripts := [];
    var inScripts := false;
    var i := 0;
    while i < |lines|
      invariant 0 <= i <= |lines|
      invariant scripts + ScriptEntries(lines[i..], inScripts) == ScriptEntries(lines, false)
    {
      var line := lines[i];
      assert lines[i..][1..] == lines[i + 1..];
      if Contains(line, SCRIPTS_HEADER) {
        inScripts := true;
        i := i + 1;
        continue;
      }
      if inScripts {
        if StartsWith(line, "[") {
          break;
        }
        if '=' in line {
          scripts := scripts + [Strip(line)];
        }
      }
      i := i + 1;
    }
  }

  /** `Strip` removes whitespace only, so it keeps an `=`. */
  lemma StripKeepsEquals(line: string)
    requires '=' in line
    ensures '=' in Strip(line)
  {
    var n := LeadingSpaces(line);
    var k :| 0 <= k < |line| && line[k] == '=';
    assert !IsSpace('=');
    LeadingBefore(line, k);
    var t := LStrip(line);
    assert t[k - n] == '=';
    TrailingAfter(t, k - n);
    assert Strip(line)[k - n] == '=';
  }

  /** Every script entry is a stripped line that holds an `=`. */
  lemma {:induction false} ScriptEntriesShape(lines: seq<string>, inScripts: bool)
    ensures forall e :: e in ScriptEntries(lines, inScripts) ==>
      '=' in e && (exists k :: 0 <= k < |lines| && e == Strip(lines[k]))
  {
    if lines != [] {
      var rest := lines[1..];
      ScriptEntriesShape(rest, true);
      ScriptEntriesShape(rest, inScripts);
      forall e | e in ScriptEntries(lines, inScripts)
        ensures '=' in e && (exists k :: 0 <= k < |lines| && e == Strip(lines[k]))
      {
        if e == Strip(lines[0]) && '=' in lines[0] {
          StripKeepsEquals(lines[0]);
        } else if e in ScriptEntries(rest, true) || e in ScriptEntries(rest, inScripts) {
          var k :| 0 <= k < |rest| && e == Strip(rest[k]);
          assert e == Strip(lines[k + 1]);
        }
      }
    }
  }

  /**
   * Entry points list the candidate files that exist, in the fixed candidate
   * order, then the script entries; there are no script entries unless the
   * config mentions `[project.scripts]`, and each of them holds an `=`.
   */
  lemma EntryPointsSpec(isFile: string -> bool, config: Option<string>)
    ensures var r := EntryPoints(isFile, config);
      var present := Present(CANDIDATES, isFile);
      && r[..|present|] == present
      && (forall c :: c in present <==> c in CANDIDATES && isFile(c))
      && (config.None? || !Contains(config.value, SCRIPTS_HEADER) ==> r == present)
      && (config.Some? && Contains(config.value, SCRIPTS_HEADER) ==> r[|present|..] == ScriptWindow(Split(config.value, '\n')))
      && (forall e :: e in r[|present|..] ==> '=' in e)
  {
    var present := Present(CANDIDATES, isFile);
    forall c ensures c in present <==> c in CANDIDATES && isFile(c) {
      PresentMembers(CANDIDATES, isFile, c);
    }
    if config.Some? && Contains(config.value, SCRIPTS_HEADER) {
      ScriptEntriesShape(Split(config.value, '\n'), false);
      ScriptEntriesWindow(Split(config.value, '\n'));
      assert EntryPoints(isFile, config)[|present|..] == ScriptEntries(Split(config.value, '\n'), false);
    }
  }

  // ---------------------------------------------------------------------
  // Changed files of a diff
  // ---------------------------------------------------------------------

  const NEW_FILE_MARKER := "+++ b/"

  /** The paths named by the `+++ b/` lines of `lines`, in order, `/dev/null` left out. */
  function ChangedSpec(lines: seq<string>): (r: seq<string>)
    ensures |r| <= |lines|
    ensures forall k :: 0 <= k < |r| ==> r[k] != "/dev/null"
  {
    if lines == [] then []
    else
      var init := ChangedSpec(lines[..|lines| - 1]);
      var line := lines[|lines| - 1];
      if StartsWith(line, NEW_FILE_MARKER) && line[6..] != "/dev/null" then init + [line[6..]] else init
  }

  /** The changed-file loop of `explain diff` and of diff topics. */
  method ChangedFiles(diffContent: string) returns (changedFiles: seq<string>)
    ensures changedFiles == ChangedSpec(Split(diffContent, '\n'))
  {
    var lines := Split(diffContent, '\n');
    changedFiles := [];
    for i := 0 to |lines|
      invariant changedFiles == ChangedSpec(lines[..i])
    {
      var line := lines[i];
      assert lines[..i + 1][..i] == lines[..i];
      if StartsWith(line, NEW_FILE_MARKER) {
        var path := line[6..];
        if path != "/dev/null" {
          changedFiles := changedFiles + [path];
        }
      }
    }
    assert lines[..|lines|] == lines;
  }

  /** A path is listed exactly when some `+++ b/` line names it and it is not `/dev/null`. */
  lemma {:induction false} ChangedMembers(lines: seq<string>, p: string)
    ensures p in ChangedSpec(lines) <==>
      p != "/dev/null" && exists k :: 0 <= k < |lines| && StartsWith(lines[k], NEW_FILE_MARKER) && lines[k][6..] == p
  {
    if lines != [] {
      var init := lines[..|lines| - 1];
      ChangedMembers(init, p);
      if p in ChangedSpec(lines) && p !in ChangedSpec(init) {
        assert StartsWith(lines[|lines| - 1], NEW_FILE_MARKER) && lines[|lines| - 1][6..] == p;
      }
      if exists k :: 0 <= k < |lines| && StartsWith(lines[k], NEW_FILE_MARKER) && lines[k][6..] == p {
        var k :| 0 <= k < |lines| && StartsWith(lines[k], NEW_FILE_MARKER) && lines[k][6..] == p;
        if k < |init| {
          assert init[k] == lines[k];
        }
      }
    }
  }

  // ---------------------------------------------------------------------
  // FILE:SYMBOL targets
  // ---------------------------------------------------------------------

  /**
   * `target.rsplit(":", 1)` after the `":" not in target` check; `None` is
   * the rejection. A target is rejected exactly when it has no colon;
   * otherwise it splits at the last colon: the parts rejoin to the target
   * and the symbol holds no colon.
   */
  function SplitTarget(target: string): (r: Option<(string, string)>)
    ensures r.None? <==> ':' !in target
    ensures r.Some? ==> r.value.0 + ":" + r.value.1 == target && ':' !in r.value.1
  {
    match LastIndexOf(target, ':')
    case None => None
    case Some(i) =>
      assert target == target[..i] + [target[i]] + target[i + 1..];
      Some((target[..i], target[i + 1..]))
  }
}
