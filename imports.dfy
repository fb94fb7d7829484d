/**
 * The import lines of a Python file and the dotted module name of its path
 * (the first half of `get_imports` in `src/code_explainer/git_utils.py`).
 */
module Imports {
  import opened Wrappers
  import opened Text

  /** A stripped line that `get_imports` records. */
  predicate IsImport(stripped: string)
  {
    StartsWith(stripped, "import ") || StartsWith(stripped, "from ")
  }

  /** The stripped import lines of `lines`, in order: never more than there are lines, each an import. */
  function ImportSpec(lines: seq<string>): (r: seq<string>)
    ensures |r| <= |lines|
    ensures forall k :: 0 <= k < |r| ==> IsImport(r[k])
  {
    if lines == [] then []
    else
      var init := ImportSpec(lines[..|lines| - 1]);
      var stripped := Strip(lines[|lines| - 1]);
      if IsImport(stripped) then init + [stripped] else init
  }

  /** The `imports` list of `get_imports`, for a file whose text is `content` (`None`: unreadable). */
  method ImportLines(content: Option<string>) returns (imports: seq<string>)
    ensures content.None? ==> imports == []
    ensures content.Some? ==> imports == ImportSpec(Split(content.value, '\n'))
  {
    if content.None? {
      return [];
    }
    var lines := Split(content.value, '\n');
    imports := [];
    for i := 0 to |lines|
      invariant imports == ImportSpec(lines[..i])
    {
      assert lines[..i + 1][..i] == lines[..i];
      var line := Strip(lines[i]);
      if StartsWith(line, "import ") || StartsWith(line, "from ") {
        imports := imports + [line];
      }
    }
    assert lines[..|lines|] == lines;
  }

  /** Some line of `lines`, stripped, is `x`. */
  predicate StripsTo(lines: seq<string>, x: string)
  {
    exists k :: 0 <= k < |lines| && Strip(lines[k]) == x
  }

  /** Every recorded line is the stripped form of a line of the file that starts an import. */
  lemma {:induction false} ImportSound(lines: seq<string>, x: string)
    requires x in ImportSpec(lines)
    ensures IsImport(x) && StripsTo(lines, x)
  {
    var init := lines[..|lines| - 1];
    var last := Strip(lines[|lines| - 1]);
    if x in ImportSpec(init) {
      ImportSound(init, x);
      var k :| 0 <= k < |init| && Strip(init[k]) == x;
      assert lines[k] == init[k];
    } else {
      assert x == last && IsImport(last);
      assert Strip(lines[|lines| - 1]) == x;
    }
  }

  /** Every line of the file that starts an import, once stripped, is recorded. */
  lemma {:induction false} ImportComplete(lines: seq<string>, k: nat)
    requires k < |lines| && IsImport(Strip(lines[k]))
    ensures Strip(lines[k]) in ImportSpec(lines)
  {
    var init := lines[..|lines| - 1];
    if k < |init| {
      assert init[k] == lines[k];
      ImportComplete(init, k);
    }
  }

  /** A line is recorded exactly when it is the stripped form of a line that starts an import. */
  lemma ImportMembers(lines: seq<string>, x: string)
    ensures x in ImportSpec(lines) <==> IsImport(x) && StripsTo(lines, x)
  {
    if x in ImportSpec(lines) {
      ImportSound(lines, x);
    }
    if IsImport(x) && StripsTo(lines, x) {
      var k :| 0 <= k < |lines| && Strip(lines[k]) == x;
      ImportComplete(lines, k);
    }
  }

  /** `rel_path.replace("/", ".").replace(".py", "").replace(".__init__", "")` */
  function ModuleName(relPath: string): string
  {
    Replace(Replace(ReplaceChar(relPath, '/', '.'), ".py", ""), ".__init__", "")
  }

  /** `Replace` introduces no character that neither the text nor the replacement holds. */
  lemma {:induction false} ReplaceKeepsOut(s: string, pat: string, rep: string, c: char)
    requires pat != [] && c !in s && c !in rep
    ensures c !in Replace(s, pat, rep)
    decreases |s|
  {
    if |s| >= |pat| {
      if s[..|pat|] == pat {
        ReplaceKeepsOut(s[|pat|..], pat, rep, c);
      } else {
        ReplaceKeepsOut(s[1..], pat, rep, c);
      }
    }
  }

  /** `Replace` never makes the text longer when the replacement is empty. */
  lemma {:induction false} ReplaceEmptyShorter(s: string, pat: string)
    requires pat != []
    ensures |Replace(s, pat, "")| <= |s|
    decreases |s|
  {
    if |s| >= |pat| {
      if s[..|pat|] == pat {
        ReplaceEmptyShorter(s[|pat|..], pat);
      } else {
        ReplaceEmptyShorter(s[1..], pat);
      }
    }
  }

  /** A module name holds no `/` and is no longer than the path it came from. */
  lemma ModuleNameSpec(relPath: string)
    ensures '/' !in ModuleName(relPath)
    ensures |ModuleName(relPath)| <= |relPath|
  {
    var dotted := ReplaceChar(relPath, '/', '.');
    assert '/' !in dotted by {
      forall k | 0 <= k < |dotted| ensures dotted[k] != '/' {
      }
    }
    ReplaceKeepsOut(dotted, ".py", "", '/');
    ReplaceKeepsOut(Replace(dotted, ".py", ""), ".__init__", "", '/');
    ReplaceEmptyShorter(dotted, ".py");
    ReplaceEmptyShorter(Replace(dotted, ".py", ""), ".__init__");
  }

  /** Path components with neither `/` nor `.` in them. */
  predicate PlainParts(xs: seq<string>)
  {
    DotFree(xs) && forall k :: 0 <= k < |xs| ==> '/' !in xs[k]
  }

  /** No component after the first starts with `w`, so no `.` + `w` straddles a separator. */
  predicate NoneStartsWith(xs: seq<string>, w: string)
  {
    forall k :: 1 <= k < |xs| ==> !StartsWith(xs[k], w)
  }

  /** `ReplaceChar` distributes over concatenation. */
  lemma ReplaceCharAppend(s: string, t: string, a: char, b: char)
    ensures ReplaceChar(s + t, a, b) == ReplaceChar(s, a, b) + ReplaceChar(t, a, b)
  {
    var l := ReplaceChar(s + t, a, b);
    var r := ReplaceChar(s, a, b) + ReplaceChar(t, a, b);
    assert |l| == |r|;
    forall i | 0 <= i < |l| ensures l[i] == r[i] {
      if i < |s| {
        assert (s + t)[i] == s[i];
        assert r[i] == ReplaceChar(s, a, b)[i];
      } else {
        assert (s + t)[i] == t[i - |s|];
        assert r[i] == ReplaceChar(t, a, b)[i - |s|];
      }
    }
  }

  /** Turning every separator `a` into `b` re-joins the components with `b`. */
  lemma {:induction false} ReplaceCharJoin(xs: seq<string>, a: char, b: char)
    requires forall k :: 0 <= k < |xs| ==> a !in xs[k]
    ensures ReplaceChar(Join(xs, a), a, b) == Join(xs, b)
  {
    if |xs| == 1 {
      ReplaceCharAbsent(xs[0], a, b);
    } else if |xs| > 1 {
      var tailA := Join(xs[1..], a);
      ReplaceCharJoin(xs[1..], a, b);
      ReplaceCharAbsent(xs[0], a, b);
      assert Join(xs, a) == xs[0] + ([a] + tailA);
      ReplaceCharAppend(xs[0], [a] + tailA, a, b);
      ReplaceCharAppend([a], tailA, a, b);
      assert ReplaceChar([a], a, b) == [b];
      assert Join(xs, b) == xs[0] + ([b] + Join(xs[1..], b));
    }
  }

  /** Joining one more component. */
  lemma {:induction false} JoinSnoc(xs: seq<string>, y: string, c: char)
    requires xs != []
    ensures Join(xs + [y], c) == Join(xs, c) + [c] + y
  {
    assert (xs + [y])[1..] == xs[1..] + [y];
    if |xs| > 1 {
      JoinSnoc(xs[1..], y, c);
    }
  }

  /** Text that cannot start an occurrence is copied through. */
  lemma {:induction false} ReplaceSkip(x: string, t: string, pat: string, rep: string)
    requires pat != [] && pat[0] !in x
    ensures Replace(x + t, pat, rep) == x + Replace(t, pat, rep)
    decreases |x|
  {
    if x == [] {
      assert x + t == t;
    } else {
      var s := x + t;
      if |s| >= |pat| {
        assert x[0] in x;
        assert s[..|pat|][0] != pat[0];
        assert s[1..] == x[1..] + t;
        assert Replace(s, pat, rep) == [x[0]] + Replace(x[1..] + t, pat, rep);
        assert forall c :: c in x[1..] ==> c in x;
        ReplaceSkip(x[1..], t, pat, rep);
        assert [x[0]] + x[1..] == x;
      } else {
        assert |t| < |pat|;
      }
    }
  }

  /** A `.` followed by text that does not start with `w` is not an occurrence of `.` + `w`. */
  lemma ReplaceDot(u: string, w: string)
    requires w != [] && !StartsWith(u, w)
    ensures Replace(['.'] + u, ['.'] + w, "") == ['.'] + Replace(u, ['.'] + w, "")
  {
    var s := ['.'] + u;
    var pat := ['.'] + w;
    if |s| >= |pat| {
      assert s[1..|pat|] == u[..|w|];
      assert s[1..] == u;
    }
  }

  /** A dot-free `w` cannot start a component followed by a `.` or by nothing. */
  lemma NoStart(y: string, r: string, w: string)
    requires '.' !in w && !StartsWith(y, w) && (r == [] || r[0] == '.')
    ensures !StartsWith(y + r, w)
  {
    if |w| <= |y| {
      assert |w| <= |y + r| && (y + r)[..|w|] == y[..|w|];
    } else if |w| <= |y + r| {
      assert (y + r)[|y|] == r[0];
      assert w[|y|] in w;
    }
  }

  /** The joined text of `xs` is a first component, then nothing or text that starts with `.`. */
  lemma JoinHead(xs: seq<string>, c: char)
    requires |xs| >= 1
    ensures var j := Join(xs, c);
      |xs[0]| <= |j| && j[..|xs[0]|] == xs[0] && (j[|xs[0]|..] == [] || j[|xs[0]|..][0] == c)
  {
    if |xs| > 1 {
      assert Join(xs, c) == xs[0] + ([c] + Join(xs[1..], c));
    }
  }

  /** Removing `.` + `w` after a component that cannot start it and a separator. */
  lemma ReplaceAfterSep(x: string, u: string, w: string)
    requires w != [] && '.' !in x && !StartsWith(u, w)
    ensures Replace(x + (['.'] + u), ['.'] + w, "") == x + (['.'] + Replace(u, ['.'] + w, ""))
  {
    ReplaceDot(u, w);
    ReplaceSkip(x, ['.'] + u, ['.'] + w, "");
  }

  /** Dot-joined components and a tail do not start with `w` when the first component does not. */
  lemma JoinNoStart(xs: seq<string>, w: string, tail: string)
    requires |xs| >= 1 && '.' !in w && !StartsWith(xs[0], w)
    requires tail == [] || tail[0] == '.'
    ensures !StartsWith(Join(xs, '.') + tail, w)
  {
    var j := Join(xs, '.');
    JoinHead(xs, '.');
    var r0 := j[|xs[0]|..];
    assert j + tail == xs[0] + (r0 + tail);
    NoStart(xs[0], r0 + tail, w);
  }

  /** Components none of which contains `.`. */
  predicate DotFree(xs: seq<string>)
  {
    forall k :: 0 <= k < |xs| ==> '.' !in xs[k]
  }

  /** Dropping the first component keeps both conditions; the new first one does not start with `w`. */
  lemma PartsTail(xs: seq<string>, w: string)
    requires |xs| >= 2 && DotFree(xs) && NoneStartsWith(xs, w)
    ensures DotFree(xs[1..]) && NoneStartsWith(xs[1..], w) && !StartsWith(xs[1..][0], w)
  {
    var rest := xs[1..];
    forall k | 0 <= k < |rest| ensures '.' !in rest[k] && (k >= 1 ==> !StartsWith(rest[k], w)) {
      assert rest[k] == xs[k + 1];
    }
  }

  /**
   * Removing `.` + `w` from dot-joined components and a tail: nothing is
   * removed inside the components, as long as none after the first starts
   * with `w`.
   */
  lemma {:induction false} ReplaceJoinTail(xs: seq<string>, w: string, tail: string)
    requires |xs| >= 1 && w != [] && '.' !in w
    requires DotFree(xs) && NoneStartsWith(xs, w)
    requires tail == [] || tail[0] == '.'
    ensures Replace(Join(xs, '.') + tail, ['.'] + w, "") == Join(xs, '.') + Replace(tail, ['.'] + w, "")
  {
    if |xs| == 1 {
      assert '.' !in xs[0];
      ReplaceSkip(xs[0], tail, ['.'] + w, "");
    } else {
      var rest := xs[1..];
      PartsTail(xs, w);
      ReplaceJoinTail(rest, w, tail);
      JoinNoStart(rest, w, tail);
      var u := Join(rest, '.') + tail;
      assert '.' !in xs[0];
      ReplaceAfterSep(xs[0], u, w);
      JoinConsTail(xs, '.', tail);
      JoinConsTail(xs, '.', Replace(tail, ['.'] + w, ""));
    }
  }

  /** The joined text of two or more components, and a tail after it, split after the first separator. */
  lemma JoinConsTail(xs: seq<string>, c: char, tail: string)
    requires |xs| >= 2
    ensures Join(xs, c) + tail == xs[0] + ([c] + (Join(xs[1..], c) + tail))
  {
  }

  /** Removing the whole of a pattern from itself leaves nothing. */
  lemma ReplaceWhole(p: string)
    requires p != []
    ensures Replace(p, p, "") == ""
  {
    assert p[..|p|] == p;
    assert p[|p|..] == [];
  }

  /**
   * The module name of a source file `seg1/.../segn/f.py` is
   * `seg1. ... .segn.f`, when no component contains `.` and none after the
   * first starts with `py` or `__init__`.
   */
  lemma ModuleNameOfFile(segs: seq<string>, f: string)
    requires PlainParts(segs + [f])
    requires NoneStartsWith(segs + [f], "py") && NoneStartsWith(segs + [f], "__init__")
    ensures ModuleName(Join(segs + [f + ".py"], '/')) == Join(segs + [f], '.')
  {
    var xs := segs + [f];
    var joined := Join(xs, '.');
    DottedPath(segs, f, ".py");
    assert ".py" == ['.'] + "py";
    ReplaceJoinTail(xs, "py", ".py");
    ReplaceWhole(".py");
    assert ".__init__" == ['.'] + "__init__";
    ReplaceJoinTail(xs, "__init__", "");
    assert joined + "" == joined;
  }

  /** Turning the separators of `segs/f + ext` into dots. */
  lemma DottedPath(segs: seq<string>, f: string, ext: string)
    requires PlainParts(segs + [f]) && '/' !in ext
    ensures ReplaceChar(Join(segs + [f + ext], '/'), '/', '.') == Join(segs + [f], '.') + ext
  {
    var xs := segs + [f];
    var parts := segs + [f + ext];
    forall k | 0 <= k < |parts| ensures '/' !in parts[k] {
      if k < |segs| {
        assert parts[k] == xs[k];
      } else {
        assert parts[k] == f + ext && xs[k] == f;
      }
    }
    ReplaceCharJoin(parts, '/', '.');
    if segs == [] {
      assert parts == [f + ext] && xs == [f];
    } else {
      JoinSnoc(segs, f + ext, '.');
      JoinSnoc(segs, f, '.');
    }
  }

  /**
   * The module name of a package's `seg1/.../segn/__init__.py` is
   * `seg1. ... .segn`, under the same conditions on the components.
   */
  lemma ModuleNameOfPackage(segs: seq<string>)
    requires segs != [] && PlainParts(segs)
    requires NoneStartsWith(segs, "py") && NoneStartsWith(segs, "__init__")
    ensures ModuleName(Join(segs + ["__init__.py"], '/')) == Join(segs, '.')
  {
    PackageDropPy(segs);
    PackageDropInit(segs);
  }

  /** The first two steps of `ModuleName` on a package's `__init__.py` leave `seg1. ... .segn.__init__`. */
  lemma PackageDropPy(segs: seq<string>)
    requires segs != [] && PlainParts(segs) && NoneStartsWith(segs, "py")
    ensures Replace(ReplaceChar(Join(segs + ["__init__.py"], '/'), '/', '.'), ".py", "") == Join(segs, '.') + ".__init__"
  {
    var xs := segs + ["__init__"];
    assert "__init__" + ".py" == "__init__.py";
    PackageParts(segs);
    DottedPath(segs, "__init__", ".py");
    assert ".py" == ['.'] + "py";
    ReplaceJoinTail(xs, "py", ".py");
    ReplaceWhole(".py");
    assert Join(xs, '.') + "" == Join(xs, '.');
    JoinSnoc(segs, "__init__", '.');
  }

  /** The last step of `ModuleName` drops the trailing `.__init__` and nothing else. */
  lemma PackageDropInit(segs: seq<string>)
    requires segs != [] && PlainParts(segs) && NoneStartsWith(segs, "__init__")
    ensures Replace(Join(segs, '.') + ".__init__", ".__init__", "") == Join(segs, '.')
  {
    assert ".__init__" == ['.'] + "__init__";
    ReplaceJoinTail(segs, "__init__", ".__init__");
    ReplaceWhole(".__init__");
    assert Join(segs, '.') + "" == Join(segs, '.');
  }

  /** Appending `__init__` keeps the conditions on the components needed for `.py`. */
  lemma PackageParts(segs: seq<string>)
    requires PlainParts(segs) && NoneStartsWith(segs, "py")
    ensures PlainParts(segs + ["__init__"]) && NoneStartsWith(segs + ["__init__"], "py")
  {
    var xs := segs + ["__init__"];
    assert !StartsWith("__init__", "py") by {
      assert "__init__"[..2][0] != "py"[0];
    }
    assert '/' !in "__init__" && '.' !in "__init__";
    forall k | 0 <= k < |xs| ensures '/' !in xs[k] && '.' !in xs[k] && (k >= 1 ==> !StartsWith(xs[k], "py")) {
      if k < |segs| {
        assert xs[k] == segs[k];
      } else {
        assert xs[k] == "__init__";
      }
    }
  }
}
