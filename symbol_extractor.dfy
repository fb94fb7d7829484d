/**
 * Cutting one function or class definition out of a Python file
 * (`extract_symbol` in `src/code_explainer/git_utils.py`).
 *
 * The file is read by the caller: `content` is `None` when it could not be
 * read, as `get_file_content` reports. The extractor walks the lines with
 * two states: searching for the definition line, then capturing until the
 * first non-blank, non-comment line indented no deeper than the definition.
 */
module SymbolExtractor {
  import opened Wrappers
  import opened Text

  /** The seven line openings that introduce a definition of `symbol`, in the order they are tried. */
  function Openers(symbol: string): (ps: seq<string>)
    ensures |ps| == 7
  {
    [ "def " + symbol + "(", "def " + symbol + " (",
      "class " + symbol + "(", "class " + symbol + ":", "class " + symbol + " (",
      "async def " + symbol + "(", "async def " + symbol + " (" ]
  }

  /** `s` starts with one of `ps`. */
  predicate StartsWithAny(s: string, ps: seq<string>)
  {
    ps != [] && (StartsWith(s, ps[0]) || StartsWithAny(s, ps[1..]))
  }

  /** `StartsWithAny` holds exactly when one of the openings is a prefix. */
  lemma {:induction false} StartsWithAnyIff(s: string, ps: seq<string>)
    ensures StartsWithAny(s, ps) <==> exists k :: 0 <= k < |ps| && StartsWith(s, ps[k])
  {
    if ps != [] {
      StartsWithAnyIff(s, ps[1..]);
      if exists k :: 0 <= k < |ps| && StartsWith(s, ps[k]) {
        var k :| 0 <= k < |ps| && StartsWith(s, ps[k]);
        if k > 0 {
          assert ps[1..][k - 1] == ps[k];
        }
      }
      if exists k :: 0 <= k < |ps| - 1 && StartsWith(s, ps[1..][k]) {
        var k :| 0 <= k < |ps| - 1 && StartsWith(s, ps[1..][k]);
        assert ps[k + 1] == ps[1..][k];
      }
    }
  }

  /** A stripped line that opens a definition of `symbol`. */
  predicate IsDefLine(stripped: string, symbol: string)
  {
    StartsWithAny(stripped, Openers(symbol))
  }

  /** Line `j` opens a definition of `symbol`. */
  predicate DefinesAt(lines: seq<string>, j: nat, symbol: string)
    requires j < |lines|
  {
    IsDefLine(LStrip(lines[j]), symbol)
  }

  /** `len(line) - len(line.lstrip())` */
  function Indent(line: string): nat
  {
    LeadingSpaces(line)
  }

  /**
   * A line that does not end the capture: blank, indented deeper than the
   * definition, or a comment.
   */
  predicate Kept(line: string, baseIndent: nat)
  {
    var stripped := LStrip(line);
    stripped == [] || Indent(line) > baseIndent || StartsWith(stripped, "#")
  }

  /** The first line at or after `from` that defines `symbol`. */
  function FirstDef(lines: seq<string>, symbol: string, from: nat): (r: Option<nat>)
    requires from <= |lines|
    ensures r.Some? ==> from <= r.value < |lines| && DefinesAt(lines, r.value, symbol)
    decreases |lines| - from
  {
    if from == |lines| then None
    else if DefinesAt(lines, from, symbol) then Some(from)
    else FirstDef(lines, symbol, from + 1)
  }

  /** No line before the one `FirstDef` finds, and no line at all when it finds none, defines `symbol`. */
  lemma {:induction false} FirstDefFirst(lines: seq<string>, symbol: string, from: nat)
    requires from <= |lines|
    ensures var r := FirstDef(lines, symbol, from);
      && (r.Some? ==> forall j :: from <= j < r.value ==> !DefinesAt(lines, j, symbol))
      && (r.None? ==> forall j :: from <= j < |lines| ==> !DefinesAt(lines, j, symbol))
    decreases |lines| - from
  {
    if from < |lines| && !DefinesAt(lines, from, symbol) {
      FirstDefFirst(lines, symbol, from + 1);
    }
  }

  /** A line that defines `symbol` with none before it is the one `FirstDef` finds. */
  lemma FirstDefIs(lines: seq<string>, symbol: string, k: nat)
    requires k < |lines| && DefinesAt(lines, k, symbol)
    requires forall j :: 0 <= j < k ==> !DefinesAt(lines, j, symbol)
    ensures FirstDef(lines, symbol, 0) == Some(k)
  {
    FirstDefFirst(lines, symbol, 0);
  }

  /** Where the capture that started at line `k` stops (exclusive): the first line after `from` that is not kept. */
  function CaptureEnd(lines: seq<string>, baseIndent: nat, from: nat): (e: nat)
    requires from <= |lines|
    ensures from <= e <= |lines|
    ensures e < |lines| ==> !Kept(lines[e], baseIndent)
    decreases |lines| - from
  {
    if from == |lines| || !Kept(lines[from], baseIndent) then from
    else CaptureEnd(lines, baseIndent, from + 1)
  }

  /** Every line the capture passes over is kept. */
  lemma {:induction false} CaptureEndKept(lines: seq<string>, baseIndent: nat, from: nat)
    requires from <= |lines|
    ensures forall j :: from <= j < CaptureEnd(lines, baseIndent, from) ==> Kept(lines[j], baseIndent)
    decreases |lines| - from
  {
    if from < |lines| && Kept(lines[from], baseIndent) {
      CaptureEndKept(lines, baseIndent, from + 1);
    }
  }

  /** The three facts of `CaptureEnd`'s contract pin its value down. */
  lemma {:induction false} CaptureEndIs(lines: seq<string>, baseIndent: nat, from: nat, e: nat)
    requires from <= e <= |lines|
    requires forall j :: from <= j < e ==> Kept(lines[j], baseIndent)
    requires e < |lines| ==> !Kept(lines[e], baseIndent)
    ensures CaptureEnd(lines, baseIndent, from) == e
    decreases e - from
  {
    if from < e {
      CaptureEndIs(lines, baseIndent, from + 1, e);
    }
  }

  /** `FirstDef` advanced past line `i`, decided by the test the loop of `extract_symbol` makes. */
  lemma FirstDefStep(lines: seq<string>, symbol: string, i: nat)
    requires i < |lines|
    ensures IsDefLine(LStrip(lines[i]), symbol) ==> FirstDef(lines, symbol, i) == Some(i)
    ensures !IsDefLine(LStrip(lines[i]), symbol) ==> FirstDef(lines, symbol, i) == FirstDef(lines, symbol, i + 1)
  {
  }

  /**
   * The lines `extract_symbol` collects: the first line that defines
   * `symbol` and the kept lines after it; empty when no line defines it.
   */
  function Captured(lines: seq<string>, symbol: string): seq<string>
  {
    match FirstDef(lines, symbol, 0)
    case None => []
    case Some(k) => lines[k..CaptureEnd(lines, Indent(lines[k]), k + 1)]
  }

  /** What `extract_symbol` returns for a file whose text is `content` (`None`: unreadable). */
  function ExtractSpec(content: Option<string>, symbol: string): Option<string>
  {
    match content
    case None => None
    case Some(text) =>
      var captured := Captured(Split(text, '\n'), symbol);
      if captured == [] then None else Some(Join(captured, '\n'))
  }

  /** `extract_symbol(file_path, symbol)`, with the file's text (or `None`) passed in. */
  method ExtractSymbol(content: Option<string>, symbol: string) returns (r: Option<string>)
    ensures r == ExtractSpec(content, symbol)
  {
    if content.None? {
      return None;
    }
    var lines := Split(content.value, '\n');
    var resultLines := CaptureLines(lines, symbol);
    if resultLines == [] {
      return None;
    }
    r := Some(Join(resultLines, '\n'));
  }

  /** The line loop of `extract_symbol`: searching for the definition, then capturing. */
  method CaptureLines(lines: seq<string>, symbol: string) returns (resultLines: seq<string>)
    ensures resultLines == Captured(lines, symbol)
  {
    resultLines := [];
    var capturing := false;
    var baseIndent: nat := 0;
    ghost var k: nat := 0;
    var i := 0;
    while i < |lines|
      invariant 0 <= i <= |lines|
      invariant !capturing ==> resultLines == [] && FirstDef(lines, symbol, 0) == FirstDef(lines, symbol, i)
      invariant capturing ==> && k < i && FirstDef(lines, symbol, 0) == Some(k)
                              && baseIndent == Indent(lines[k]) && resultLines == lines[k..i]
                              && forall j :: k < j < i ==> Kept(lines[j], baseIndent)
    {
      var line := lines[i];
      var stripped := LStrip(line);
      if !capturing {
        FirstDefStep(lines, symbol, i);
        if IsDefLine(stripped, symbol) {
          capturing := true;
          k := i;
          baseIndent := |line| - |stripped|;
          // The decorator loop that follows in the source tests the last
          // captured line, but nothing has been captured before the
          // definition line, so that loop never runs and decorators are not
          // included.
          assert resultLines == [];
          assert lines[i..i + 1] == [line];
          resultLines := [line];
        }
      } else if stripped == [] || |line| - |stripped| > baseIndent || StartsWith(stripped, "#") {
        assert lines[k..i + 1] == lines[k..i] + [line];
        resultLines := resultLines + [line];
      } else {
        CaptureEndIs(lines, baseIndent, k + 1, i);
        break;
      }
      i := i + 1;
    }
    if capturing && i == |lines| {
      CaptureEndIs(lines, baseIndent, k + 1, i);
    }
  }

  /** No line of the file defines `symbol`. */
  predicate Undefined(lines: seq<string>, symbol: string)
  {
    forall j :: 0 <= j < |lines| ==> !DefinesAt(lines, j, symbol)
  }

  /** Nothing is extracted exactly when no line of a readable file defines the symbol. */
  lemma ExtractNoneIff(text: string, symbol: string)
    ensures ExtractSpec(Some(text), symbol).None? <==> Undefined(Split(text, '\n'), symbol)
  {
    var lines := Split(text, '\n');
    var f := FirstDef(lines, symbol, 0);
    FirstDefFirst(lines, symbol, 0);
    assert ExtractSpec(Some(text), symbol).None? <==> f.None?;
    if f.Some? {
      assert DefinesAt(lines, f.value, symbol);
    }
  }

  /**
   * The captured lines are a run of consecutive lines of the file: it opens
   * with the first line that defines the symbol, every further line is
   * blank, indented deeper than that line, or a comment, and the run stops
   * at the end of the file or just before a line that is none of these.
   */
  lemma CapturedRun(lines: seq<string>, symbol: string) returns (k: nat, e: nat)
    requires Captured(lines, symbol) != []
    ensures k < e <= |lines| && Captured(lines, symbol) == lines[k..e]
    ensures DefinesAt(lines, k, symbol)
    ensures forall j :: 0 <= j < k ==> !DefinesAt(lines, j, symbol)
    ensures forall j :: k < j < e ==> Kept(lines[j], Indent(lines[k]))
    ensures e < |lines| ==> !Kept(lines[e], Indent(lines[k]))
  {
    k := FirstDef(lines, symbol, 0).value;
    e := CaptureEnd(lines, Indent(lines[k]), k + 1);
    FirstDefFirst(lines, symbol, 0);
    CaptureEndKept(lines, Indent(lines[k]), k + 1);
  }

  /** An extracted definition splits back into the captured run of lines of the file. */
  lemma ExtractedLines(text: string, symbol: string) returns (k: nat, e: nat)
    requires ExtractSpec(Some(text), symbol).Some?
    ensures var lines := Split(text, '\n');
      && k < e <= |lines|
      && Split(ExtractSpec(Some(text), symbol).value, '\n') == lines[k..e]
      && DefinesAt(lines, k, symbol)
      && (forall j :: 0 <= j < k ==> !DefinesAt(lines, j, symbol))
      && (forall j :: k < j < e ==> Kept(lines[j], Indent(lines[k])))
      && (e < |lines| ==> !Kept(lines[e], Indent(lines[k])))
  {
    var lines := Split(text, '\n');
    k, e := CapturedRun(lines, symbol);
    var run := lines[k..e];
    SplitParts(text, '\n');
    forall m | 0 <= m < |run| ensures '\n' !in run[m] {
      assert run[m] == lines[k + m];
    }
    SplitJoin(run, '\n');
  }

  /** A definition line never opens with `@`. */
  lemma DefLineNotDecorator(stripped: string, symbol: string)
    requires IsDefLine(stripped, symbol)
    ensures stripped != [] && stripped[0] != '@'
  {
    var ps := Openers(symbol);
    StartsWithAnyIff(stripped, ps);
    var k :| 0 <= k < |ps| && StartsWith(stripped, ps[k]);
    assert stripped[0] == ps[k][0];
    assert ps[k][0] in "dca";
  }

  /**
   * Decorators above the definition are not part of what is extracted: the
   * first extracted line is the definition line itself.
   */
  lemma DecoratorsLeftOut(text: string, symbol: string)
    requires ExtractSpec(Some(text), symbol).Some?
    ensures var parts := Split(ExtractSpec(Some(text), symbol).value, '\n');
      LStrip(parts[0]) != [] && LStrip(parts[0])[0] != '@'
  {
    var k, e := ExtractedLines(text, symbol);
    var lines := Split(text, '\n');
    DefLineNotDecorator(LStrip(lines[k]), symbol);
  }
}
