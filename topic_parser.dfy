/**
 * Recovering follow-up topics from generated text
 * (`parse_topics_from_response` in `src/code_explainer/topics.py`).
 *
 * Both regular expressions of the source are written out as matchers.
 *
 * The heading pattern `#+\s*Topics?\s+to\s+Explore\s*\n(.*?)(?=\n#|\Z)`,
 * searched with `re.search` (`Search`, leftmost position first): `#+` and
 * the `\s*`/`\s+` before each word can only succeed at their longest
 * extent, so each is a run of characters; the `\s*\n` after `Explore`
 * takes the whitespace run and gives characters back to the last newline
 * in it, so the section starts after that newline (`HeadingEnd`); the lazy
 * `(.*?)` stops at the first `"\n#"` or at the end of the text
 * (`SectionEnd`). `HeadingShaped` states the same pattern as facts about
 * the text, and `HeaderAtIff` ties the two.
 *
 * The bullet pattern ``^[-*]\s+\[(\w+)\]\s+`([^`]+)`\s*(?:—|-|:)\s*(.+)$``
 * (multi-line, `finditer`): every quantifier up to the separator succeeds
 * only at its longest extent; the last `\s*`/`.+` pair backtracks, which
 * `TitleStart` makes explicit. `Shaped` states the pattern as facts, and
 * `MatchLineShaped`/`ShapedMatched` tie the two.
 */
module TopicParser {
  import opened Wrappers
  import opened Text
  import opened Topics

  /** `\w`, for ASCII characters. */
  predicate IsWordChar(c: char)
  {
    ('a' <= c <= 'z') || ('A' <= c <= 'Z') || ('0' <= c <= '9') || c == '_'
  }

  /** The character classes the two patterns repeat. */
  datatype CharClass = Space | Word | Hash | NoBacktick | NoNewline

  predicate InClass(c: char, cls: CharClass)
  {
    match cls
    case Space => IsSpace(c)
    case Word => IsWordChar(c)
    case Hash => c == '#'
    case NoBacktick => c != '`'
    case NoNewline => c != '\n'
  }

  /** End of the longest run of characters of class `cls` that starts at `i`. */
  function Span(s: string, i: nat, cls: CharClass): (j: nat)
    requires i <= |s|
    ensures i <= j <= |s|
    ensures j < |s| ==> !InClass(s[j], cls)
    decreases |s| - i
  {
    if i < |s| && InClass(s[i], cls) then Span(s, i + 1, cls) else i
  }

  /** Every character of the run `Span` measures is of the class. */
  lemma {:induction false} SpanAll(s: string, i: nat, cls: CharClass)
    requires i <= |s|
    ensures forall k {:trigger InClass(s[k], cls)} :: i <= k < Span(s, i, cls) ==> InClass(s[k], cls)
    decreases |s| - i
  {
    if i < |s| && InClass(s[i], cls) {
      SpanAll(s, i + 1, cls);
    }
  }

  /** The character at `k` is of class `cls`. */
  predicate ClassAt(s: string, k: nat, cls: CharClass)
  {
    k < |s| && InClass(s[k], cls)
  }

  /** `[lo, hi)` is a run of characters of class `cls`. */
  predicate Run(s: string, lo: nat, hi: nat, cls: CharClass)
  {
    lo <= hi <= |s| && forall k :: lo <= k < hi ==> ClassAt(s, k, cls)
  }

  /** The run `Span` measures is a `Run`. */
  lemma SpanRun(s: string, i: nat, cls: CharClass)
    requires i <= |s|
    ensures Run(s, i, Span(s, i, cls), cls)
  {
    SpanAll(s, i, cls);
  }

  /** Skipping a run of the class first does not change where the longest run ends. */
  lemma {:induction false} SpanTo(s: string, lo: nat, hi: nat, cls: CharClass)
    requires Run(s, lo, hi, cls)
    ensures Span(s, lo, cls) == Span(s, hi, cls)
    decreases hi - lo
  {
    if lo < hi {
      assert ClassAt(s, lo, cls);
      SpanTo(s, lo + 1, hi, cls);
    }
  }

  /** A run that stops at a character outside the class (or at the end) is the longest one. */
  lemma SpanStops(s: string, lo: nat, hi: nat, cls: CharClass)
    requires Run(s, lo, hi, cls) && (hi == |s| || !InClass(s[hi], cls))
    ensures Span(s, lo, cls) == hi
  {
    SpanTo(s, lo, hi, cls);
  }

  /** `w` (given in lower case) occurs at `i`, ignoring the case of ASCII letters. */
  predicate MatchCI(s: string, i: nat, w: string)
    ensures MatchCI(s, i, w) ==> i + |w| <= |s|
    decreases w
  {
    if w == [] then i <= |s|
    else i < |s| && LowerChar(s[i]) == w[0] && MatchCI(s, i + 1, w[1..])
  }

  /** A case-insensitive word match starts with a letter of that word, which is neither `#` nor whitespace. */
  lemma MatchCIHead(s: string, i: nat, w: string)
    requires MatchCI(s, i, w) && w != [] && 'a' <= w[0] <= 'z'
    ensures LowerChar(s[i]) == w[0] && s[i] != '#' && !IsSpace(s[i])
  {
  }

  // ---------------------------------------------------------------------
  // The "Topics to Explore" section
  // ---------------------------------------------------------------------

  /**
   * The heading pattern tried at position `i`: on success, the position
   * where the captured section starts (just past the last newline of the
   * whitespace that follows "Explore").
   */
  function HeaderAt(s: string, i: nat): (r: Option<nat>)
    requires i <= |s|
    ensures r.Some? ==> i < r.value <= |s| && s[r.value - 1] == '\n'
  {
    match TopicWordEnd(s, i)
    case None => None
    case Some(c) =>
      match WordAfter(s, c, "to")
      case None => None
      case Some(d) =>
        match WordAfter(s, d, "explore")
        case None => None
        case Some(f) => SectionStart(s, f)
  }

  /** `#+\s*Topics?` at `i`: on success, the position just past `Topic` or `Topics`. */
  function TopicWordEnd(s: string, i: nat): (r: Option<nat>)
    requires i <= |s|
    ensures r.Some? ==> i < r.value <= |s|
  {
    if !(i < |s| && s[i] == '#') then None
    else
      var b := Span(s, Span(s, i, Hash), Space);
      if !MatchCI(s, b, "topic") then None
      else Some(if b + 5 < |s| && LowerChar(s[b + 5]) == 's' then b + 6 else b + 5)
  }

  /** `\s+w` from `c`, with `w` given in lower case: on success, the position just past `w`. */
  function WordAfter(s: string, c: nat, w: string): (r: Option<nat>)
    requires c <= |s|
    ensures r.Some? ==> c < r.value <= |s|
  {
    var d := Span(s, c, Space);
    if d == c || !MatchCI(s, d, w) then None
    else Some(d + |w|)
  }

  /** `\s*\n` from position `f`: the greedy `\s*` gives back up to the last newline of the run. */
  function SectionStart(s: string, f: nat): (r: Option<nat>)
    requires f <= |s|
    ensures r.Some? ==> f < r.value <= |s| && s[r.value - 1] == '\n'
  {
    AfterLastNewline(s, f, Span(s, f, Space))
  }

  /** The position just past the last newline of `s[f..g]`, if it holds one. */
  function AfterLastNewline(s: string, f: nat, g: nat): (r: Option<nat>)
    requires f <= g <= |s|
    ensures r.Some? ==> f < r.value <= g && s[r.value - 1] == '\n' && Run(s, r.value, g, NoNewline)
    ensures r.None? ==> Run(s, f, g, NoNewline)
    decreases g - f
  {
    if g == f then None
    else if s[g - 1] == '\n' then Some(g)
    else AfterLastNewline(s, f, g - 1)
  }

  /** A newline at `p - 1` followed by none up to `g` is the last one. */
  lemma {:induction false} AfterLastNewlineIs(s: string, f: nat, g: nat, p: nat)
    requires f < p <= g <= |s| && s[p - 1] == '\n' && Run(s, p, g, NoNewline)
    ensures AfterLastNewline(s, f, g) == Some(p)
    decreases g - p
  {
    if p < g {
      assert ClassAt(s, g - 1, NoNewline);
      AfterLastNewlineIs(s, f, g - 1, p);
    }
  }

  /**
   * `re.search` for a pattern that matches at position `h` exactly when
   * `at(h)`: the first such position from `i` on, up to `n`.
   */
  function Search(at: nat -> bool, n: nat, i: nat): (r: Option<nat>)
    requires i <= n
    ensures r.Some? ==> i <= r.value <= n && at(r.value) && forall h :: i <= h < r.value ==> !at(h)
    ensures r.None? ==> forall h :: i <= h <= n ==> !at(h)
    decreases n - i
  {
    if at(i) then Some(i)
    else if i == n then None
    else Search(at, n, i + 1)
  }

  /** The positions where the heading pattern matches. */
  function HeaderMatches(s: string): nat -> bool
  {
    (h: nat) => h <= |s| && HeaderAt(s, h).Some?
  }

  /** `re.search(heading, s)`: the position of the leftmost heading match, if any. */
  function FindHeading(s: string): (r: Option<nat>)
    ensures r.Some? ==> r.value <= |s| && HeaderAt(s, r.value).Some?
  {
    var r := Search(HeaderMatches(s), |s|, 0);
    assert r.Some? ==> HeaderMatches(s)(r.value);
    r
  }

  /**
   * `#+\s*Topics?\s+to\s+Explore` at `i`, ignoring case: `[i, a)` holds the
   * `#`s, the words start at `b`, `d` and `e`, and `c` is the end of `Topic`
   * or `Topics`.
   */
  predicate HeadingWords(s: string, i: nat, a: nat, b: nat, c: nat, d: nat, e: nat)
  {
    && i < a && Run(s, i, a, Hash) && Run(s, a, b, Space)
    && MatchCI(s, b, "topic")
    && (c == b + 5 || (c == b + 6 && b + 5 < |s| && LowerChar(s[b + 5]) == 's'))
    && c < d && Run(s, c, d, Space) && MatchCI(s, d, "to")
    && d + 2 < e && Run(s, d + 2, e, Space) && MatchCI(s, e, "explore")
  }

  /**
   * `\s*\n` from `f`, as the greedy `\s*` settles it: `[f, p)` is whitespace
   * ending in a newline, and no newline follows in the rest of the run, so
   * `p` is just past the run's last newline.
   */
  predicate HeadingEnd(s: string, f: nat, p: nat)
  {
    && f < p && Run(s, f, p, Space) && s[p - 1] == '\n'
    && Run(s, p, Span(s, p, Space), NoNewline)
  }

  /** The heading pattern matches at `i`, and the captured section starts at `p`. */
  ghost predicate HeadingShaped(s: string, i: nat, p: nat)
  {
    exists a: nat, b: nat, c: nat, d: nat, e: nat ::
      HeadingWords(s, i, a, b, c, d, e) && HeadingEnd(s, e + 7, p)
  }

  /** The first stage of a heading match: the `#` run, the spaces and `Topic` or `Topics`. */
  lemma TopicWordStage(s: string, i: nat) returns (a: nat, b: nat)
    requires i <= |s| && TopicWordEnd(s, i).Some?
    ensures i < a && Run(s, i, a, Hash) && Run(s, a, b, Space) && MatchCI(s, b, "topic")
    ensures TopicWordEnd(s, i).value == if b + 5 < |s| && LowerChar(s[b + 5]) == 's' then b + 6 else b + 5
  {
    a := Span(s, i, Hash);
    b := Span(s, a, Space);
    SpanAll(s, i, Hash);
    SpanAll(s, a, Space);
  }

  /** A `\s+w` stage of a heading match: a run of spaces, then `w`. */
  lemma WordStage(s: string, c: nat, w: string) returns (d: nat)
    requires c <= |s| && WordAfter(s, c, w).Some?
    ensures c < d && Run(s, c, d, Space) && MatchCI(s, d, w)
    ensures WordAfter(s, c, w).value == d + |w|
  {
    d := Span(s, c, Space);
    SpanAll(s, c, Space);
  }

  /** The final `\s*\n` stage of a heading match. */
  lemma SectionStartStage(s: string, f: nat)
    requires f <= |s| && SectionStart(s, f).Some?
    ensures HeadingEnd(s, f, SectionStart(s, f).value)
  {
    var p := SectionStart(s, f).value;
    SpanRun(s, f, Space);
    assert Run(s, f, p, Space);
    SpanTo(s, f, p, Space);
  }

  /** What the heading matcher reports has the heading's shape. */
  lemma HeaderAtShaped(s: string, i: nat)
    requires i <= |s| && HeaderAt(s, i).Some?
    ensures HeadingShaped(s, i, HeaderAt(s, i).value)
  {
    var c, d2, f := HeaderAtStages(s, i);
    var a, b := TopicWordStage(s, i);
    var d := WordStage(s, c, "to");
    var e := WordStage(s, d2, "explore");
    SectionStartStage(s, f);
    ShapeOf(s, i, a, b, c, d, e, HeaderAt(s, i).value);
  }

  /** A heading match passes each of the four stages, and the last one reports the match. */
  lemma HeaderAtStages(s: string, i: nat) returns (c: nat, d: nat, f: nat)
    requires i <= |s| && HeaderAt(s, i).Some?
    ensures i < c <= d <= f <= |s| && TopicWordEnd(s, i) == Some(c)
    ensures WordAfter(s, c, "to") == Some(d) && WordAfter(s, d, "explore") == Some(f)
    ensures SectionStart(s, f) == HeaderAt(s, i)
  {
    c := TopicWordEnd(s, i).value;
    d := WordAfter(s, c, "to").value;
    f := WordAfter(s, d, "explore").value;
  }

  lemma ShapeOf(s: string, i: nat, a: nat, b: nat, c: nat, d: nat, e: nat, p: nat)
    requires HeadingWords(s, i, a, b, c, d, e) && HeadingEnd(s, e + 7, p)
    ensures HeadingShaped(s, i, p)
  {
  }

  /** The `#` run, the space before each word, and `Topic`/`Topics` are where the matcher finds them. */
  lemma HeadingWordsFound(s: string, i: nat, a: nat, b: nat, c: nat, d: nat, e: nat)
    requires HeadingWords(s, i, a, b, c, d, e)
    ensures i < |s| && s[i] == '#' && a == Span(s, i, Hash) && b == Span(s, a, Space) && MatchCI(s, b, "topic")
    ensures c == if b + 5 < |s| && LowerChar(s[b + 5]) == 's' then b + 6 else b + 5
    ensures c < d && d == Span(s, c, Space) && MatchCI(s, d, "to")
    ensures d + 2 < e && e == Span(s, d + 2, Space) && MatchCI(s, e, "explore")
  {
    assert ClassAt(s, i, Hash);
    MatchCIHead(s, b, "topic");
    MatchCIHead(s, d, "to");
    MatchCIHead(s, e, "explore");
    if a < b {
      assert ClassAt(s, a, Space);
    }
    SpanStops(s, i, a, Hash);
    SpanStops(s, a, b, Space);
    assert ClassAt(s, c, Space);
    SpanStops(s, c, d, Space);
    SpanStops(s, d + 2, e, Space);
  }

  /** The matcher's first stage accepts the `#` run and `Topic` or `Topics`. */
  lemma HashMatched(s: string, i: nat, a: nat, b: nat, c: nat)
    requires i < |s| && s[i] == '#' && a == Span(s, i, Hash) && b == Span(s, a, Space) && MatchCI(s, b, "topic")
    requires c == if b + 5 < |s| && LowerChar(s[b + 5]) == 's' then b + 6 else b + 5
    ensures TopicWordEnd(s, i) == Some(c)
  {
  }

  /** A `\s+w` stage accepts a run of spaces followed by `w`. */
  lemma WordMatched(s: string, c: nat, d: nat, w: string)
    requires c < d <= |s| && d == Span(s, c, Space) && MatchCI(s, d, w)
    ensures WordAfter(s, c, w) == Some(d + |w|)
  {
  }

  /** The matcher's last stage settles the `\s*\n` of a heading where `HeadingEnd` says. */
  lemma EndMatched(s: string, f: nat, p: nat)
    requires HeadingEnd(s, f, p)
    ensures SectionStart(s, f) == Some(p)
  {
    SpanTo(s, f, p, Space);
    AfterLastNewlineIs(s, f, Span(s, f, Space), p);
  }

  /** A heading of the pattern's shape is what the matcher reports at its position. */
  lemma ShapedHeaderAt(s: string, i: nat, p: nat)
    requires HeadingShaped(s, i, p)
    ensures i <= |s| && HeaderAt(s, i) == Some(p)
  {
    var a, b, c, d, e := HeadingWitness(s, i, p);
    WordsHeaderAt(s, i, a, b, c, d, e, p);
  }

  /** The positions of the parts of a heading of the pattern's shape. */
  lemma HeadingWitness(s: string, i: nat, p: nat) returns (a: nat, b: nat, c: nat, d: nat, e: nat)
    requires HeadingShaped(s, i, p)
    ensures HeadingWords(s, i, a, b, c, d, e) && HeadingEnd(s, e + 7, p)
  {
    a, b, c, d, e :| HeadingWords(s, i, a, b, c, d, e) && HeadingEnd(s, e + 7, p);
  }

  /** A heading with its parts at given positions is what the matcher reports. */
  lemma WordsHeaderAt(s: string, i: nat, a: nat, b: nat, c: nat, d: nat, e: nat, p: nat)
    requires HeadingWords(s, i, a, b, c, d, e) && HeadingEnd(s, e + 7, p)
    ensures i <= |s| && HeaderAt(s, i) == Some(p)
  {
    ShapeMatched(s, i, a, b, c, d, e, p);
    HeaderAtChain(s, i, c, d + 2, e + 7, p);
  }

  /** The heading's parts, found at given positions, are what each stage of the matcher reports. */
  lemma ShapeMatched(s: string, i: nat, a: nat, b: nat, c: nat, d: nat, e: nat, p: nat)
    requires HeadingWords(s, i, a, b, c, d, e) && HeadingEnd(s, e + 7, p)
    ensures TopicWordEnd(s, i) == Some(c) && WordAfter(s, c, "to") == Some(d + 2)
    ensures WordAfter(s, d + 2, "explore") == Some(e + 7) && i <= c <= d + 2 <= e + 7 <= |s|
    ensures SectionStart(s, e + 7) == Some(p)
  {
    HeadingWordsFound(s, i, a, b, c, d, e);
    SpansMatched(s, i, a, b, c, d, e);
    EndMatched(s, e + 7, p);
  }

  /** The heading's runs, measured as the matcher measures them, are accepted by its first three stages. */
  lemma SpansMatched(s: string, i: nat, a: nat, b: nat, c: nat, d: nat, e: nat)
    requires i < |s| && s[i] == '#' && a == Span(s, i, Hash) && b == Span(s, a, Space) && MatchCI(s, b, "topic")
    requires c == if b + 5 < |s| && LowerChar(s[b + 5]) == 's' then b + 6 else b + 5
    requires c < d && d == Span(s, c, Space) && MatchCI(s, d, "to")
    requires d + 2 < e && e == Span(s, d + 2, Space) && MatchCI(s, e, "explore")
    ensures TopicWordEnd(s, i) == Some(c) && WordAfter(s, c, "to") == Some(d + 2)
    ensures WordAfter(s, d + 2, "explore") == Some(e + 7) && i <= c <= d + 2 <= e + 7 <= |s|
  {
    HashMatched(s, i, a, b, c);
    WordMatched(s, c, d, "to");
    WordMatched(s, d + 2, e, "explore");
  }

  /** `HeaderAt` is its four stages run one after another. */
  lemma HeaderAtChain(s: string, i: nat, c: nat, d: nat, f: nat, p: nat)
    requires i <= c <= d <= f <= |s| && TopicWordEnd(s, i) == Some(c)
    requires WordAfter(s, c, "to") == Some(d) && WordAfter(s, d, "explore") == Some(f)
    requires SectionStart(s, f) == Some(p)
    ensures HeaderAt(s, i) == Some(p)
  {
  }

  /** The heading matcher at `i` reports `p` exactly when the heading pattern matches there with the section at `p`. */
  lemma HeaderAtIff(s: string, i: nat, p: nat)
    requires i <= |s|
    ensures HeaderAt(s, i) == Some(p) <==> HeadingShaped(s, i, p)
  {
    if HeaderAt(s, i) == Some(p) {
      HeaderAtShaped(s, i);
    }
    if HeadingShaped(s, i, p) {
      ShapedHeaderAt(s, i, p);
    }
  }

  /** Where the lazy `(.*?)` stops: the first `"\n#"` at or after `p`, or the end of the text. */
  function SectionEnd(s: string, p: nat): (e: nat)
    requires p <= |s|
    ensures p <= e <= |s|
    ensures e == |s| || (e + 1 < |s| && s[e] == '\n' && s[e + 1] == '#')
    ensures forall k :: p <= k < e ==> !(k + 1 < |s| && s[k] == '\n' && s[k + 1] == '#')
    decreases |s| - p
  {
    if p == |s| || (p + 1 < |s| && s[p] == '\n' && s[p + 1] == '#') then p
    else SectionEnd(s, p + 1)
  }

  /** `section_match.group(1)`, or `None` when the text has no heading. */
  function Section(s: string): Option<string>
  {
    match FindHeading(s)
    case None => None
    case Some(h) =>
      var start := HeaderAt(s, h).value;
      Some(s[start..SectionEnd(s, start)])
  }

  /** With no heading anywhere in the text there is no section, and with one there is. */
  lemma NoHeadingNoSection(s: string)
    ensures Section(s).None? <==> forall h: nat, p: nat :: !HeadingShaped(s, h, p)
  {
    if Section(s).None? {
      forall h': nat | h' < |s| + 1 ensures h' <= |s| && HeaderAt(s, h').None? {
        assert !HeaderMatches(s)(h');
      }
      NoHeadingBefore(s, |s| + 1);
      forall h: nat, p: nat | |s| < h ensures !HeadingShaped(s, h, p) {
        if HeadingShaped(s, h, p) {
          ShapedHeaderAt(s, h, p);
        }
      }
    } else {
      var h := FindHeading(s).value;
      HeaderAtShaped(s, h);
    }
  }

  /**
   * The section belongs to the leftmost heading: it runs from that heading's
   * section start to the first `"\n#"` after it, and no heading starts earlier.
   */
  lemma SectionAtLeftmost(s: string) returns (h: nat, p: nat)
    requires Section(s).Some?
    ensures HeadingShaped(s, h, p) && Section(s) == Some(s[p..SectionEnd(s, p)])
    ensures forall h': nat, p': nat :: h' < h ==> !HeadingShaped(s, h', p')
  {
    h := FindHeading(s).value;
    p := HeaderAt(s, h).value;
    HeaderAtShaped(s, h);
    FindHeadingLeftmost(s);
    NoHeadingBefore(s, h);
  }

  /** The matcher reports no heading before the one `FindHeading` returns. */
  lemma FindHeadingLeftmost(s: string)
    requires FindHeading(s).Some?
    ensures forall h': nat :: h' < FindHeading(s).value ==> h' <= |s| && HeaderAt(s, h').None?
  {
    forall h': nat | h' < FindHeading(s).value ensures h' <= |s| && HeaderAt(s, h').None? {
      assert !HeaderMatches(s)(h');
    }
  }

  /** Where the matcher finds no heading, no heading has the pattern's shape. */
  lemma NoHeadingBefore(s: string, h: nat)
    requires forall h': nat :: h' < h ==> h' <= |s| && HeaderAt(s, h').None?
    ensures forall h': nat, p': nat :: h' < h ==> !HeadingShaped(s, h', p')
  {
    forall h': nat, p': nat | h' < h ensures !HeadingShaped(s, h', p') {
      if HeadingShaped(s, h', p') {
        ShapedHeaderAt(s, h', p');
      }
    }
  }

  // ---------------------------------------------------------------------
  // Bullet lines
  // ---------------------------------------------------------------------

  /** One match of the bullet pattern, by position: `[kindStart, kindEnd)` is group 1, and so on. */
  datatype LineMatch = LineMatch(
    start: nat,
    kindStart: nat, kindEnd: nat,
    targetStart: nat, targetEnd: nat,
    titleStart: nat, end: nat)

  predicate IsSeparator(c: char)
  {
    c == '—' || c == '-' || c == ':'
  }

  /** `^` in multi-line mode. */
  predicate AtLineStart(t: string, i: nat)
  {
    i == 0 || (i <= |t| && t[i - 1] == '\n')
  }

  /** The groups of a match lie in order inside the text. */
  predicate Ordered(t: string, m: LineMatch)
  {
    0 < m.kindStart < m.kindEnd < m.targetStart < m.targetEnd < m.titleStart < m.end <= |t|
  }

  /** `[-*]\s+\[` (the `^` before it is `AtLineStart`). */
  predicate BulletPart(t: string, m: LineMatch)
    requires Ordered(t, m)
  {
    && m.start + 1 < m.kindStart - 1
    && (t[m.start] == '-' || t[m.start] == '*')
    && (forall k {:trigger InClass(t[k], Space)} :: m.start + 1 <= k < m.kindStart - 1 ==> InClass(t[k], Space))
    && t[m.kindStart - 1] == '['
  }

  /** `(\w+)\]\s+`` — group 1 and what follows it. */
  predicate KindPart(t: string, m: LineMatch)
    requires Ordered(t, m)
  {
    && (forall k {:trigger InClass(t[k], Word)} :: m.kindStart <= k < m.kindEnd ==> InClass(t[k], Word))
    && t[m.kindEnd] == ']'
    && m.kindEnd + 1 < m.targetStart - 1
    && (forall k {:trigger InClass(t[k], Space)} :: m.kindEnd + 1 <= k < m.targetStart - 1 ==> InClass(t[k], Space))
    && t[m.targetStart - 1] == '`'
  }

  /** ``([^`]+)`` — group 2 and its closing backtick. */
  predicate TargetPart(t: string, m: LineMatch)
    requires Ordered(t, m)
  {
    && (forall k {:trigger InClass(t[k], NoBacktick)} :: m.targetStart <= k < m.targetEnd ==> InClass(t[k], NoBacktick))
    && t[m.targetEnd] == '`'
  }

  /** `\s*(?:—|-|:)\s*(.+)$` — the separator, group 3 and the end of the line. */
  predicate TitlePart(t: string, m: LineMatch)
    requires Ordered(t, m)
  {
    && (exists e :: m.targetEnd < e < m.titleStart && IsSeparator(t[e])
          && (forall k {:trigger InClass(t[k], Space)} :: m.targetEnd < k < e ==> InClass(t[k], Space))
          && (forall k {:trigger InClass(t[k], Space)} :: e < k < m.titleStart ==> InClass(t[k], Space)))
    && (forall k {:trigger InClass(t[k], NoNewline)} :: m.titleStart <= k < m.end ==> InClass(t[k], NoNewline))
    && (m.end == |t| || t[m.end] == '\n')
  }

  /** What a match of the bullet pattern is, written as facts about the text. */
  predicate Shaped(t: string, m: LineMatch)
  {
    && Ordered(t, m) && m.start < m.kindStart && AtLineStart(t, m.start)
    && BulletPart(t, m) && KindPart(t, m) && TargetPart(t, m) && TitlePart(t, m)
  }

  /**
   * Where `\s*(.+)$` after the separator puts the start of `(.+)`: the
   * greedy `\s*` gives back characters until `.` can match, so this is the
   * last position in `[lo, hi]` holding a character other than a newline.
   */
  function TitleStart(t: string, lo: nat, hi: nat): (r: Option<nat>)
    requires lo <= hi <= |t|
    ensures r.Some? ==> lo <= r.value <= hi && r.value < |t| && t[r.value] != '\n'
    ensures r.Some? ==> forall k :: r.value < k <= hi && k < |t| ==> t[k] == '\n'
    ensures r.None? ==> forall k :: lo <= k <= hi && k < |t| ==> t[k] == '\n'
    decreases hi - lo
  {
    if hi < |t| && t[hi] != '\n' then Some(hi)
    else if hi == lo then None
    else TitleStart(t, lo, hi - 1)
  }

  /** The bullet pattern tried at position `i` (not counting `^`): `[-*]\s+\[`. */
  function MatchLine(t: string, i: nat): (r: Option<LineMatch>)
    requires i <= |t|
    ensures r.Some? ==> r.value.start == i < r.value.kindStart && Ordered(t, r.value)
  {
    if !(i < |t| && (t[i] == '-' || t[i] == '*')) then None
    else
      var a := Span(t, i + 1, Space);
      if a == i + 1 || !(a < |t| && t[a] == '[') then None
      else MatchFromKind(t, i, a + 1)
  }

  /** The rest of the pattern from group 1 on: `(\w+)\]\s+``. */
  function MatchFromKind(t: string, i: nat, ks: nat): (r: Option<LineMatch>)
    requires i < ks <= |t|
    ensures r.Some? ==> r.value.start == i && r.value.kindStart == ks && Ordered(t, r.value)
  {
    var b := Span(t, ks, Word);
    if b == ks || !(b < |t| && t[b] == ']') then None
    else
      var c := Span(t, b + 1, Space);
      if c == b + 1 || !(c < |t| && t[c] == '`') then None
      else MatchFromTarget(t, i, ks, b, c + 1)
  }

  /** From group 2 on: ``([^`]+)`\s*(?:—|-|:)``. */
  function MatchFromTarget(t: string, i: nat, ks: nat, ke: nat, ts: nat): (r: Option<LineMatch>)
    requires 0 < ks < ke < ts <= |t|
    ensures r.Some? ==> r.value == LineMatch(i, ks, ke, ts, r.value.targetEnd, r.value.titleStart, r.value.end)
    ensures r.Some? ==> Ordered(t, r.value)
  {
    var d := Span(t, ts, NoBacktick);
    if d == ts || d == |t| then None
    else
      var e := Span(t, d + 1, Space);
      if !(e < |t| && IsSeparator(t[e])) then None
      else MatchTitle(t, i, ks, ke, ts, d, e)
  }

  /** From the separator at `e` on: `\s*(.+)$`. */
  function MatchTitle(t: string, i: nat, ks: nat, ke: nat, ts: nat, te: nat, e: nat): (r: Option<LineMatch>)
    requires 0 < ks < ke < ts < te < e < |t|
    ensures r.Some? ==> r.value == LineMatch(i, ks, ke, ts, te, r.value.titleStart, r.value.end)
    ensures r.Some? ==> e < r.value.titleStart < r.value.end <= |t|
  {
    var g := Span(t, e + 1, Space);
    match TitleStart(t, e + 1, g)
    case None => None
    case Some(p) => Some(LineMatch(i, ks, ke, ts, te, p, Span(t, p, NoNewline)))
  }

  lemma MatchTitleShaped(t: string, i: nat, ks: nat, ke: nat, ts: nat, te: nat, e: nat)
    requires 0 < ks < ke < ts < te < e < |t| && IsSeparator(t[e])
    requires forall k {:trigger InClass(t[k], Space)} :: te < k < e ==> InClass(t[k], Space)
    requires MatchTitle(t, i, ks, ke, ts, te, e).Some?
    ensures Ordered(t, MatchTitle(t, i, ks, ke, ts, te, e).value)
    ensures TitlePart(t, MatchTitle(t, i, ks, ke, ts, te, e).value)
  {
    var m := MatchTitle(t, i, ks, ke, ts, te, e).value;
    var g := Span(t, e + 1, Space);
    assert m.titleStart <= g;
    SpanAll(t, e + 1, Space);
    SpanAll(t, m.titleStart, NoNewline);
  }

  lemma MatchFromTargetShaped(t: string, i: nat, ks: nat, ke: nat, ts: nat)
    requires 0 < ks < ke < ts <= |t| && MatchFromTarget(t, i, ks, ke, ts).Some?
    ensures Ordered(t, MatchFromTarget(t, i, ks, ke, ts).value)
    ensures TargetPart(t, MatchFromTarget(t, i, ks, ke, ts).value)
    ensures TitlePart(t, MatchFromTarget(t, i, ks, ke, ts).value)
  {
    var d := Span(t, ts, NoBacktick);
    var e := Span(t, d + 1, Space);
    SpanAll(t, ts, NoBacktick);
    SpanAll(t, d + 1, Space);
    MatchTitleShaped(t, i, ks, ke, ts, d, e);
  }

  lemma MatchFromKindShaped(t: string, i: nat, ks: nat)
    requires i < ks <= |t| && MatchFromKind(t, i, ks).Some?
    ensures Ordered(t, MatchFromKind(t, i, ks).value)
    ensures KindPart(t, MatchFromKind(t, i, ks).value)
    ensures TargetPart(t, MatchFromKind(t, i, ks).value)
    ensures TitlePart(t, MatchFromKind(t, i, ks).value)
  {
    var b := Span(t, ks, Word);
    var c := Span(t, b + 1, Space);
    SpanAll(t, ks, Word);
    SpanAll(t, b + 1, Space);
    MatchFromTargetShaped(t, i, ks, b, c + 1);
  }

  /** `MatchLine` unfolded once, on success. */
  lemma MatchLineStep(t: string, i: nat) returns (a: nat)
    requires i <= |t| && MatchLine(t, i).Some?
    ensures i + 1 < a < |t| && a == Span(t, i + 1, Space)
    ensures (t[i] == '-' || t[i] == '*') && t[a] == '['
    ensures MatchLine(t, i) == MatchFromKind(t, i, a + 1)
  {
    a := Span(t, i + 1, Space);
  }

  /** The bullet facts `MatchLineStep` finds, as `BulletPart`. */
  lemma BulletOf(t: string, i: nat, a: nat, m: LineMatch)
    requires i + 1 < a < |t| && a == Span(t, i + 1, Space)
    requires (t[i] == '-' || t[i] == '*') && t[a] == '['
    requires Ordered(t, m) && m.start == i && m.kindStart == a + 1
    ensures BulletPart(t, m)
  {
    SpanAll(t, i + 1, Space);
  }

  /** Every match the bullet matcher reports has the bullet shape. */
  lemma MatchLineShaped(t: string, i: nat)
    requires i <= |t| && AtLineStart(t, i) && MatchLine(t, i).Some?
    ensures Shaped(t, MatchLine(t, i).value)
  {
    var m := MatchLine(t, i).value;
    var a := MatchLineStep(t, i);
    MatchFromKindShaped(t, i, a + 1);
    BulletOf(t, i, a, m);
  }

  /** From the separator on: where a title character follows the spaces after it, `\s*(.+)$` matches. */
  lemma TitleMatched(t: string, i: nat, ks: nat, ke: nat, ts: nat, te: nat, e: nat, q: nat)
    requires 0 < ks < ke < ts < te < e < q < |t| && Run(t, e + 1, q, Space) && t[q] != '\n'
    ensures MatchTitle(t, i, ks, ke, ts, te, e).Some?
  {
    SpanTo(t, e + 1, q, Space);
  }

  /** From group 2 on: the target run, its backtick, the spaces and the separator are where the matcher finds them. */
  lemma TargetMatched(t: string, i: nat, ks: nat, ke: nat, ts: nat, te: nat, e: nat, q: nat)
    requires 0 < ks < ke < ts < te < e < q < |t|
    requires Run(t, ts, te, NoBacktick) && t[te] == '`'
    requires Run(t, te + 1, e, Space) && IsSeparator(t[e])
    requires Run(t, e + 1, q, Space) && t[q] != '\n'
    ensures MatchFromTarget(t, i, ks, ke, ts).Some?
    ensures MatchFromTarget(t, i, ks, ke, ts).value.targetEnd == te
  {
    SpanStops(t, ts, te, NoBacktick);
    SpanStops(t, te + 1, e, Space);
    TitleMatched(t, i, ks, ke, ts, te, e, q);
  }

  /** From group 1 on: the kind run, `]`, the spaces and the opening backtick are where the matcher finds them. */
  lemma KindMatched(t: string, i: nat, ks: nat, ke: nat, ts: nat, te: nat, e: nat, q: nat)
    requires i < ks < ke && ke + 1 < ts - 1 && ts < te < e < q < |t|
    requires Run(t, ks, ke, Word) && t[ke] == ']'
    requires Run(t, ke + 1, ts - 1, Space) && t[ts - 1] == '`'
    requires Run(t, ts, te, NoBacktick) && t[te] == '`'
    requires Run(t, te + 1, e, Space) && IsSeparator(t[e])
    requires Run(t, e + 1, q, Space) && t[q] != '\n'
    ensures MatchFromKind(t, i, ks).Some?
    ensures var m := MatchFromKind(t, i, ks).value; m.kindEnd == ke && m.targetStart == ts && m.targetEnd == te
  {
    SpanStops(t, ks, ke, Word);
    SpanStops(t, ke + 1, ts - 1, Space);
    TargetMatched(t, i, ks, ke, ts, te, e, q);
  }

  /**
   * Every position where the text has the bullet shape is one where the
   * matcher succeeds, with the same kind and target; only the split of the
   * spaces before the title may differ.
   */
  lemma ShapedMatched(t: string, m: LineMatch)
    requires Shaped(t, m)
    ensures MatchLine(t, m.start).Some?
    ensures var r := MatchLine(t, m.start).value;
      && r.kindStart == m.kindStart && r.kindEnd == m.kindEnd
      && r.targetStart == m.targetStart && r.targetEnd == m.targetEnd
  {
    var e := ShapedRuns(t, m);
    RunsMatched(t, m.start, m.kindStart, m.kindEnd, m.targetStart, m.targetEnd, e, m.titleStart);
  }

  /** The whole pattern, given as runs of characters, is where the matcher finds it. */
  lemma RunsMatched(t: string, i: nat, ks: nat, ke: nat, ts: nat, te: nat, e: nat, q: nat)
    requires i + 1 < ks - 1 && ks < ke && ke + 1 < ts - 1 && ts < te < e < q < |t|
    requires (t[i] == '-' || t[i] == '*') && t[ks - 1] == '['
    requires Run(t, i + 1, ks - 1, Space)
    requires Run(t, ks, ke, Word) && t[ke] == ']'
    requires Run(t, ke + 1, ts - 1, Space) && t[ts - 1] == '`'
    requires Run(t, ts, te, NoBacktick) && t[te] == '`'
    requires Run(t, te + 1, e, Space) && IsSeparator(t[e])
    requires Run(t, e + 1, q, Space) && t[q] != '\n'
    ensures MatchLine(t, i).Some?
    ensures var r := MatchLine(t, i).value; r.kindStart == ks && r.kindEnd == ke && r.targetStart == ts && r.targetEnd == te
  {
    SpanStops(t, i + 1, ks - 1, Space);
    BulletMatched(t, i, ks - 1);
    KindMatched(t, i, ks, ke, ts, te, e, q);
  }

  /** `Shaped` as runs of characters, with `e` the separator. */
  lemma ShapedRuns(t: string, m: LineMatch) returns (e: nat)
    requires Shaped(t, m)
    ensures m.start + 1 < m.kindStart - 1 && (t[m.start] == '-' || t[m.start] == '*') && t[m.kindStart - 1] == '['
    ensures Run(t, m.start + 1, m.kindStart - 1, Space)
    ensures m.start < m.kindStart < m.kindEnd && m.kindEnd + 1 < m.targetStart - 1
    ensures m.targetStart < m.targetEnd < e < m.titleStart < |t|
    ensures Run(t, m.kindStart, m.kindEnd, Word) && t[m.kindEnd] == ']'
    ensures Run(t, m.kindEnd + 1, m.targetStart - 1, Space) && t[m.targetStart - 1] == '`'
    ensures Run(t, m.targetStart, m.targetEnd, NoBacktick) && t[m.targetEnd] == '`'
    ensures Run(t, m.targetEnd + 1, e, Space) && IsSeparator(t[e])
    ensures Run(t, e + 1, m.titleStart, Space) && t[m.titleStart] != '\n'
  {
    e :| m.targetEnd < e < m.titleStart && IsSeparator(t[e])
          && (forall k {:trigger InClass(t[k], Space)} :: m.targetEnd < k < e ==> InClass(t[k], Space))
          && (forall k {:trigger InClass(t[k], Space)} :: e < k < m.titleStart ==> InClass(t[k], Space));
    assert InClass(t[m.titleStart], NoNewline);
  }

  /** `[-*]\s+\[`: the bullet, the spaces and `[` are where the matcher finds them. */
  lemma BulletMatched(t: string, i: nat, a: nat)
    requires i < |t| && (t[i] == '-' || t[i] == '*')
    requires a == Span(t, i + 1, Space) && i + 1 < a < |t| && t[a] == '['
    ensures MatchLine(t, i) == MatchFromKind(t, i, a + 1)
  {
  }

  /** The match `finditer` finds at `pos`, if the pattern matches there. */
  function NextMatch(t: string, pos: nat): (r: Option<LineMatch>)
    requires pos <= |t|
    ensures r.Some? ==> r.value.start == pos < r.value.end && Ordered(t, r.value)
  {
    if AtLineStart(t, pos) then MatchLine(t, pos) else None
  }

  /** A matcher `at` for a text of length `n`: a match found at `p` starts at `p`, is not empty and ends inside the text. */
  predicate Advancing(at: nat -> Option<LineMatch>, n: nat)
  {
    forall p: nat :: p <= n && at(p).Some? ==> at(p).value.start == p < at(p).value.end <= n
  }

  /**
   * `finditer` for a pattern whose match at each position `p` is `at(p)`:
   * from `pos` on, report the match where there is one and resume at its
   * end, otherwise move one character on.
   */
  function Scan(at: nat -> Option<LineMatch>, n: nat, pos: nat): seq<LineMatch>
    requires pos <= n + 1 && Advancing(at, n)
    decreases n + 1 - pos
  {
    if pos > n then []
    else
      match at(pos)
      case None => Scan(at, n, pos + 1)
      case Some(lm) => [lm] + Scan(at, n, lm.end)
  }

  /** Every match `Scan` reports is the match at its own start, at or after `pos`, and they do not overlap. */
  lemma {:induction false} ScanFound(at: nat -> Option<LineMatch>, n: nat, pos: nat)
    requires pos <= n + 1 && Advancing(at, n)
    ensures forall k :: 0 <= k < |Scan(at, n, pos)| ==>
      var m := Scan(at, n, pos)[k]; pos <= m.start <= n && at(m.start) == Some(m)
    ensures forall k :: 0 <= k < |Scan(at, n, pos)| - 1 ==> Scan(at, n, pos)[k].end <= Scan(at, n, pos)[k + 1].start
    decreases n + 1 - pos
  {
    if pos <= n {
      match at(pos)
      case None =>
        ScanFound(at, n, pos + 1);
      case Some(lm) =>
        ScanFound(at, n, lm.end);
        assert Scan(at, n, pos) == [lm] + Scan(at, n, lm.end);
    }
  }

  /** Every position from `pos` on where `at` matches lies inside some match `Scan` reports. */
  lemma {:induction false} ScanCovers(at: nat -> Option<LineMatch>, n: nat, pos: nat, p: nat)
    requires pos <= n + 1 && Advancing(at, n) && pos <= p <= n && at(p).Some?
    ensures exists k :: 0 <= k < |Scan(at, n, pos)| && Scan(at, n, pos)[k].start <= p < Scan(at, n, pos)[k].end
    decreases n + 1 - pos
  {
    var ms := Scan(at, n, pos);
    match at(pos)
    case None =>
      ScanCovers(at, n, pos + 1, p);
      var k :| 0 <= k < |Scan(at, n, pos + 1)| && Scan(at, n, pos + 1)[k].start <= p < Scan(at, n, pos + 1)[k].end;
      assert ms[k] == Scan(at, n, pos + 1)[k];
    case Some(lm) =>
      if p < lm.end {
        assert ms[0] == lm;
      } else {
        ScanCovers(at, n, lm.end, p);
        var k :| 0 <= k < |Scan(at, n, lm.end)| && Scan(at, n, lm.end)[k].start <= p < Scan(at, n, lm.end)[k].end;
        assert ms[k + 1] == Scan(at, n, lm.end)[k];
      }
  }

  /** Equivalently: where no reported match covers `p`, the matcher fails at `p`. */
  lemma ScanMisses(at: nat -> Option<LineMatch>, n: nat, pos: nat, p: nat)
    requires pos <= n + 1 && Advancing(at, n) && pos <= p <= n
    requires forall k :: 0 <= k < |Scan(at, n, pos)| ==> !(Scan(at, n, pos)[k].start <= p < Scan(at, n, pos)[k].end)
    ensures at(p).None?
  {
    if at(p).Some? {
      ScanCovers(at, n, pos, p);
    }
  }

  /** The bullet pattern as a matcher over positions (`finditer` tries `^` first). */
  function MatchAt(t: string): nat -> Option<LineMatch>
  {
    (p: nat) => if p <= |t| then NextMatch(t, p) else None
  }

  lemma MatchAtAdvancing(t: string)
    ensures Advancing(MatchAt(t), |t|)
  {
    forall p: nat | p <= |t| && MatchAt(t)(p).Some?
      ensures MatchAt(t)(p).value.start == p < MatchAt(t)(p).value.end <= |t|
    {
      assert MatchAt(t)(p) == NextMatch(t, p);
    }
  }

  /** `finditer` from position `pos`: the successive non-overlapping matches, left to right. */
  function Matches(t: string, pos: nat): (ms: seq<LineMatch>)
    requires pos <= |t| + 1
    ensures forall k :: 0 <= k < |ms| ==> Ordered(t, ms[k])
  {
    MatchAtAdvancing(t);
    var ms := Scan(MatchAt(t), |t|, pos);
    ScanFound(MatchAt(t), |t|, pos);
    assert forall k :: 0 <= k < |ms| ==> NextMatch(t, ms[k].start) == Some(ms[k]);
    ms
  }

  /** Every match `finditer` reports starts at or after `pos`, and they do not overlap. */
  lemma MatchesInOrder(t: string, pos: nat)
    requires pos <= |t| + 1
    ensures forall k :: 0 <= k < |Matches(t, pos)| ==> pos <= Matches(t, pos)[k].start
    ensures forall k :: 0 <= k < |Matches(t, pos)| - 1 ==> Matches(t, pos)[k].end <= Matches(t, pos)[k + 1].start
  {
    MatchAtAdvancing(t);
    ScanFound(MatchAt(t), |t|, pos);
  }

  /** Every match `finditer` reports is the match the pattern makes at its own start. */
  lemma MatchFoundAt(t: string, pos: nat, k: nat)
    requires pos <= |t| + 1 && k < |Matches(t, pos)|
    ensures Matches(t, pos)[k].start <= |t|
    ensures NextMatch(t, Matches(t, pos)[k].start) == Some(Matches(t, pos)[k])
  {
    MatchAtAdvancing(t);
    ScanFound(MatchAt(t), |t|, pos);
    var m := Matches(t, pos)[k];
    assert MatchAt(t)(m.start) == Some(m);
  }

  /** Every match `finditer` reports starts a line and has the bullet shape. */
  lemma MatchShapedAt(t: string, k: nat)
    requires k < |Matches(t, 0)|
    ensures Shaped(t, Matches(t, 0)[k])
  {
    var m := Matches(t, 0)[k];
    MatchFoundAt(t, 0, k);
    MatchLineShaped(t, m.start);
  }

  // ---------------------------------------------------------------------
  // Topics
  // ---------------------------------------------------------------------

  /** The kind of a parsed topic: lower-cased, and `general` when unknown. */
  function NormalizeKind(k: string): (r: string)
    ensures r in TOPIC_KINDS
    ensures Lower(k) in TOPIC_KINDS ==> r == Lower(k)
    ensures Lower(k) !in TOPIC_KINDS ==> r == "general"
  {
    var lk := Lower(k);
    if lk in TOPIC_KINDS then lk else "general"
  }

  /** The topic built from one bullet match. */
  function TopicOf(t: string, m: LineMatch, source: string, now: string): Topic
    requires Ordered(t, m)
  {
    Topic(
      title := Strip(t[m.titleStart..m.end]),
      kind := NormalizeKind(t[m.kindStart..m.kindEnd]),
      target := t[m.targetStart..m.targetEnd],
      source := source,
      status := PENDING,
      added := now)
  }

  function TopicsOf(t: string, ms: seq<LineMatch>, source: string, now: string): (ts: seq<Topic>)
    requires forall k :: 0 <= k < |ms| ==> Ordered(t, ms[k])
    ensures |ts| == |ms|
    ensures forall k :: 0 <= k < |ms| ==> ts[k] == TopicOf(t, ms[k], source, now)
  {
    seq(|ms|, k requires 0 <= k < |ms| => TopicOf(t, ms[k], source, now))
  }

  /** What `parse_topics_from_response` returns, every topic stamped with the time `now`. */
  function ParseSpec(response: string, source: string, now: string): seq<Topic>
  {
    match Section(response)
    case None => []
    case Some(sec) => TopicsOf(sec, Matches(sec, 0), source, now)
  }

  /** `parse_topics_from_response(response, source)`; `now` stands for the clock read by `Topic()`. */
  method ParseTopicsFromResponse(response: string, source: string, now: string) returns (topics: seq<Topic>)
    ensures topics == ParseSpec(response, source, now)
    ensures Section(response).None? ==> topics == []
  {
    var heading := FindHeading(response);
    if heading.None? {
      return [];
    }
    var start := HeaderAt(response, heading.value).value;
    var sectionText := response[start..SectionEnd(response, start)];
    topics := TopicsFromSection(sectionText, source, now);
  }

  /** One step of `finditer`: "found so far, then the rest" stays equal to all matches. */
  lemma MatchesAdvance(t: string, pos: nat, found: seq<LineMatch>)
    requires pos <= |t|
    ensures var m := NextMatch(t, pos);
      m.Some? ==> found + Matches(t, pos) == (found + [m.value]) + Matches(t, m.value.end)
    ensures NextMatch(t, pos).None? ==> Matches(t, pos) == Matches(t, pos + 1)
  {
  }

  lemma TopicsOfSnoc(t: string, ms: seq<LineMatch>, m: LineMatch, source: string, now: string)
    requires forall k :: 0 <= k < |ms| ==> Ordered(t, ms[k])
    requires Ordered(t, m)
    ensures forall k :: 0 <= k < |ms + [m]| ==> Ordered(t, (ms + [m])[k])
    ensures TopicsOf(t, ms + [m], source, now) == TopicsOf(t, ms, source, now) + [TopicOf(t, m, source, now)]
  {
    var ms' := ms + [m];
    assert forall k :: 0 <= k < |ms'| ==> Ordered(t, ms'[k]);
  }

  /** The loop of `parse_topics_from_response` over `TOPIC_LINE_PATTERN.finditer(section_text)`. */
  method TopicsFromSection(sectionText: string, source: string, now: string) returns (topics: seq<Topic>)
    ensures topics == TopicsOf(sectionText, Matches(sectionText, 0), source, now)
  {
    topics := [];
    var pos := 0;
    ghost var found: seq<LineMatch> := [];
    while pos <= |sectionText|
      invariant pos <= |sectionText| + 1
      invariant found + Matches(sectionText, pos) == Matches(sectionText, 0)
      invariant forall k :: 0 <= k < |found| ==> Ordered(sectionText, found[k])
      invariant topics == TopicsOf(sectionText, found, source, now)
      decreases |sectionText| + 1 - pos
    {
      var m := NextMatch(sectionText, pos);
      MatchesAdvance(sectionText, pos, found);
      if m.Some? {
        TopicsOfSnoc(sectionText, found, m.value, source, now);
        topics := topics + [TopicOf(sectionText, m.value, source, now)];
        found := found + [m.value];
        pos := m.value.end;
      } else {
        pos := pos + 1;
      }
    }
    assert found + [] == found;
  }

  /** One parsed topic: what it holds and where its target sits in the section. */
  lemma ParsedTopicAt(sec: string, ms: seq<LineMatch>, ts: seq<Topic>, k: nat, source: string, now: string)
    requires forall j :: 0 <= j < |ms| ==> Ordered(sec, ms[j])
    requires ts == TopicsOf(sec, ms, source, now) && k < |ms| && Shaped(sec, ms[k])
    ensures && ts[k].status == PENDING && ts[k].source == source && ts[k].kind in TOPIC_KINDS
            && ts[k].target == sec[ms[k].targetStart..ms[k].targetEnd]
            && ts[k].target != [] && '`' !in ts[k].target
            && sec[ms[k].targetStart - 1] == '`' && sec[ms[k].targetEnd] == '`'
  {
    var m := ms[k];
    var x := sec[m.targetStart..m.targetEnd];
    assert x[0] == sec[m.targetStart];
    forall j | 0 <= j < |x| ensures x[j] != '`' {
      assert x[j] == sec[m.targetStart + j];
      assert InClass(sec[m.targetStart + j], NoBacktick);
    }
  }

  /**
   * Every parsed topic is pending, carries the given source, has a kind in
   * `TOPIC_KINDS`, and its target is the non-empty text between a pair of
   * backticks of a bullet line of the section, verbatim; topics come in the
   * order their lines appear.
   */
  lemma ParsedTopics(response: string, source: string, now: string)
    requires Section(response).Some?
    ensures var sec := Section(response).value;
      var ms := Matches(sec, 0);
      var ts := ParseSpec(response, source, now);
      && |ts| == |ms|
      && (forall k :: 0 <= k < |ts| ==>
            && ts[k].status == PENDING && ts[k].source == source && ts[k].kind in TOPIC_KINDS
            && ts[k].target == sec[ms[k].targetStart..ms[k].targetEnd]
            && ts[k].target != [] && '`' !in ts[k].target
            && sec[ms[k].targetStart - 1] == '`' && sec[ms[k].targetEnd] == '`')
      && (forall k :: 0 <= k < |ms| - 1 ==> ms[k].end <= ms[k + 1].start)
  {
    var sec := Section(response).value;
    var ms := Matches(sec, 0);
    var ts := ParseSpec(response, source, now);
    MatchesInOrder(sec, 0);
    forall k | 0 <= k < |ts|
      ensures && ts[k].status == PENDING && ts[k].source == source && ts[k].kind in TOPIC_KINDS
              && ts[k].target == sec[ms[k].targetStart..ms[k].targetEnd]
              && ts[k].target != [] && '`' !in ts[k].target
              && sec[ms[k].targetStart - 1] == '`' && sec[ms[k].targetEnd] == '`'
    {
      MatchShapedAt(sec, k);
      ParsedTopicAt(sec, ms, ts, k, source, now);
    }
  }

  /** Every bullet-shaped line of a text lies inside a match `finditer` reports; one that starts there has the line's kind and target. */
  lemma MatchesCover(t: string, m: LineMatch)
    requires Shaped(t, m)
    ensures exists k :: 0 <= k < |Matches(t, 0)| && Matches(t, 0)[k].start <= m.start < Matches(t, 0)[k].end
    ensures forall k :: 0 <= k < |Matches(t, 0)| && Matches(t, 0)[k].start == m.start ==>
      var r := Matches(t, 0)[k];
      r.kindStart == m.kindStart && r.kindEnd == m.kindEnd && r.targetStart == m.targetStart && r.targetEnd == m.targetEnd
  {
    ShapedMatched(t, m);
    MatchAtAdvancing(t);
    assert MatchAt(t)(m.start) == MatchLine(t, m.start);
    ScanCovers(MatchAt(t), |t|, 0, m.start);
    assert Matches(t, 0) == Scan(MatchAt(t), |t|, 0);
    forall k | 0 <= k < |Matches(t, 0)| && Matches(t, 0)[k].start == m.start
      ensures Matches(t, 0)[k] == MatchLine(t, m.start).value
    {
      MatchFoundAt(t, 0, k);
    }
  }

  /**
   * No bullet line of the section is lost: each lies inside the line a
   * parsed topic came from, and a topic whose line starts where the bullet
   * does has the bullet's target and normalised kind.
   */
  lemma BulletYieldsTopic(response: string, source: string, now: string, m: LineMatch)
    requires Section(response).Some? && Shaped(Section(response).value, m)
    ensures var sec := Section(response).value;
      var ms := Matches(sec, 0);
      var ts := ParseSpec(response, source, now);
      && (exists k :: 0 <= k < |ms| && ms[k].start <= m.start < ms[k].end)
      && (forall k :: 0 <= k < |ms| && ms[k].start == m.start ==>
            && ts[k].target == sec[m.targetStart..m.targetEnd]
            && ts[k].kind == NormalizeKind(sec[m.kindStart..m.kindEnd]))
  {
    ParseOfSection(response, source, now);
    SectionBulletYieldsTopic(Section(response).value, source, now, m);
  }

  /** `BulletYieldsTopic` for the topics of one section. */
  lemma SectionBulletYieldsTopic(sec: string, source: string, now: string, m: LineMatch)
    requires Shaped(sec, m)
    ensures var ms := Matches(sec, 0);
      var ts := TopicsOf(sec, ms, source, now);
      && (exists k :: 0 <= k < |ms| && ms[k].start <= m.start < ms[k].end)
      && (forall k :: 0 <= k < |ms| && ms[k].start == m.start ==>
            && ts[k].target == sec[m.targetStart..m.targetEnd]
            && ts[k].kind == NormalizeKind(sec[m.kindStart..m.kindEnd]))
  {
    MatchesCover(sec, m);
  }

  /** With a section, the parsed topics are the topics of its bullet matches. */
  lemma ParseOfSection(response: string, source: string, now: string)
    requires Section(response).Some?
    ensures ParseSpec(response, source, now) == TopicsOf(Section(response).value, Matches(Section(response).value, 0), source, now)
  {
  }
}
