# code-explainer core, modelled in Dafny

code-explainer asks a language model to explain a file, a function, a diff or
a whole repository. Around that call sits a small deterministic core, and
this project models and verifies it:

- **Topic queue** (`Topics`). A persisted, ordered list of exploration
  topics. `add_topics` appends topics whose target is new and skips
  duplicates by target. `pop_next` marks the first pending topic `done`.
  `skip_topic` marks the `index`-th *pending* topic `skipped`.
  `pending_count` counts pending topics. The `topics.json` file is the
  field `TopicStore.persisted`; `None` means the file does not exist.
- **Topic parser** (`TopicParser`). `parse_topics_from_response` finds the
  "Topics to Explore" section of a model answer and turns each bullet line
  `- [kind] `target` — title` into a pending `Topic`. Both regular
  expressions are written out as deterministic matchers, and `finditer` is a
  left-to-right scan.
- **Symbol extractor** (`SymbolExtractor`). `extract_symbol` is a two-state
  line loop: search for the definition line, then capture lines until a
  non-blank, non-comment line indented no deeper than the definition.
- **Tree builder** (`RepoTree`). `get_repo_structure` draws a directory tree
  with box-drawing connectors: directories first, names sorted, build and
  cache entries skipped, at most `max_depth` levels. The nested `_walk` is
  a method of a `TreeBuilder` object, which holds the shared `lines` list.
- **Imports** (`Imports`). The import-line filter of `get_imports` and its
  dotted module name.
- **CLI helpers** (`CliHelpers`):
  - `_sanitize_path_for_filename`;
  - `_find_project_config`;
  - `_find_entry_points`;
  - the changed-file loop of the diff commands;
  - the `FILE:SYMBOL` split of function targets.

`Text` holds the Python string operations the code uses, written over
`seq<char>`: `isspace`, `strip`, `split`, `join`, `replace`, `rsplit` and
string comparison. `Wrappers` holds `Option`.

File contents, directory listings, `os.path.isfile` and the clock are
parameters. `get_file_content` (`src/code_explainer/git_utils.py:51-57`)
returns `None` for a file that does not exist or is not valid UTF-8, and
the model's `None` content stands for exactly those two cases. A directory
is an `Entry` value whose `readable` flag is false when `iterdir` raises
`PermissionError`. The creation timestamp `added` is the string `now`.

Some behaviour of the code that is easy to misread:

- The topics section ends at the first newline followed by `#`, whatever
  the heading level; this is the lookahead `(?=\n#|\Z)` of the heading
  pattern.
- The `\s*\n` after `Explore` settles on the last newline of the
  whitespace that follows, so the section starts after that newline.
- The `\s*` after a bullet's separator may cross a newline. A bullet line
  whose separator ends its line takes the next line as its title, and a
  bullet on that next line then lies inside the first match and yields no
  topic of its own (`BulletYieldsTopic` states "lies inside a match", not
  "starts one").
- A comment line at or below the definition's indentation does not end an
  extracted definition; it is kept.
- The definition openers are exactly the seven prefixes of
  `src/code_explainer/git_utils.py:221-227`. For example, `class X :` is not
  one of them.

## Model

| member | source | states |
|---|---|---|
| Topics.Mark | src/code_explainer/topics.py:88 | the marked queue has the same length, entry `k` has the new status and every other field unchanged, and every other entry is untouched |
| Topics.AddAll | src/code_explainer/topics.py:66-76 | the old queue is a prefix of the result, which grows by at most the batch length |
| Topics.FreshIff | src/code_explainer/topics.py:67-72 | a batch topic is admitted exactly when its target is neither queued nor the target of an earlier batch topic |
| Topics.AddAllTargets | src/code_explainer/topics.py:67-72 | after `n` batch topics, the queue's targets are the old targets plus those `n` targets (the `existing_targets` set) |
| Topics.AddAllPrefix | src/code_explainer/topics.py:69-73 | after `n` batch topics, the queue is the old queue followed by the admitted (fresh) topics among them, in batch order |
| Topics.AdmitFresh | src/code_explainer/topics.py:70-73 | a fresh topic is appended to the queue |
| Topics.AdmitKnown | src/code_explainer/topics.py:70 | a topic whose target is already present is skipped |
| Topics.AddAllAdmits | src/code_explainer/topics.py:60-76 | `add_topics` appends exactly the fresh topics of the batch, in order; the new target set is the old one united with the batch's |
| Topics.AdmittedAtMost | src/code_explainer/topics.py:73 | at most one topic is admitted per batch topic |
| Topics.AdmittedShort | src/code_explainer/topics.py:70-73 | if one batch topic is not fresh, fewer topics than batch topics are admitted |
| Topics.BatchDuplicateDropped | src/code_explainer/topics.py:62 | a batch holding two topics with one target adds fewer topics than it has |
| Topics.AddAllKeepsDistinct | src/code_explainer/topics.py:62-73 | a queue whose targets are pairwise distinct keeps them distinct |
| Topics.AddAllKnown | src/code_explainer/topics.py:69-76 | a batch whose every target is already queued leaves the queue unchanged |
| Topics.PendingPositions | src/code_explainer/topics.py:97 | every listed position holds a pending entry, and the positions strictly increase |
| Topics.PendingComplete | src/code_explainer/topics.py:97 | every pending entry's position is listed |
| Topics.PendingSnoc | src/code_explainer/topics.py:97 | one more entry at the end adds its position exactly when it is pending |
| Topics.CountPending | src/code_explainer/topics.py:105-107 | the pending count is at most the queue length, and zero exactly when no entry is pending |
| Topics.CountIsPending | src/code_explainer/topics.py:105-107 | the pending count equals the number of pending positions |
| Topics.MarkRemovesPending | src/code_explainer/topics.py:100 | giving the `j`-th pending entry a non-pending status removes exactly position `j` from the pending list |
| Topics.MarkKeepsTargets | src/code_explainer/topics.py:88 | a status change keeps the target set, and keeps distinct targets distinct |
| Topics.PopResult | src/code_explainer/topics.py:85-91 | a pop keeps the queue length; it returns `None` and leaves the queue as it was exactly when nothing is pending, and otherwise returns an entry marked `done` |
| Topics.PopOne | src/code_explainer/topics.py:85-90 | a pop on a queue with a pending entry returns the first pending entry marked `done`; it drops that entry from the pending list and leaves the other pending entries as they were |
| Topics.PopManyRest | src/code_explainer/topics.py:79-91 | after `n` pops the pending list has lost exactly its first `n` positions; the remaining pending entries are unchanged |
| Topics.PopInOrder | src/code_explainer/topics.py:79-91 | `n` pops return the first `n` pending entries in stored order, each marked `done` |
| Topics.DrainQueue | src/code_explainer/topics.py:79-91 | popping as many times as there are pending entries returns them all in order; the queue then has none pending, and a further pop returns `None` and changes nothing |
| Topics.SkipLowersCount | src/code_explainer/topics.py:94-102 | skipping pending index `i` lowers the pending count by one and removes exactly that position |
| Topics.SkipFirstTwice | src/code_explainer/topics.py:97-100 | skipping pending index 0 twice skips the first two pending entries |
| Topics.TopicStore.constructor | src/code_explainer/topics.py:42-46 | a store over a queue file with the given contents, or with none |
| Topics.TopicStore.Load | src/code_explainer/topics.py:42-49 | the stored queue, or empty when no file exists |
| Topics.TopicStore.Save | src/code_explainer/topics.py:52-57 | the stored queue becomes `q` |
| Topics.TopicStore.AddTopics | src/code_explainer/topics.py:60-76 | returns how many topics `AddAll` appended (at most the batch size); saves the extended queue only when that is positive, else leaves the file untouched |
| Topics.TopicStore.PopNext | src/code_explainer/topics.py:79-91 | returns and stores what `PopResult` gives for the old queue; with nothing pending it returns `None` and writes nothing |
| Topics.TopicStore.SkipTopic | src/code_explainer/topics.py:94-102 | succeeds exactly when `0 <= index <` the number of pending entries; it then stores the queue with that pending entry `skipped`, and otherwise writes nothing |
| Topics.TopicStore.PendingCount | src/code_explainer/topics.py:105-107 | the number of pending entries of the stored queue (0 without a file) |
| Topics.PendingIndices | src/code_explainer/topics.py:97 | the loop computes the pending position list |
| TopicParser.Span | src/code_explainer/topics.py:121-125 | a run of a character class ends inside the text, at a character outside the class |
| TopicParser.SpanAll | src/code_explainer/topics.py:121-125 | every character of the run is in the class |
| TopicParser.AfterLastNewline | src/code_explainer/topics.py:138 | the section starts just past the last newline of the whitespace after `Explore`: no newline follows it in that whitespace; with no newline there the heading fails |
| TopicParser.AfterLastNewlineIs | src/code_explainer/topics.py:138 | a newline followed by no other newline up to the end of the whitespace is the one the section starts after |
| TopicParser.TopicWordStage | src/code_explainer/topics.py:138 | the first stage of a heading match is a non-empty run of `#`, whitespace and `Topic` in any case; it ends after an optional `s` |
| TopicParser.WordStage | src/code_explainer/topics.py:138 | each `\s+to` / `\s+Explore` stage is a non-empty whitespace run and then the word in any case |
| TopicParser.SectionStartStage | src/code_explainer/topics.py:138 | the `\s*\n` stage is whitespace ending in a newline with no newline after it in the rest of the run |
| TopicParser.HeaderAtShaped | src/code_explainer/topics.py:137-141 | every heading the matcher reports has the heading pattern's shape, with the section starting where it says |
| TopicParser.ShapedHeaderAt | src/code_explainer/topics.py:137-141 | every position where the text has the heading pattern's shape is one where the matcher succeeds, with the same section start |
| TopicParser.HeaderAtIff | src/code_explainer/topics.py:137-141 | the matcher reports section start `p` at `i` exactly when the heading pattern matches at `i` with its section at `p` |
| TopicParser.Search | src/code_explainer/topics.py:137-141 | `re.search` returns the first position from the start where the pattern matches, and `None` exactly when it matches nowhere |
| TopicParser.FindHeading | src/code_explainer/topics.py:137-141 | the position found is inside the text and the heading matches there |
| TopicParser.FindHeadingLeftmost | src/code_explainer/topics.py:137-141 | the matcher finds no heading at any position before the one returned |
| TopicParser.NoHeadingBefore | src/code_explainer/topics.py:137-141 | where the matcher finds no heading, no heading of the pattern's shape starts |
| TopicParser.NoHeadingNoSection | src/code_explainer/topics.py:137-143 | there is no section exactly when no position of the text has the heading pattern's shape |
| TopicParser.SectionAtLeftmost | src/code_explainer/topics.py:137-145 | the section is the text from the leftmost heading's section start to the first `\n#` after it, or to the end |
| TopicParser.SectionEnd | src/code_explainer/topics.py:138 | the lazy `(.*?)` stops at the first `\n#` at or after the start, or at the end of the text |
| TopicParser.TitleStart | src/code_explainer/topics.py:124-125 | `\s*(.+)` starts the title at the last non-newline position that backtracking allows; otherwise there is no match |
| TopicParser.MatchFromKind | src/code_explainer/topics.py:122-125 | a match from group 1 on keeps the start and the group-1 start, in order |
| TopicParser.MatchFromTarget | src/code_explainer/topics.py:123-125 | a match from group 2 on keeps the positions found before, in order |
| TopicParser.MatchTitle | src/code_explainer/topics.py:124-125 | the title lies after the separator and inside the text |
| TopicParser.MatchTitleShaped | src/code_explainer/topics.py:124-125 | there is a separator between the target and the title with only whitespace around it; the title has no newline and ends the line |
| TopicParser.MatchFromTargetShaped | src/code_explainer/topics.py:123-125 | group 2 is a non-empty run without backticks, closed by a backtick, followed by the title part |
| TopicParser.MatchFromKindShaped | src/code_explainer/topics.py:122-125 | group 1 is a run of word characters, closed by `]`, whitespace and a backtick, followed by the target and title parts |
| TopicParser.MatchLineShaped | src/code_explainer/topics.py:120-127 | a match at a line start has the full bullet shape: `-` or `*`, whitespace, `[`, then the parts above |
| TopicParser.TitleMatched | src/code_explainer/topics.py:124-125 | after a separator, whitespace and a character that is not a newline, the title part matches |
| TopicParser.TargetMatched | src/code_explainer/topics.py:123-125 | a backtick-free run closed by a backtick, whitespace, a separator and a title character is matched, with the target ending at that backtick |
| TopicParser.KindMatched | src/code_explainer/topics.py:122-125 | a word run closed by `]`, whitespace and a backtick, then the target and title parts, is matched with those group bounds |
| TopicParser.RunsMatched | src/code_explainer/topics.py:120-125 | a bullet written as runs of characters is matched at its start, with the same kind and target bounds |
| TopicParser.ShapedMatched | src/code_explainer/topics.py:120-127 | every position where the text has the bullet shape is one where the matcher succeeds, with the same kind and target |
| TopicParser.NextMatch | src/code_explainer/topics.py:126 | a match found at a position starts there, is non-empty and has its groups in order |
| TopicParser.ScanFound | src/code_explainer/topics.py:148 | each match a left-to-right scan reports is the pattern's match at its own start, at or after the scan start; consecutive matches do not overlap |
| TopicParser.ScanCovers | src/code_explainer/topics.py:148 | every position from the scan start where the pattern matches lies inside some reported match |
| TopicParser.ScanMisses | src/code_explainer/topics.py:148 | a position that no reported match covers is one where the pattern does not match |
| TopicParser.Matches | src/code_explainer/topics.py:148 | every match `finditer` reports has its groups in order |
| TopicParser.MatchesInOrder | src/code_explainer/topics.py:148 | the matches start at or after the scan start and do not overlap |
| TopicParser.MatchFoundAt | src/code_explainer/topics.py:148 | each reported match is what the pattern matches at that match's start |
| TopicParser.MatchShapedAt | src/code_explainer/topics.py:120-127 | every reported match has the full bullet shape |
| TopicParser.MatchesCover | src/code_explainer/topics.py:120-127 | every bullet-shaped line of the section lies inside a reported match; a match that starts where it does has its kind and target |
| TopicParser.NormalizeKind | src/code_explainer/topics.py:149-154 | the kind is the lower-cased token when that is a known kind, and `general` otherwise; it is always in `TOPIC_KINDS` |
| TopicParser.TopicsOf | src/code_explainer/topics.py:148-161 | one topic per match, in match order |
| TopicParser.ParseTopicsFromResponse | src/code_explainer/topics.py:130-163 | the result is the topics of the section's matches; with no heading it is empty |
| TopicParser.TopicsFromSection | src/code_explainer/topics.py:146-161 | the `finditer` loop builds one topic per match, in order |
| TopicParser.ParsedTopicAt | src/code_explainer/topics.py:149-161 | a parsed topic is pending, carries the given source and a known kind; its target is the verbatim, non-empty, backtick-free text between two backticks of its line |
| TopicParser.ParsedTopics | src/code_explainer/topics.py:130-163 | every parsed topic has the properties above, and their lines come in text order without overlap |
| TopicParser.ParseOfSection | src/code_explainer/topics.py:137-161 | with a section, the parsed topics are those of the section's bullet matches, in order |
| TopicParser.BulletYieldsTopic | src/code_explainer/topics.py:137-161 | every bullet line of the section lies inside the line of some parsed topic; a topic whose line starts where the bullet does has the bullet's target and normalised kind |
| SymbolExtractor.Openers | src/code_explainer/git_utils.py:221-227 | there are seven definition openers |
| SymbolExtractor.StartsWithAnyIff | src/code_explainer/git_utils.py:220-228 | the chained `startswith` tests hold exactly when some opener is a prefix |
| SymbolExtractor.FirstDef | src/code_explainer/git_utils.py:215-229 | the line found defines the symbol |
| SymbolExtractor.FirstDefFirst | src/code_explainer/git_utils.py:219-229 | no earlier line defines the symbol; when none is found, no line does |
| SymbolExtractor.FirstDefIs | src/code_explainer/git_utils.py:219-229 | a defining line with none before it is the one found |
| SymbolExtractor.CaptureEnd | src/code_explainer/git_utils.py:237-250 | the capture ends inside the file, at a line that is not kept, or at the end of the file |
| SymbolExtractor.CaptureEndKept | src/code_explainer/git_utils.py:239-250 | every line the capture passes is blank, deeper indented or a comment |
| SymbolExtractor.CaptureEndIs | src/code_explainer/git_utils.py:237-250 | the first line that is not kept is where the capture ends |
| SymbolExtractor.ExtractSymbol | src/code_explainer/git_utils.py:195-255 | the result is the captured lines joined with newlines; `None` when the file is unreadable or nothing was captured |
| SymbolExtractor.CaptureLines | src/code_explainer/git_utils.py:210-250 | the search-then-capture loop collects the run starting at the first definition line and ending before the first line that is not kept |
| SymbolExtractor.ExtractNoneIff | src/code_explainer/git_utils.py:252-253 | a readable file yields `None` exactly when no line defines the symbol |
| SymbolExtractor.CapturedRun | src/code_explainer/git_utils.py:215-250 | the captured lines are a consecutive run of the file: it starts at the first defining line, the lines after it are kept, and it stops at the end or before a line that is not kept |
| SymbolExtractor.ExtractedLines | src/code_explainer/git_utils.py:210-255 | the extracted text splits back into exactly that run of lines |
| SymbolExtractor.DefLineNotDecorator | src/code_explainer/git_utils.py:221-227 | a definition line never starts with `@` |
| SymbolExtractor.DecoratorsLeftOut | src/code_explainer/git_utils.py:231-234 | the first extracted line is the definition itself, never a decorator |
| RepoTree.ListedIff | src/code_explainer/git_utils.py:94-100 | the one-name-at-a-time test is membership |
| RepoTree.SuffixSpec | src/code_explainer/git_utils.py:100 | `Path.suffix` is the last `.` and what follows it, with no other `.`; it is empty exactly when the name has no `.`, ends with one, or has its only `.` in front |
| RepoTree.SkippedIff | src/code_explainer/git_utils.py:92-101 | an entry is skipped exactly when it is a hidden name in `skip_dirs`, a directory in `skip_dirs` or ending in `.egg-info`, or a file whose suffix is in `skip_suffixes` |
| RepoTree.KeyLessTransitive | src/code_explainer/git_utils.py:87 | the sort key order is transitive |
| RepoTree.Insert | src/code_explainer/git_utils.py:87 | insertion adds exactly one element |
| RepoTree.InsertSorted | src/code_explainer/git_utils.py:87 | insertion keeps a sequence sorted by key |
| RepoTree.Sort | src/code_explainer/git_utils.py:87 | sorting permutes the listing |
| RepoTree.SortSorted | src/code_explainer/git_utils.py:87 | sorted: directories first, then names ascending |
| RepoTree.Keep | src/code_explainer/git_utils.py:92-102 | the filter never lengthens the listing |
| RepoTree.KeepMembers | src/code_explainer/git_utils.py:92-102 | an entry survives exactly when it is in the listing and not rejected |
| RepoTree.KeepSorted | src/code_explainer/git_utils.py:92-102 | filtering keeps the sorted order |
| RepoTree.FilterEntries | src/code_explainer/git_utils.py:92-102 | the filter loop keeps, in order, the entries that none of the four skip tests rejects |
| RepoTree.Visible | src/code_explainer/git_utils.py:87-102 | every shown entry comes from the listing |
| RepoTree.VisibleOrdered | src/code_explainer/git_utils.py:87-102 | a level shows directories before other entries and names ascending within each group; an entry is shown exactly when it is listed and not skipped |
| RepoTree.LinesOf | src/code_explainer/git_utils.py:107 | one line `prefix + connector + name` per row |
| RepoTree.WalkRowsWithin | src/code_explainer/git_utils.py:82-111 | every drawn row is at a depth from `depth` to `max_depth` and is not skipped; its prefix extends the caller's by four characters per level |
| RepoTree.WalkRowsRooted | src/code_explainer/git_utils.py:82-111 | every drawn row is an own entry of the walked directory with the caller's prefix, or is deeper and has its parent drawn before it: a shown, non-skipped directory one level up, listing the row's entry, with the row indented by `"    "` under a last sibling and `"│   "` otherwise |
| RepoTree.LevelRowsRooted | src/code_explainer/git_utils.py:104-111 | the same for the rows of one level and everything below it |
| RepoTree.LevelTop | src/code_explainer/git_utils.py:104-107 | the rows of one level are its visible entries, each once and in order; only the last one is marked last |
| RepoTree.RepoLinesShape | src/code_explainer/git_utils.py:60-116 | the first line is the root name with `/`; then one line per drawn row, all within depth 1 to `max_depth` and not skipped |
| RepoTree.RepoTopLevel | src/code_explainer/git_utils.py:104-114 | the depth-1 rows are the root's visible entries in order, with `└── ` only on the last |
| RepoTree.TreeBuilder.constructor | src/code_explainer/git_utils.py:79 | the shared line list starts empty |
| RepoTree.TreeBuilder.Walk | src/code_explainer/git_utils.py:82-111 | `_walk` appends exactly the lines of its directory's rows to the shared list |
| RepoTree.GetRepoStructure | src/code_explainer/git_utils.py:60-116 | the tree text is the root line and the walked lines, joined with newlines |
| Imports.ImportLines | src/code_explainer/git_utils.py:158-167 | the recorded imports are the stripped import lines of the file, in order, or none for an unreadable file |
| Imports.ImportSpec | src/code_explainer/git_utils.py:163-167 | never more imports than lines, and each one starts with `import ` or `from ` |
| Imports.ImportSound | src/code_explainer/git_utils.py:163-167 | every recorded line starts with `import ` or `from ` and is a stripped line of the file |
| Imports.ImportComplete | src/code_explainer/git_utils.py:163-167 | every file line that starts an import once stripped is recorded |
| Imports.ImportMembers | src/code_explainer/git_utils.py:163-167 | a line is recorded exactly when it is a stripped file line that starts an import |
| Imports.ModuleNameSpec | src/code_explainer/git_utils.py:171 | the module name holds no `/` and is no longer than the relative path |
| Imports.ModuleNameOfFile | src/code_explainer/git_utils.py:171 | the module name of `seg1/.../segn/f.py` is `seg1. ... .segn.f` |
| Imports.ModuleNameOfPackage | src/code_explainer/git_utils.py:171 | the module name of `seg1/.../segn/__init__.py` is `seg1. ... .segn` |
| CliHelpers.SanitizePath | src/code_explainer/cli.py:35-41 | the file name has no `/` or `\`; it is the dashed path cut just before its last dot, or the whole dashed path when it has no dot |
| CliHelpers.SanitizeDropsExtension | src/code_explainer/cli.py:39-41 | only the text from the last dot on is removed, so earlier dots stay |
| CliHelpers.FirstReadable | src/code_explainer/cli.py:72-77 | returns the first readable config name with its text; `None` exactly when none is readable |
| CliHelpers.FindProjectConfig | src/code_explainer/cli.py:61-77 | the loop returns the first readable config file, in the fixed order |
| CliHelpers.Present | src/code_explainer/cli.py:94-96 | the present candidates are no more than the candidates |
| CliHelpers.PresentMembers | src/code_explainer/cli.py:94-96 | a candidate is listed exactly when it is a file |
| CliHelpers.FindEntryPoints | src/code_explainer/cli.py:80-111 | returns the present candidates, then the script entries of a config that mentions `[project.scripts]` |
| CliHelpers.ScanScripts | src/code_explainer/cli.py:99-109 | the `in_scripts` loop collects the script entries |
| CliHelpers.ScriptEntriesShape | src/code_explainer/cli.py:101-109 | every script entry is a stripped config line that holds `=` |
| CliHelpers.ScriptEntries | src/code_explainer/cli.py:99-109 | never more script entries than config lines |
| CliHelpers.ScriptEntriesWindow | src/code_explainer/cli.py:99-109 | the entries are exactly the stripped `=` lines after the first line mentioning `[project.scripts]` and before the first later line that starts with `[` (and does not mention the header), in order |
| CliHelpers.EntriesInMembers | src/code_explainer/cli.py:107-108 | a line's entry is taken from the window exactly when the line holds `=` and lies inside it |
| CliHelpers.EntryPointsSpec | src/code_explainer/cli.py:80-111 | the list starts with the present candidates, which are exactly the candidates that are files; without a config mentioning `[project.scripts]` nothing follows them; every later entry holds `=` |
| CliHelpers.ChangedFiles | src/code_explainer/cli.py:414-419 | the loop lists the paths of the `+++ b/` lines in order, skipping `/dev/null` |
| CliHelpers.ChangedSpec | src/code_explainer/cli.py:414-419 | never more paths than lines, and never `/dev/null` |
| CliHelpers.ChangedMembers | src/code_explainer/cli.py:734-739 | a path is listed exactly when some `+++ b/` line names it and it is not `/dev/null` |
| CliHelpers.SplitTarget | src/code_explainer/cli.py:220-224 | a target without `:` is rejected; otherwise it splits at the last `:`, the parts rejoin to the target, and the symbol holds no `:` |
| Text.LastIndexOf | src/code_explainer/cli.py:40 | `None` exactly when the character is absent; otherwise the position holds it and no later position does |
| Text.SplitParts | src/code_explainer/git_utils.py:210 | no piece of a split holds the separator |
| Text.JoinSplit | src/code_explainer/git_utils.py:210 | joining the pieces of a split gives the text back |
| Text.SplitJoin | src/code_explainer/git_utils.py:255 | splitting joined separator-free pieces gives the pieces back |
| Text.StripEmpty | src/code_explainer/git_utils.py:165 | `strip` leaves nothing exactly when the text is all whitespace |
| Text.LessTotal | src/code_explainer/git_utils.py:87 | two different names are ordered one way or the other |

## Left out

- Persistence errors. `load_queue` parses JSON and rebuilds `Topic(**item)`; a corrupt or ill-typed `topics.json` raises, and that is not modelled: the store holds well-formed topics or nothing. Failures to create the directory or write the file are left out too.
- `added` is the string `now` passed in; the clock and the ISO timestamp format are not modelled.
- Topics.TopicStore.Load: directories and paths are not modelled; a store stands for one output directory's `topics.json`.
- `kind` and `status` stay strings, as in the dataclass: a hand-edited file may hold any value.
- The correspondence between the matchers and Python's backtracking `re` engine is argued in the module comment, not proved.
- TopicParser.IsWordChar: `\w` is taken as ASCII letters, digits and `_`. Python's `\w` on `str` also matches non-ASCII letters and digits.
- TopicParser.MatchCI: `re.IGNORECASE` is modelled by ASCII lower-casing. Python also folds a few non-ASCII letters, such as U+017F and U+212A.
- The decorator loop of `extract_symbol` is dead code: `result_lines` is always empty when it runs (an assertion in `CaptureLines` checks this), so its body is not modelled. Decorators are never extracted (`DecoratorsLeftOut`).
- In `CaptureLines`, the `continue` structure of `extract_symbol`'s loop is written as an equivalent `if`/`else`. The `ExtractSymbol` method keeps the split, the empty test and the join.
- RepoTree.Sort: Python's stable `sorted` is modelled as an insertion sort. The proofs cover sortedness and permutation; stability is not proved. Names are unique within a directory, so it never matters.
- `iterdir` errors other than `PermissionError` (a directory removed during the walk, say) and symbolic-link loops are not modelled. `is_dir`/`is_file` are the entry's kind: `Other` is neither.
- Imports.ModuleName: `.replace(".py", "")` removes `.py` anywhere in the path, as the code does, not only at the end.
- ModuleNameSpec: states bounds only (no `/`, no longer than the path). The computed name is stated by ModuleNameOfFile and ModuleNameOfPackage.
- ModuleNameOfFile: proved for path components that hold no `.` and of which none after the first starts with `py` or `__init__`. On other paths `.replace` may cut inside a component (`a/pyx.py` gives `ax`), and no value is stated there.
- ModuleNameOfPackage: proved under the same conditions on the components as ModuleNameOfFile.
- ScriptEntries: its own contract is a length bound; the window it takes is stated by ScriptEntriesWindow.
- ChangedSpec: its own contract is a length bound and the `/dev/null` exclusion; which paths are listed is stated by ChangedMembers.
- BulletYieldsTopic: a bullet line is shown to lie inside some reported match, not to start one of its own. A bullet right after a line that ends with its separator does not start one.
- Read errors other than a missing file or undecodable text: `open` raising `PermissionError`, `IsADirectoryError` or another `OSError` propagates out of `get_file_content`, and so out of `extract_symbol`, `get_imports` and `_find_project_config`. The model has no exception path there: a file's content is a string or `None`.
- The `imported_by` half of `get_imports`, `find_related_tests`, `get_diff` and `get_commit_log` are not modelled: they walk the file system with `rglob` or run `git` subprocesses. `src/code_explainer/explainer.py`, the prompt builders, `skill.py` and the `click` commands are not part of this model either.
- The output-file writing of the CLI (`_save_output`) and the console messages are not modelled.
