# Alias runner core in Dafny

A model of the indexing core of `alias_runner.py`. This is a terminal browser
for zsh aliases. It reads a root configuration file, follows its `source` and
`.` includes breadth-first, and extracts every `alias name='body'` definition
with its note. Notes come from a `# note:` or `#:` comment above the
definition, from a trailing `# comment`, or from both. Definitions merge so
that the last one for each name wins. The result is listed sorted by
lower-cased name, with the user's stored notes laid over it, and the user
searches it by counting query tokens found in each alias.

The modules follow the program's structure:

- `Text` (text.dfy) holds the parts of Python's `str` that the code relies on:
  - `isspace` whitespace, `strip`, `split`, `splitlines`;
  - `lower` on ASCII letters, `startswith`, and substring search.
- `Ordering` (ordering.dfy) holds the stable sort that `sorted(key=...)`
  performs, over keys compared lexicographically.
- `FileSystem` (files.dfy) gives a finite map from paths to files and
  directories. The path primitives the code calls but does not define are
  oracles carried in `Env`: `expand_path`, `glob`, recursive directory listing
  and `parent`.
- `Patterns` (patterns.dfy) holds hand-written recognisers for the two regular
  expressions `ALIAS_RE` and `SOURCE_RE`. Each is proved sound and complete
  against a declarative description of the lines the expression accepts.
- `Parser` (parser.dfy) covers `parse_aliases_from_file`:
  - a specification as a fold over the classified lines;
  - a method with the source's loop, proved equal to that fold.
- `Collect` (collect.dfy) covers `collect_aliases`:
  - the breadth-first walk as a function;
  - the last-wins dict as a sequence in insertion order;
  - a method with the source's `while queue` loop, proved equal to that
    specification.
- `Search` (search.dfy) holds `tokens`, `match_score` and `filter_aliases`.
- `App` (app.dfy) holds `AppState` as a class with the fields `env`, `notes`,
  `aliases`, `query`, `filtered` and `cursor`, together with the cursor
  handlers of the arrow and page keys and the note editor's update of the
  notes map.
  - Its `Valid()` invariant has three parts. `aliases` is the collection with
    the stored notes laid over it. `filtered` is the filter of `aliases` by
    `query`. The cursor is on an entry, or is -1 or 0 when nothing is listed.

`match_score` counts every token of the lower-cased query's `split()`,
repeats included: a word given twice counts twice (`CountInAppend`).
`__init__` puts the cursor at 0 even when nothing is listed, while
`apply_filter` puts it at -1. The cursor invariant therefore allows both
values on an empty list.

## Model

| member | source | states |
|---|---|---|
| Text.Strip | python/alias_runner.py:75 | `strip()` yields a string with no whitespace at either end |
| Text.StripUnique | python/alias_runner.py:75 | stripping whitespace padding off a stripped string gives that string back |
| Text.StripIdempotent | python/alias_runner.py:110 | stripping twice is stripping once |
| Text.TrimHashes | python/alias_runner.py:101 | `lstrip("#")` removes exactly the leading run of `#` and leaves no `#` in front |
| Text.Split | python/alias_runner.py:148 | every word of `split()` is non-empty and holds no whitespace |
| Text.SplitJoinWords | python/alias_runner.py:148 | splitting words joined by spaces gives the same words back |
| Text.SplitEmptyIffBlank | python/alias_runner.py:148 | `split()` is empty exactly when the string is all whitespace |
| Text.SplitLines | python/alias_runner.py:68 | no line of `splitlines()` holds a line break |
| Text.SplitJoinLines | python/alias_runner.py:68 | splitting lines joined by newlines gives the same lines back |
| Text.ContainsIff | python/alias_runner.py:155 | `t in s` holds exactly when `t` occurs in `s` at some index |
| Text.BlankIsAllSpace | python/alias_runner.py:152 | `not s.strip()` holds exactly when `s` is all whitespace |
| Ordering.LexLtTotal | python/alias_runner.py:160 | the key order is total (irreflexivity, asymmetry and transitivity are proved beside it) |
| Ordering.LexLtTransitive | python/alias_runner.py:160 | the key order is transitive |
| Ordering.CodesInjective | python/alias_runner.py:143 | equal code-point keys mean equal strings |
| Ordering.SortBySorted | python/alias_runner.py:143 | `sorted(key=...)` yields a list ordered by the key |
| Ordering.SortByPermutes | python/alias_runner.py:143 | `sorted` is a permutation of its input |
| Ordering.SortByStable | python/alias_runner.py:143 | items with equal keys keep their input order |
| Ordering.SortBySortedIsIdentity | python/alias_runner.py:160 | sorting an already sorted list changes nothing |
| FileSystem.DirBaseOfJoin | python/alias_runner.py:85 | `dirname` and `basename` of `d + "/" + b` give `d` and `b` back |
| FileSystem.ZshSuffixIff | python/alias_runner.py:137 | a path's suffix is `.zsh` exactly when the name ends in `.zsh` after a non-empty stem |
| Patterns.MatchSourceSound | python/alias_runner.py:36 | every line the include recogniser accepts has the `SOURCE_RE` shape with the returned target |
| Patterns.MatchSourceComplete | python/alias_runner.py:36 | every line of the `SOURCE_RE` shape is accepted, with the same target after stripping |
| Patterns.QuotedSourceTarget | python/alias_runner.py:36 | a quoted target is returned without its quotes |
| Patterns.MatchTail | python/alias_runner.py:34 | the tail after the closing quote is accepted exactly when it is blank or `\s*#...`, with no comment exactly when it is blank |
| Patterns.MatchTailComment | python/alias_runner.py:34 | the trailing comment is the text after `#` with its leading whitespace removed |
| Patterns.CloseQuote | python/alias_runner.py:34 | the body ends at the first closing quote after which the rest of the line is acceptable (non-greedy `.*?`) |
| Patterns.MatchAliasSound | python/alias_runner.py:33-35 | every line the alias recogniser accepts has the `ALIAS_RE` shape with the returned name, shortest body and comment |
| Patterns.MatchAliasComplete | python/alias_runner.py:33-35 | every line of the `ALIAS_RE` shape is accepted with exactly that name, body and comment |
| Parser.IncludeLine | python/alias_runner.py:78-97 | an include line appends its resolved targets and changes neither the records nor the note buffer |
| Parser.IncludeTarget | python/alias_runner.py:78-80 | the include target is the unquoted path, stripped |
| Parser.ResolveInclude | python/alias_runner.py:81-96 | every resolved include exists |
| Parser.KeepFiles | python/alias_runner.py:85-91 | a glob match is kept exactly when it is a regular file, and nothing else is added |
| Parser.GlobIgnoresExpansion | python/alias_runner.py:83-91 | glob targets use the raw text, never the expanded path |
| Parser.PlainInclude | python/alias_runner.py:92-94 | a target without glob characters is kept, expanded, exactly when it exists |
| Parser.NoteCommentLine | python/alias_runner.py:100-104 | a note comment replaces the buffer with its note text and changes nothing else |
| Parser.NoteText | python/alias_runner.py:101-103 | the buffered note is stripped |
| Parser.DropNotePrefix | python/alias_runner.py:102 | the result is a suffix of the text, and a stripped text stays stripped |
| Parser.NotePrefixDropped | python/alias_runner.py:102 | a leading `note:` in any case and the whitespace after it are removed |
| Parser.NoPrefixKept | python/alias_runner.py:102 | text not starting with `note:` is kept as it is |
| Parser.HashColonNote | python/alias_runner.py:100-103 | `#: foo` is a note comment and buffers `: foo` |
| Parser.TrailingNote | python/alias_runner.py:110 | the trailing note is stripped |
| Parser.JoinNoteCases | python/alias_runner.py:110-113 | with both parts non-empty the note is the buffer, the separator and the trailing note; otherwise it is whichever part is non-empty, and it is empty only when both are |
| Parser.DefinitionLine | python/alias_runner.py:106-117 | an alias line appends one record with the line's name, body, joined note, file and line number, and clears the buffer |
| Parser.BufferSticky | python/alias_runner.py:99-113 | include lines and unmatched lines leave the note buffer as it was |
| Parser.RunLast | python/alias_runner.py:74-117 | a line adds a record exactly when it is a definition, with its 1-based line number, keeping the earlier records |
| Parser.RecordsFromDefinitions | python/alias_runner.py:106-117 | every record comes from a definition on its own line, with that line's name and body |
| Parser.DefinitionsYieldRecords | python/alias_runner.py:106-117 | every definition line yields a record |
| Parser.RecordsInLineOrder | python/alias_runner.py:74-117 | records come in strictly increasing line order |
| Parser.RunExtends | python/alias_runner.py:63-117 | records and includes are only ever appended |
| Parser.RunSourcesExist | python/alias_runner.py:78-97 | every collected include exists |
| Parser.ParseFileSourcesExist | python/alias_runner.py:62-119 | every include that parsing one file returns exists |
| Parser.ParseAliasesFromFile | python/alias_runner.py:62-119 | the loop returns the records and includes of the line-by-line specification, and nothing for a missing path or a directory |
| Collect.ShellScriptsMembers | python/alias_runner.py:135-138 | a directory contributes exactly the regular files beneath it whose suffix is `.zsh` or `.sh` |
| Collect.EnqueuedFiles | python/alias_runner.py:133-140 | only regular files are ever enqueued |
| Collect.EnqueueScripts | python/alias_runner.py:136-138 | the inner loop appends the directory's scripts in listing order |
| Collect.EnqueueIncludes | python/alias_runner.py:133-142 | the loop appends each include's files in the order the includes were written |
| Collect.MergeRecords | python/alias_runner.py:131-132 | assigning each record into the dict gives the merge of all records seen so far |
| Collect.CollectAliases | python/alias_runner.py:122-143 | the `while queue` loop returns the sorted last-wins merge of the records of the breadth-first trace |
| Collect.VisitFresh | python/alias_runner.py:125-129 | the walk visits no path twice and none already seen |
| Collect.VisitCovers | python/alias_runner.py:125-142 | every queued path and every include of a visited path is visited or was seen |
| Collect.TraceProperties | python/alias_runner.py:123-142 | the trace starts at the root, holds each path once, holds only files besides the root, and is closed under includes |
| Collect.Find | python/alias_runner.py:132 | a dict lookup finds the entry with that name, or there is none |
| Collect.FindAfterPut | python/alias_runner.py:132 | assigning one name leaves the lookup of every other name unchanged |
| Collect.FindPutSame | python/alias_runner.py:132 | after assigning a record its name looks up that record |
| Collect.MergeLookup | python/alias_runner.py:131-132 | a name is in the merge exactly when some record has it, and then maps to the last such record |
| Collect.MergeValues | python/alias_runner.py:131-132 | a record is in the merge exactly when it is the last record of its name |
| Collect.MergeNamesDistinct | python/alias_runner.py:124-132 | the merge holds each name once |
| Collect.MergeKeysFirstSeen | python/alias_runner.py:124-132 | the dict keeps its names in order of first insertion |
| Collect.CollectSorted | python/alias_runner.py:143 | the collection is sorted by lower-cased name |
| Collect.CollectMembers | python/alias_runner.py:122-143 | a record is collected exactly when it is the last record of its name in traversal order |
| Collect.CollectNamesUnique | python/alias_runner.py:143 | no name is collected twice |
| Collect.CollectStable | python/alias_runner.py:143 | names equal after lower-casing keep the dict's order |
| Search.TokensEmptyIffBlank | python/alias_runner.py:147-148 | a query has no tokens exactly when it is blank |
| Search.CountInBound | python/alias_runner.py:155 | the count is at most the number of tokens, positive exactly when some token occurs, full exactly when all occur |
| Search.CountInAppend | python/alias_runner.py:155 | counts add up over the tokens, so a repeated token counts again |
| Search.MatchScoreRange | python/alias_runner.py:151-155 | a blank query scores 1; otherwise the score lies in [0, number of tokens], positive exactly when a token is found, full exactly when all are |
| Search.MatchScoreIgnoresCase | python/alias_runner.py:147-155 | lower-casing the query does not change the score |
| Search.NameFindsItself | python/alias_runner.py:151-155 | an alias' own one-word name scores 1 against it |
| Search.FilterMembers | python/alias_runner.py:158-161 | an item is kept exactly when its score is positive or the query is blank |
| Search.FilterBlankKeepsAll | python/alias_runner.py:158-161 | a blank query keeps every item, each as often as it occurs |
| Search.FilterSorted | python/alias_runner.py:159-160 | the result is ordered by descending score, then lower-cased name |
| Search.FilterScoresDescend | python/alias_runner.py:159-161 | scores never increase along the result |
| Search.FilterStable | python/alias_runner.py:160 | items with equal score and lower-cased name keep their input order |
| Search.FilterIdempotent | python/alias_runner.py:158-161 | filtering the result again by the same query changes nothing |
| App.Overlay | python/alias_runner.py:223-225 | a record's note becomes the stored note exactly when its name has one; nothing else changes |
| App.OverlayIdempotent | python/alias_runner.py:237-239 | laying the same notes over twice gives the same list |
| App.OverlayKeepsOrder | python/alias_runner.py:223-225 | the overlay keeps the list sorted by lower-cased name with each name once |
| App.UpdateNotes | python/alias_runner.py:404-407 | a non-blank text is stored stripped, a blank one removes the name, and no other name changes |
| App.EditShowsNote | python/alias_runner.py:404-409 | after an edit the alias shows the saved note, or its parsed note again once the text was blank |
| App.ValidAliasesSorted | python/alias_runner.py:218-240 | in a valid state the list is sorted by lower-cased name with each name once |
| App.AppState.constructor | python/alias_runner.py:219-228 | the state starts valid, with the empty query and the cursor at 0 |
| App.AppState.OverlayNotes | python/alias_runner.py:223-225 | the loop lays the stored notes over the list in place and changes no other field |
| App.AppState.ApplyFilter | python/alias_runner.py:243-247 | the query is replaced, the list refiltered and the cursor set to 0, or -1 on an empty list; the state is valid |
| App.AppState.Reload | python/alias_runner.py:234-240 | everything is collected afresh, the loaded notes overlaid and the query applied again; the state is valid |
| App.AppState.Current | python/alias_runner.py:249-252 | there is a selection exactly when the cursor is in range, and it is the entry under the cursor; in a valid state there is one exactly when the list is not empty, and it is an alias that passes the query |
| App.AppState.Down | python/alias_runner.py:344-347 | the cursor moves one down unless on the last entry and stays in range |
| App.AppState.Up | python/alias_runner.py:349-352 | the cursor moves one up unless on the first entry and stays in range |
| App.AppState.PageUp | python/alias_runner.py:354-356 | the cursor moves ten up, stopping at 0, and stays in range |
| App.AppState.PageDown | python/alias_runner.py:358-360 | the cursor moves ten down, stopping at the last entry (0 on an empty list), and stays in range |
| App.AppState.EditNote | python/alias_runner.py:387-409 | with a selection and a confirmed text the notes map is updated for the selected name, everything reloaded and the cursor put on the first entry, or -1 on an empty list; otherwise nothing changes |

## Left out

- The terminal interface is not modelled: `build_app`, the list and detail rendering, `STYLE`, `HELP_FT`, the dialogs and the keys that only show text (`i`, `?`, `q`). The `/`, Esc and `r` keys reduce to `ApplyFilter` and `Reload`.
- `highlight_fragments` is not modelled. It is presentation only, and its alternation order comes from iterating a set.
- Running an alias is not modelled: `run_alias`, `ensure_zsh`, clearing the screen, `shlex`, `subprocess` and the `main` loop. This is process I/O.
- The status line (`status`, `set_status`) is not modelled. It is text for display only.
- `load_notes` and `save_notes` are not modelled. They are JSON file I/O. `Reload` receives the loaded notes as a parameter.
- App.AppState.EditNote: assumes that `load_notes` after `save_notes` returns the map that was saved. The JSON round trip and the atomic rename are file I/O.
- `expand_path`, `Path.glob` with `**/*`, and `Path.parent` are oracles in `Env`. Variable and `~` expansion and path resolution are not modelled.
- The `sorted(...)` around the glob matches (:85, :89) and around the directory walk (:136) is part of the `glob` and `tree` oracles. The order of matches is whatever those oracles return; the model does not sort them itself.
- Paths compare as plain strings. `pathlib` normalisation of repeated or trailing slashes is not modelled.
- A path names a regular file or a directory. Other kinds of file and broken links are not modelled.
- Text decoding with `errors="ignore"` is not modelled. A file's content is its decoded text.
- Parser.ParseAliasesFromFile: a read that raises is not modelled, because the file map holds only readable files. An `expand_path` that raises outside the `try` is not modelled either.
- Text.Lower: lower-cases ASCII letters only, not the Unicode case mapping of `str.lower()`. Whitespace follows `str.isspace()` exactly.
- In the source, `filtered` shares its dict objects with `aliases`. Nothing changes a record between the overlay and the next collection, so the model keeps records as values.
