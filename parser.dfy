/** The per-file parser of the alias indexer, `parse_aliases_from_file`
    (python/alias_runner.py:62-119).

    The parser reads one file line by line. Each line is first tried as
    an include (`source x` or `. x`), then as a standalone note comment,
    then as an alias definition; the first that applies decides what the
    line does. The only state carried from line to line is the pending
    note, `prev_note_buffer`. */
module Parser {
  import opened Text
  import opened Options
  import opened FileSystem
  import opened Patterns

  /** An alias record: `{"name", "body", "note", "file", "line"}`. */
  datatype Alias = Alias(name: string, body: string, note: string, file: Path, line: nat)

  /** What one line is, in the order the parser checks. */
  datatype LineKind =
    | Include(target: string)
    | NoteLine(text: string)
    | Definition(def: AliasMatch)
    | Other

  /** A stripped line is a note comment when it starts with '#' and
      either mentions `note:` in any letter case or starts with `#:`. */
  predicate IsNoteComment(stripped: string) {
    StartsWith(stripped, "#") && (Contains(Lower(stripped), "note:") || StartsWith(stripped, "#:"))
  }

  /** `re.sub(r"^note:\s*", "", t, flags=re.I)`: a leading `note:` in
      any letter case, with the whitespace after it, is removed. */
  function DropNotePrefix(t: string): (r: string)
    ensures IsStripped(t) ==> IsStripped(r)
    ensures |r| <= |t| && r == t[|t| - |r|..]
  {
    if |t| >= 5 && Lower(t[..5]) == "note:" then t[SkipSpace(t, 5)..] else t
  }

  /** The text a note comment leaves in the buffer: leading '#'s removed,
      whitespace stripped, then a leading `note:` removed. */
  function NoteText(stripped: string): (r: string)
    ensures IsStripped(r)
  {
    DropNotePrefix(Strip(TrimHashes(stripped)))
  }

  /** The first of the parser's three checks that a line passes. */
  function Classify(line: string): LineKind {
    match MatchSource(line)
    case Some(target) => Include(Strip(target))
    case None =>
      var stripped := Strip(line);
      if IsNoteComment(stripped) then NoteLine(NoteText(stripped))
      else
        match MatchAlias(line)
        case Some(m) => Definition(m)
        case None => Other
  }

  predicate IsGlobChar(c: char) {
    c == '*' || c == '?' || c == '['
  }

  /** `any(ch in src_raw for ch in ["*", "?", "["])` */
  predicate HasGlobChar(s: string) {
    exists i | 0 <= i < |s| :: IsGlobChar(s[i])
  }

  /** The paths of `ps` that are regular files, in order. */
  function KeepFiles(env: Env, ps: seq<Path>): (r: seq<Path>)
    ensures forall p | p in r :: IsFile(env, p)
    ensures forall p | p in ps && IsFile(env, p) :: p in r
    ensures forall p | p in r :: p in ps
    decreases |ps|
  {
    if ps == [] then []
    else (if IsFile(env, ps[0]) then [ps[0]] else []) + KeepFiles(env, ps[1..])
  }

  /** The files an include line adds to `sources`. A target with a glob
      character is globbed as written (an absolute one from its
      directory, a relative one from the including file's directory) and
      only regular files are kept; any other target is expanded and kept
      when it exists. */
  function ResolveInclude(env: Env, raw: string, base: Path): (r: seq<Path>)
    ensures forall p | p in r :: Exists(env, p)
  {
    if HasGlobChar(raw) then
      if IsAbs(raw) then KeepFiles(env, env.glob(DirName(raw), BaseName(raw)))
      else KeepFiles(env, env.glob(base, raw))
    else
      var expanded := env.expand(raw, base);
      if Exists(env, expanded) then [expanded] else []
  }

  /** A glob target is never expanded: how `expand_path` treats it makes
      no difference. */
  lemma GlobIgnoresExpansion(env: Env, expand: (string, Path) -> Path, raw: string, base: Path)
    requires HasGlobChar(raw)
    ensures ResolveInclude(env.(expand := expand), raw, base) == ResolveInclude(env, raw, base)
  {
    var env' := env.(expand := expand);
    assert forall p :: IsFile(env', p) == IsFile(env, p);
    KeepFilesSameFiles(env, env', env.glob(DirName(raw), BaseName(raw)));
    KeepFilesSameFiles(env, env', env.glob(base, raw));
  }

  lemma {:induction false} KeepFilesSameFiles(env: Env, env': Env, ps: seq<Path>)
    requires env'.fs == env.fs
    ensures KeepFiles(env', ps) == KeepFiles(env, ps)
    decreases |ps|
  {
    if ps != [] {
      KeepFilesSameFiles(env, env', ps[1..]);
    }
  }

  /** A plain target contributes its expansion exactly when that exists. */
  lemma PlainInclude(env: Env, raw: string, base: Path)
    requires !HasGlobChar(raw)
    ensures ResolveInclude(env, raw, base)
            == (if Exists(env, env.expand(raw, base)) then [env.expand(raw, base)] else [])
  {
  }

  /** The variables of the parser's loop. `prev_note_buffer` is "" when
      it is None: the parser stores `note_text or None` and tests it for
      truth, so an empty buffer and no buffer behave alike. */
  datatype ParseState = ParseState(aliases: seq<Alias>, sources: seq<Path>, buffer: string)

  /** The trailing note of a definition: group 4 of ALIAS_RE stripped,
      or "" when the group did not take part. */
  function TrailingNote(comment: Option<string>): (r: string)
    ensures IsStripped(r)
  {
    if comment.Some? then Strip(comment.value) else ""
  }

  /** The note of an alias record, from the pending buffer and the
      trailing note. */
  function JoinNote(buffer: string, trailing: string): string {
    if buffer != "" then buffer + (if trailing != "" then " | " + trailing else "") else trailing
  }

  /** What one line, numbered `lineno` and classified as `kind`, does to
      the parser's variables. */
  function Step(env: Env, file: Path, st: ParseState, lineno: nat, kind: LineKind): ParseState {
    match kind
    case Include(target) => st.(sources := st.sources + ResolveInclude(env, target, env.parent(file)))
    case NoteLine(text) => st.(buffer := text)
    case Definition(m) =>
      var a := Alias(m.name, m.body, JoinNote(st.buffer, TrailingNote(m.comment)), file, lineno);
      ParseState(st.aliases + [a], st.sources, "")
    case Other => st
  }

  /** The classification of every line. */
  function Kinds(lines: seq<string>): (kinds: seq<LineKind>)
    ensures |kinds| == |lines|
  {
    seq(|lines|, i requires 0 <= i < |lines| => Classify(lines[i]))
  }

  /** The parser's variables after lines of the given kinds, numbered
      from 1. */
  function Run(env: Env, file: Path, kinds: seq<LineKind>): ParseState
    decreases |kinds|
  {
    if kinds == [] then ParseState([], [], "")
    else Step(env, file, Run(env, file, kinds[..|kinds| - 1]), |kinds|, kinds[|kinds| - 1])
  }

  /** `parse_aliases_from_file(path)`: nothing for a path that is not a
      regular file, otherwise the records and include targets of its
      lines. */
  function ParseFile(env: Env, file: Path): (seq<Alias>, seq<Path>) {
    if !IsFile(env, file) then ([], [])
    else
      var st := Run(env, file, Kinds(SplitLines(env.fs[file].text)));
      (st.aliases, st.sources)
  }

  method ParseAliasesFromFile(env: Env, file: Path) returns (aliases: seq<Alias>, sources: seq<Path>)
    ensures (aliases, sources) == ParseFile(env, file)
  {
    aliases, sources := [], [];
    if !IsFile(env, file) {
      return;
    }
    var lines := SplitLines(env.fs[file].text);
    ghost var kinds := Kinds(lines);
    var base := env.parent(file);
    var buffer := "";
    for i := 0 to |lines|
      invariant Run(env, file, kinds[..i]) == ParseState(aliases, sources, buffer)
    {
      assert kinds[..i + 1][..i] == kinds[..i];
      match Classify(lines[i]) {
        case Include(target) =>
          sources := sources + ResolveInclude(env, target, base);
        case NoteLine(text) =>
          buffer := text;
        case Definition(m) =>
          aliases := aliases + [Alias(m.name, m.body, JoinNote(buffer, TrailingNote(m.comment)), file, i + 1)];
          buffer := "";
        case Other =>
      }
    }
    assert kinds[..|lines|] == kinds;
  }

  // ---------------------------------------------------------------------
  // Properties

  /** An include line never yields a record and leaves the pending note
      alone; it only adds the files its target resolves to. */
  lemma IncludeLine(env: Env, file: Path, st: ParseState, lineno: nat, line: string)
    requires MatchSource(line).Some?
    ensures var st' := Step(env, file, st, lineno, Classify(line));
            && st'.aliases == st.aliases && st'.buffer == st.buffer
            && st'.sources == st.sources + ResolveInclude(env, Strip(MatchSource(line).value), env.parent(file))
  {
  }

  /** The target of an include line is the text between the optional
      quotes, stripped. */
  lemma IncludeTarget(line: string, lead: string, keyword: string, gap: string,
                      quote: string, target: string, tail: string)
    requires SourceShape(line, lead, keyword, gap, quote, target, tail)
    ensures Classify(line) == Include(Strip(target))
  {
    MatchSourceComplete(line, lead, keyword, gap, quote, target, tail);
  }

  /** A note comment replaces the pending note and does nothing else. */
  lemma NoteCommentLine(env: Env, file: Path, st: ParseState, lineno: nat, line: string)
    requires MatchSource(line).None? && IsNoteComment(Strip(line))
    ensures var st' := Step(env, file, st, lineno, Classify(line));
            && st'.aliases == st.aliases && st'.sources == st.sources
            && st'.buffer == NoteText(Strip(line))
  {
  }

  /** `#: foo` is a note comment and leaves `: foo` in the buffer: only
      the '#'s go. */
  lemma HashColonNote()
    ensures IsNoteComment("#: foo") && NoteText("#: foo") == ": foo"
  {
    var s := "#: foo";
    assert StartsWith(s, "#:");
    assert s[1..] == ": foo";
    var t := ": foo";
    assert TrimHashes(s) == t;
    assert t[0] == ':' && t[|t| - 1] == 'o';
    StripUnique([], t, []);
    assert [] + t + [] == t;
    assert Lower(t[..5]) != "note:" by {
      assert Lower(t[..5])[0] == ':';
    }
  }

  /** A leading `note:` in any letter case goes, with the whitespace
      after it. */
  lemma NotePrefixDropped(p: string, w: string, x: string)
    requires |p| == 5 && Lower(p) == "note:" && AllSpace(w) && (x == [] || !IsSpace(x[0]))
    ensures DropNotePrefix(p + w + x) == x
  {
    var t := p + w + x;
    assert t[..5] == p;
    assert t[5..5 + |w|] == w;
    SkipSpaceAt(t, 5, 5 + |w|);
    assert t[5 + |w|..] == x;
  }

  /** A text that does not begin with `note:` in any letter case is kept. */
  lemma NoPrefixKept(t: string)
    requires |t| < 5 || Lower(t[..5]) != "note:"
    ensures DropNotePrefix(t) == t
  {
  }

  /** A definition line consumes the pending note: the new record carries
      it, and the buffer is empty afterwards. */
  lemma DefinitionLine(env: Env, file: Path, st: ParseState, lineno: nat, line: string)
    requires Classify(line).Definition?
    ensures var st' := Step(env, file, st, lineno, Classify(line)); var m := Classify(line).def;
            && st'.buffer == "" && st'.sources == st.sources
            && st'.aliases == st.aliases + [Alias(m.name, m.body, JoinNote(st.buffer, TrailingNote(m.comment)), file, lineno)]
  {
  }

  /** The note of a record: the buffer and the stripped trailing comment,
      joined by " | " when both are there. */
  lemma JoinNoteCases(buffer: string, trailing: string)
    ensures var note := JoinNote(buffer, trailing);
            && (buffer != "" && trailing != "" ==> note == buffer + " | " + trailing)
            && (buffer != "" && trailing == "" ==> note == buffer)
            && (buffer == "" ==> note == trailing)
            && (note == "" <==> buffer == "" && trailing == "")
  {
  }

  /** Lines that are neither note comments nor definitions leave the
      pending note as it was: it survives until a definition consumes it
      or another note comment replaces it. */
  lemma {:induction false} BufferSticky(env: Env, file: Path, kinds: seq<LineKind>, a: nat)
    requires a <= |kinds|
    requires forall k | a <= k < |kinds| :: kinds[k].Include? || kinds[k].Other?
    ensures Run(env, file, kinds).buffer == Run(env, file, kinds[..a]).buffer
    decreases |kinds|
  {
    if |kinds| > a {
      var init := kinds[..|kinds| - 1];
      assert init[..a] == kinds[..a];
      assert forall k | a <= k < |init| :: init[k] == kinds[k];
      BufferSticky(env, file, init, a);
    } else {
      assert kinds[..a] == kinds;
    }
  }

  /** The last line adds a record exactly when it is a definition, and
      that record carries the line's number. */
  lemma RunLast(env: Env, file: Path, kinds: seq<LineKind>)
    requires kinds != []
    ensures var r0 := Run(env, file, kinds[..|kinds| - 1]).aliases; var r := Run(env, file, kinds).aliases;
            var last := kinds[|kinds| - 1];
            && |r| == |r0| + (if last.Definition? then 1 else 0) && r[..|r0|] == r0
            && (last.Definition? ==> r[|r0|].line == |kinds| && r[|r0|].file == file
                                     && r[|r0|].name == last.def.name && r[|r0|].body == last.def.body)
  {
  }

  /** Each record comes from a definition line, numbered from 1. */
  lemma {:induction false} RecordsFromDefinitions(env: Env, file: Path, kinds: seq<LineKind>)
    ensures var r := Run(env, file, kinds).aliases;
            forall k | 0 <= k < |r| ::
              && 1 <= r[k].line <= |kinds| && r[k].file == file
              && kinds[r[k].line - 1].Definition?
              && kinds[r[k].line - 1].def.name == r[k].name
              && kinds[r[k].line - 1].def.body == r[k].body
    decreases |kinds|
  {
    if kinds != [] {
      var init := kinds[..|kinds| - 1];
      RecordsFromDefinitions(env, file, init);
      RunLast(env, file, kinds);
      var r0 := Run(env, file, init).aliases;
      var r := Run(env, file, kinds).aliases;
      forall k | 0 <= k < |r0| ensures r[k] == r0[k] && init[r0[k].line - 1] == kinds[r0[k].line - 1] {
        assert r[..|r0|][k] == r[k];
      }
    }
  }

  /** Records follow the order of their lines. */
  lemma {:induction false} RecordsInLineOrder(env: Env, file: Path, kinds: seq<LineKind>)
    ensures var r := Run(env, file, kinds).aliases;
            forall j, k | 0 <= j < k < |r| :: r[j].line < r[k].line
    decreases |kinds|
  {
    if kinds != [] {
      var init := kinds[..|kinds| - 1];
      RecordsInLineOrder(env, file, init);
      RecordsFromDefinitions(env, file, init);
      RunLast(env, file, kinds);
      var r0 := Run(env, file, init).aliases;
      var r := Run(env, file, kinds).aliases;
      forall k | 0 <= k < |r0| ensures r[k] == r0[k] {
        assert r[..|r0|][k] == r[k];
      }
    }
  }

  /** Every definition line yields a record. */
  lemma {:induction false} DefinitionsYieldRecords(env: Env, file: Path, kinds: seq<LineKind>)
    ensures var r := Run(env, file, kinds).aliases;
            forall n | 0 <= n < |kinds| && kinds[n].Definition? :: exists k :: 0 <= k < |r| && r[k].line == n + 1
    decreases |kinds|
  {
    if kinds != [] {
      var init := kinds[..|kinds| - 1];
      DefinitionsYieldRecords(env, file, init);
      RunLast(env, file, kinds);
      var r0 := Run(env, file, init).aliases;
      var r := Run(env, file, kinds).aliases;
      forall n | 0 <= n < |kinds| && kinds[n].Definition?
        ensures exists k :: 0 <= k < |r| && r[k].line == n + 1
      {
        if n == |kinds| - 1 {
          assert r[|r0|].line == n + 1;
        } else {
          assert init[n] == kinds[n];
          var k :| 0 <= k < |r0| && r0[k].line == n + 1;
          assert r[..|r0|][k] == r[k];
        }
      }
    }
  }

  /** What the parser has collected after some lines is kept by every
      later line: records and include targets are only ever appended. */
  lemma {:induction false} RunExtends(env: Env, file: Path, kinds: seq<LineKind>, a: nat)
    requires a <= |kinds|
    ensures var early := Run(env, file, kinds[..a]); var late := Run(env, file, kinds);
            && |early.aliases| <= |late.aliases| && late.aliases[..|early.aliases|] == early.aliases
            && |early.sources| <= |late.sources| && late.sources[..|early.sources|] == early.sources
    decreases |kinds|
  {
    if |kinds| > a {
      var init := kinds[..|kinds| - 1];
      assert init[..a] == kinds[..a];
      RunExtends(env, file, init, a);
    } else {
      assert kinds[..a] == kinds;
    }
  }

  /** Every include target the parser reports exists. */
  lemma {:induction false} RunSourcesExist(env: Env, file: Path, kinds: seq<LineKind>)
    ensures forall p | p in Run(env, file, kinds).sources :: Exists(env, p)
    decreases |kinds|
  {
    if kinds != [] {
      RunSourcesExist(env, file, kinds[..|kinds| - 1]);
    }
  }

  lemma ParseFileSourcesExist(env: Env, file: Path)
    ensures forall p | p in ParseFile(env, file).1 :: Exists(env, p)
  {
    if IsFile(env, file) {
      RunSourcesExist(env, file, Kinds(SplitLines(env.fs[file].text)));
    }
  }
}
