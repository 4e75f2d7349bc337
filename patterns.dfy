/** Hand-written recognisers for the two line patterns of the indexer
    (python/alias_runner.py:33-36), each proved equivalent to a
    declarative description of the lines the pattern accepts.

      SOURCE_RE  ^\s*(?:source|\.)\s+(['"]?)([^'"]+)\1\s*$
      ALIAS_RE   ^\s*alias\s+([A-Za-z0-9_+.\-]+)\s*=\s*(['"])(.*?)\2(?:\s*#\s*(.*))?\s*$

    The recognisers follow the order in which Python's backtracking
    matcher tries the alternatives, so they return the groups the
    matcher returns. Lines come from `splitlines()`, so they hold no
    '\n' and `$` can only match at the end of the line. */
module Patterns {
  import opened Text
  import opened Options

  predicate IsQuote(c: char) {
    c == '\'' || c == '"'
  }

  predicate NoQuote(s: string) {
    forall i | 0 <= i < |s| :: !IsQuote(s[i])
  }

  /** The class `[A-Za-z0-9_+.\-]` of alias names. */
  predicate IsNameChar(c: char) {
    ('A' <= c <= 'Z') || ('a' <= c <= 'z') || ('0' <= c <= '9')
    || c == '_' || c == '+' || c == '.' || c == '-'
  }

  predicate AllNameChars(s: string) {
    forall i | 0 <= i < |s| :: IsNameChar(s[i])
  }

  /** The first index at or after `i` that is not a name character, or |s|. */
  function SkipName(s: string, i: nat): (j: nat)
    requires i <= |s|
    ensures i <= j <= |s|
    ensures AllNameChars(s[i..j]) && (j == |s| || !IsNameChar(s[j]))
    decreases |s| - i
  {
    if i == |s| || !IsNameChar(s[i]) then i else SkipName(s, i + 1)
  }

  lemma SkipNameAt(s: string, i: nat, j: nat)
    requires i <= j <= |s|
    requires AllNameChars(s[i..j]) && (j == |s| || !IsNameChar(s[j]))
    ensures SkipName(s, i) == j
  {
    var r := SkipName(s, i);
    assert forall x | i <= x < j :: s[x] == s[i..j][x - i];
    assert forall x | i <= x < r :: s[x] == s[i..r][x - i];
  }

  /** The first index at or after `i` holding a quote character, or |s|. */
  function NextQuote(s: string, i: nat): (j: nat)
    requires i <= |s|
    ensures i <= j <= |s|
    ensures NoQuote(s[i..j]) && (j == |s| || IsQuote(s[j]))
    decreases |s| - i
  {
    if i == |s| || IsQuote(s[i]) then i else NextQuote(s, i + 1)
  }

  lemma NextQuoteAt(s: string, i: nat, j: nat)
    requires i <= j <= |s|
    requires NoQuote(s[i..j]) && (j == |s| || IsQuote(s[j]))
    ensures NextQuote(s, i) == j
  {
    var r := NextQuote(s, i);
    assert forall x | i <= x < j :: s[x] == s[i..j][x - i];
    assert forall x | i <= x < r :: s[x] == s[i..r][x - i];
  }

  // ---------------------------------------------------------------------
  // SOURCE_RE

  /** Where the keyword of a SOURCE_RE line ends: `^\s*(?:source|\.)`.
      The keyword must follow the leading whitespace immediately, since
      it does not begin with whitespace. */
  function SourceKeywordEnd(line: string): (k: Option<nat>)
    ensures k.Some? ==> k.value <= |line|
  {
    var i := SkipSpace(line, 0);
    if StartsWith(line[i..], "source") then Some(i + 6)
    else if StartsWith(line[i..], ".") then Some(i + 1)
    else None
  }

  /** `(['"]?)([^'"]+)\1\s*$` after a quote that group 1 took: the target
      runs to the next quote, which must be the same character and be
      followed by whitespace only. */
  function QuotedTarget(s: string): Option<string>
    requires s != [] && IsQuote(s[0])
  {
    var e := NextQuote(s, 1);
    if 1 < e < |s| && s[e] == s[0] && AllSpace(s[e + 1..]) then Some(s[1..e]) else None
  }

  /** `\s+(['"]?)([^'"]+)\1\s*$` on what follows the keyword. `\s+` first
      takes all the whitespace; if a quote follows, group 1 takes it,
      otherwise the rest of the line (holding no quote) is group 2. A
      rest made of whitespace only matches by giving its last character
      back to group 2, which needs at least two of them. */
  function SourceTarget(rest: string): Option<string>
  {
    var j := SkipSpace(rest, 0);
    if j == 0 then None
    else if j == |rest| then (if j >= 2 then Some(rest[j - 1..]) else None)
    else if IsQuote(rest[j]) then QuotedTarget(rest[j..])
    else if NoQuote(rest[j..]) then Some(rest[j..])
    else None
  }

  /** Group 2 of SOURCE_RE when `line` matches it. */
  function MatchSource(line: string): Option<string>
  {
    match SourceKeywordEnd(line)
    case None => None
    case Some(k) => SourceTarget(line[k..])
  }

  /** The lines SOURCE_RE describes: leading whitespace, the keyword
      `source` or `.`, at least one whitespace character, a target of
      non-quote characters wrapped in the same optional quote on both
      sides, and trailing whitespace. */
  ghost predicate SourceShape(line: string, lead: string, keyword: string, gap: string,
                              quote: string, target: string, tail: string)
  {
    && line == lead + (keyword + (gap + (quote + (target + (quote + tail)))))
    && AllSpace(lead)
    && (keyword == "source" || keyword == ".")
    && |gap| >= 1 && AllSpace(gap)
    && (quote == "" || quote == "'" || quote == "\"")
    && |target| >= 1 && NoQuote(target)
    && AllSpace(tail)
  }

  /** Whitespace holds no quote. */
  lemma SpaceHasNoQuote(s: string)
    requires AllSpace(s)
    ensures NoQuote(s)
  {
  }

  lemma SourceKeywordSound(line: string) returns (lead: string, keyword: string)
    requires SourceKeywordEnd(line).Some?
    ensures line == lead + (keyword + line[SourceKeywordEnd(line).value..])
    ensures AllSpace(lead) && (keyword == "source" || keyword == ".")
  {
    var i := SkipSpace(line, 0);
    var k := SourceKeywordEnd(line).value;
    lead, keyword := line[..i], line[i..k];
    assert keyword == line[i..][..k - i];
    assert lead == line[0..i];
    SuffixCut(line, i, k);
    assert line == lead + line[i..];
  }

  lemma SourceKeywordComplete(lead: string, keyword: string, rest: string)
    requires AllSpace(lead) && (keyword == "source" || keyword == ".")
    ensures SourceKeywordEnd(lead + (keyword + rest)) == Some(|lead| + |keyword|)
  {
    var line := lead + (keyword + rest);
    var i := |lead|;
    assert line[0..i] == lead;
    assert line[i..] == keyword + rest;
    assert line[i] == keyword[0];
    SkipSpaceAt(line, 0, i);
    if keyword == "source" {
      assert line[i..][..6] == "source";
    }
  }

  lemma QuotedTargetSound(s: string) returns (tail: string)
    requires s != [] && IsQuote(s[0]) && QuotedTarget(s).Some?
    ensures var t := QuotedTarget(s).value;
            s == [s[0]] + (t + ([s[0]] + tail)) && |t| >= 1 && NoQuote(t) && AllSpace(tail)
  {
    var e := NextQuote(s, 1);
    tail := s[e + 1..];
    SuffixCut(s, e, e + 1);
    assert s[e..e + 1] == [s[0]];
    SuffixCut(s, 1, e);
    SuffixCut(s, 0, 1);
    assert s[0..1] == [s[0]] && s[0..] == s;
  }

  lemma QuotedTargetComplete(q: char, t: string, tail: string)
    requires IsQuote(q) && |t| >= 1 && NoQuote(t) && AllSpace(tail)
    ensures QuotedTarget([q] + (t + ([q] + tail))) == Some(t)
  {
    var s := [q] + (t + ([q] + tail));
    var e := 1 + |t|;
    assert s[1..e] == t;
    assert s[e] == q;
    assert s[e + 1..] == tail;
    NextQuoteAt(s, 1, e);
  }

  lemma SourceTargetSound(rest: string) returns (gap: string, quote: string, tail: string)
    requires SourceTarget(rest).Some?
    ensures var t := SourceTarget(rest).value;
            && rest == gap + (quote + (t + (quote + tail)))
            && |gap| >= 1 && AllSpace(gap)
            && (quote == "" || quote == "'" || quote == "\"")
            && |t| >= 1 && NoQuote(t) && AllSpace(tail)
  {
    var j := SkipSpace(rest, 0);
    var t := SourceTarget(rest).value;
    assert rest[0..j] == rest[..j];
    if j == |rest| {
      gap, quote, tail := rest[..j - 1], "", "";
      assert AllSpace(gap) && AllSpace(t) by {
        assert forall x | 0 <= x < |gap| :: gap[x] == rest[..j][x];
        assert t == [rest[j - 1]] && rest[j - 1] == rest[..j][j - 1];
      }
      SpaceHasNoQuote(t);
      assert rest == gap + t;
    } else if IsQuote(rest[j]) {
      gap, quote := rest[..j], [rest[j]];
      tail := QuotedTargetSound(rest[j..]);
      assert rest == gap + rest[j..];
    } else {
      gap, quote, tail := rest[..j], "", "";
      assert rest == gap + rest[j..];
    }
  }

  /** An unquoted target loses to the gap only the whitespace it starts
      with; what is left strips to the same text. */
  lemma SourceTargetComplete(gap: string, quote: string, target: string, tail: string)
    requires |gap| >= 1 && AllSpace(gap)
    requires quote == "" || quote == "'" || quote == "\""
    requires |target| >= 1 && NoQuote(target) && AllSpace(tail)
    ensures var r := SourceTarget(gap + (quote + (target + (quote + tail))));
            r.Some? && Strip(r.value) == Strip(target)
  {
    if quote != "" {
      assert quote == [quote[0]];
      QuotedSourceTarget(gap, quote[0], target, tail);
    } else {
      assert gap + (quote + (target + (quote + tail))) == gap + (target + tail);
      UnquotedTarget(gap, target, tail);
    }
  }

  lemma QuotedSourceTarget(gap: string, q: char, target: string, tail: string)
    requires |gap| >= 1 && AllSpace(gap) && IsQuote(q)
    requires |target| >= 1 && NoQuote(target) && AllSpace(tail)
    ensures SourceTarget(gap + ([q] + (target + ([q] + tail)))) == Some(target)
  {
    var rest := gap + ([q] + (target + ([q] + tail)));
    var g := |gap|;
    assert rest[0..g] == gap;
    assert rest[g..] == [q] + (target + ([q] + tail));
    assert rest[g] == q;
    SkipSpaceAt(rest, 0, g);
    QuotedTargetComplete(q, target, tail);
  }

  lemma UnquotedTarget(gap: string, target: string, tail: string)
    requires |gap| >= 1 && AllSpace(gap) && |target| >= 1 && NoQuote(target) && AllSpace(tail)
    ensures var r := SourceTarget(gap + (target + tail));
            r.Some? && Strip(r.value) == Strip(target)
  {
    var rest := gap + (target + tail);
    assert rest == gap + target + tail;
    SpaceHasNoQuote(gap);
    SpaceHasNoQuote(tail);
    NoQuoteJoin(target, tail);
    NoQuoteJoin(gap, target + tail);
    StripPadded(gap, target, tail);
    assert rest[0] == gap[0];
    UnquotedAt(rest);
  }

  lemma NoQuoteJoin(a: string, b: string)
    requires NoQuote(a) && NoQuote(b)
    ensures NoQuote(a + b)
  {
    assert forall x | 0 <= x < |a + b| :: (a + b)[x] == if x < |a| then a[x] else b[x - |a|];
  }

  /** A quote-free rest after at least one whitespace character: the
      target is what follows the whitespace (or, when there is nothing
      else, the last whitespace character), and strips like the rest. */
  lemma UnquotedAt(rest: string)
    requires |rest| >= 2 && IsSpace(rest[0]) && NoQuote(rest)
    ensures SourceTarget(rest).Some? && Strip(SourceTarget(rest).value) == Strip(rest)
  {
    var j := SkipSpace(rest, 0);
    assert rest[0] == rest[0..j][0];
    if j == |rest| {
      assert rest == rest[0..j];
      assert rest[j - 1..] == [rest[j - 1]];
      BlankIsAllSpace(rest);
      BlankIsAllSpace(rest[j - 1..]);
    } else {
      assert NoQuote(rest[j..]) by {
        assert forall x | 0 <= x < |rest[j..]| :: rest[j..][x] == rest[j + x];
      }
      assert rest == rest[..j] + rest[j..] + [];
      assert AllSpace(rest[..j]) by {
        assert rest[..j] == rest[0..j];
      }
      StripPadded(rest[..j], rest[j..], []);
    }
  }

  /** What MatchSource returns is group 2 of a genuine SOURCE_RE match. */
  lemma MatchSourceSound(line: string)
    requires MatchSource(line).Some?
    ensures exists lead, keyword, gap, quote, tail ::
              SourceShape(line, lead, keyword, gap, quote, MatchSource(line).value, tail)
  {
    var lead, keyword := SourceKeywordSound(line);
    var gap, quote, tail := SourceTargetSound(line[SourceKeywordEnd(line).value..]);
    assert SourceShape(line, lead, keyword, gap, quote, MatchSource(line).value, tail);
  }

  /** Every line of that shape is recognised, and its target is the one
      the line's author wrote, up to the `strip()` the caller applies. */
  lemma MatchSourceComplete(line: string, lead: string, keyword: string, gap: string,
                            quote: string, target: string, tail: string)
    requires SourceShape(line, lead, keyword, gap, quote, target, tail)
    ensures MatchSource(line).Some? && Strip(MatchSource(line).value) == Strip(target)
  {
    var rest := gap + (quote + (target + (quote + tail)));
    SourceKeywordComplete(lead, keyword, rest);
    assert line[|lead| + |keyword|..] == rest;
    SourceTargetComplete(gap, quote, target, tail);
  }

  // ---------------------------------------------------------------------
  // ALIAS_RE

  /** The groups of an ALIAS_RE match: the name, the body between the
      quotes, and group 4, the text after `#` when that optional group
      took part in the match. */
  datatype AliasMatch = AliasMatch(name: string, body: string, comment: Option<string>)

  /** `rest` holds a comment marker at `p` with only whitespace before it. */
  ghost predicate CommentAt(rest: string, p: int) {
    0 <= p < |rest| && rest[p] == '#' && AllSpace(rest[..p])
  }

  /** What may follow the body's closing quote: whitespace alone, or a
      comment after whitespace. */
  ghost predicate TailAccepts(rest: string) {
    AllSpace(rest) || exists p :: CommentAt(rest, p)
  }

  /** The first non-whitespace character decides what kind of tail `rest` is. */
  lemma FirstNonSpace(rest: string)
    ensures var p := SkipSpace(rest, 0);
            && (AllSpace(rest) <==> p == |rest|)
            && (forall p' | CommentAt(rest, p') :: p' == p)
            && (p < |rest| && rest[p] == '#' ==> CommentAt(rest, p))
  {
    var p := SkipSpace(rest, 0);
    assert rest[..p] == rest[0..p];
    if p == |rest| {
      assert rest == rest[0..p];
    }
    forall p' | CommentAt(rest, p') ensures p' == p {
      SkipSpaceAt(rest, 0, p');
    }
    if AllSpace(rest) {
      SkipSpaceAt(rest, 0, |rest|);
    }
  }

  /** `(?:\s*#\s*(.*))?\s*$` on what follows a closing quote: None when it
      fails, Some(None) when the optional group is skipped, and
      Some(Some(g)) with group 4 otherwise (the group is tried first). */
  function MatchTail(rest: string): (r: Option<Option<string>>)
    ensures r.Some? <==> TailAccepts(rest)
    ensures r == Some(None) <==> AllSpace(rest)
  {
    FirstNonSpace(rest);
    var p := SkipSpace(rest, 0);
    if p < |rest| && rest[p] == '#' then Some(Some(rest[SkipSpace(rest, p + 1)..]))
    else if p == |rest| then Some(None)
    else None
  }

  /** Group 4 is what follows the comment marker, without its leading
      whitespace. */
  lemma MatchTailComment(rest: string, p: int)
    requires CommentAt(rest, p)
    ensures MatchTail(rest) == Some(Some(StripLeft(rest[p + 1..])))
  {
    FirstNonSpace(rest);
    SkipSpaceFrom(rest, p + 1);
  }

  /** The quote `q` at position `k` of `s` can close the body: the rest of
      the line after it is accepted. */
  predicate Closes(s: string, q: char, k: nat) {
    k < |s| && s[k] == q && MatchTail(s[k + 1..]).Some?
  }

  /** Where the lazy `(.*?)` stops: the first position from `from` on at
      which the opening quote closes the body. */
  function CloseQuote(s: string, q: char, from: nat): (e: Option<nat>)
    requires from <= |s|
    ensures e.Some? ==> from <= e.value && Closes(s, q, e.value)
    ensures forall k {:trigger Closes(s, q, k)} | from <= k < (if e.Some? then e.value else |s|) :: !Closes(s, q, k)
    decreases |s| - from
  {
    if from == |s| then None
    else if Closes(s, q, from) then Some(from)
    else CloseQuote(s, q, from + 1)
  }

  lemma CloseQuoteAt(s: string, q: char, from: nat, e: nat)
    requires from <= e && Closes(s, q, e)
    requires forall k | from <= k < e :: !Closes(s, q, k)
    ensures CloseQuote(s, q, from) == Some(e)
  {
  }

  /** `(['"])(.*?)\2(?:\s*#\s*(.*))?\s*$` from the opening quote on: the
      body and group 4. */
  function QuotedBody(s: string): Option<(string, Option<string>)>
    requires s != [] && IsQuote(s[0])
  {
    match CloseQuote(s, s[0], 1)
    case None => None
    case Some(e) => Some((s[1..e], MatchTail(s[e + 1..]).value))
  }

  /** `\s*=\s*` then the quoted body. */
  function AliasValue(s: string): Option<(string, Option<string>)>
  {
    var m := SkipSpace(s, 0);
    if m == |s| || s[m] != '=' then None
    else
      var o := SkipSpace(s, m + 1);
      if o == |s| || !IsQuote(s[o]) then None
      else QuotedBody(s[o..])
  }

  /** `\s+([A-Za-z0-9_+.\-]+)` then the value, on what follows `alias`. */
  function AliasDefinition(s: string): Option<AliasMatch>
  {
    var n0 := SkipSpace(s, 0);
    var n1 := SkipName(s, n0);
    if n0 == 0 || n1 == n0 then None
    else
      match AliasValue(s[n1..])
      case None => None
      case Some((body, comment)) => Some(AliasMatch(s[n0..n1], body, comment))
  }

  /** The groups of ALIAS_RE when `line` matches it. Every part before the
      body is a maximal run, and giving any of it back leaves a character
      that the next part cannot start with, so backtracking never revisits
      it; the body is the shortest one the rest of the line accepts. */
  function MatchAlias(line: string): Option<AliasMatch>
  {
    var i := SkipSpace(line, 0);
    if StartsWith(line[i..], "alias") then AliasDefinition(line[i + 5..]) else None
  }

  /** No earlier occurrence of the quote character inside `body` could
      have closed it: the lazy body is the shortest that works. */
  ghost predicate ShortestBody(q: char, body: string, rest: string) {
    forall k | 0 <= k < |body| :: !ClosesEarly(q, body, rest, k)
  }

  /** The quote character at position `k` of `body` could have ended it. */
  ghost predicate ClosesEarly(q: char, body: string, rest: string, k: nat)
    requires k < |body|
  {
    body[k] == q && TailAccepts(body[k + 1..] + ([q] + rest))
  }

  /** The lines ALIAS_RE describes, with the body the shortest that works. */
  ghost predicate AliasShape(line: string, lead: string, gap: string, name: string,
                             s1: string, s2: string, q: char, body: string, rest: string)
  {
    && line == lead + ("alias" + (gap + (name + (s1 + ("=" + (s2 + ([q] + (body + ([q] + rest)))))))))
    && AllSpace(lead) && |gap| >= 1 && AllSpace(gap)
    && |name| >= 1 && AllNameChars(name)
    && AllSpace(s1) && AllSpace(s2) && IsQuote(q)
    && TailAccepts(rest) && ShortestBody(q, body, rest)
  }

  lemma QuotedBodySound(s: string) returns (rest: string)
    requires s != [] && IsQuote(s[0]) && QuotedBody(s).Some?
    ensures var (body, comment) := QuotedBody(s).value;
            && s == [s[0]] + (body + ([s[0]] + rest))
            && TailAccepts(rest) && ShortestBody(s[0], body, rest)
            && MatchTail(rest) == Some(comment)
  {
    var e := CloseQuote(s, s[0], 1).value;
    rest := s[e + 1..];
    ClosedAt(s, e);
  }

  /** A body closed at `e`, with no earlier position able to close it. */
  lemma ClosedAt(s: string, e: nat)
    requires s != [] && 1 <= e && Closes(s, s[0], e)
    requires forall k | 1 <= k < e :: !Closes(s, s[0], k)
    ensures s == [s[0]] + (s[1..e] + ([s[0]] + s[e + 1..]))
    ensures TailAccepts(s[e + 1..]) && ShortestBody(s[0], s[1..e], s[e + 1..])
  {
    var q := s[0];
    var body := s[1..e];
    var rest := s[e + 1..];
    assert s[e..] == [q] + rest by {
      SuffixCut(s, e, e + 1);
      assert s[e..e + 1] == [q];
    }
    assert s == [q] + (body + ([q] + rest)) by {
      SuffixCut(s, 1, e);
      assert s == [q] + s[1..];
    }
    forall k | 0 <= k < |body|
      ensures !ClosesEarly(q, body, rest, k)
    {
      assert !Closes(s, q, k + 1);
      assert s[k + 2..] == body[k + 1..] + ([q] + rest) by {
        SuffixCut(s, k + 2, e);
      }
    }
  }

  lemma QuotedBodyComplete(q: char, body: string, rest: string)
    requires IsQuote(q) && TailAccepts(rest) && ShortestBody(q, body, rest)
    ensures QuotedBody([q] + (body + ([q] + rest))) == Some((body, MatchTail(rest).value))
  {
    var s := [q] + (body + ([q] + rest));
    var e := 1 + |body|;
    assert s[1..e] == body && s[e] == q && s[e + 1..] == rest;
    forall k | 1 <= k < e ensures !Closes(s, q, k) {
      assert !ClosesEarly(q, body, rest, k - 1);
      assert s[k] == body[k - 1];
      assert s[k + 1..] == body[k..] + ([q] + rest);
    }
    CloseQuoteAt(s, q, 1, e);
  }

  lemma AliasValueSound(s: string) returns (s1: string, s2: string, q: char, rest: string)
    requires AliasValue(s).Some?
    ensures var (body, comment) := AliasValue(s).value;
            && s == s1 + ("=" + (s2 + ([q] + (body + ([q] + rest)))))
            && AllSpace(s1) && AllSpace(s2) && IsQuote(q)
            && TailAccepts(rest) && ShortestBody(q, body, rest)
            && MatchTail(rest) == Some(comment)
  {
    var m := SkipSpace(s, 0);
    var o := SkipSpace(s, m + 1);
    s1, s2, q := s[..m], s[m + 1..o], s[o];
    assert s1 == s[0..m];
    rest := QuotedBodySound(s[o..]);
    ValueLayout(s, m, o);
  }

  lemma ValueLayout(s: string, m: nat, o: nat)
    requires m < o <= |s| && s[m] == '='
    ensures s == s[..m] + ("=" + (s[m + 1..o] + s[o..]))
  {
    CutThree(s, m, m + 1);
    CutThree(s, m + 1, o);
    assert s[m..m + 1] == "=";
  }

  lemma AliasValueComplete(s1: string, s2: string, q: char, body: string, rest: string)
    requires AllSpace(s1) && AllSpace(s2) && IsQuote(q)
    requires TailAccepts(rest) && ShortestBody(q, body, rest)
    ensures AliasValue(s1 + ("=" + (s2 + ([q] + (body + ([q] + rest))))))
            == Some((body, MatchTail(rest).value))
  {
    ValueOf(s1, s2, [q] + (body + ([q] + rest)));
    QuotedBodyComplete(q, body, rest);
  }

  lemma ValueOf(s1: string, s2: string, v: string)
    requires AllSpace(s1) && AllSpace(s2) && v != [] && IsQuote(v[0])
    ensures AliasValue(s1 + ("=" + (s2 + v))) == QuotedBody(v)
  {
    var s := s1 + ("=" + (s2 + v));
    var o := |s1| + 1 + |s2|;
    ValueParts(s1, s2, v);
    ValueAt(s, |s1|, o);
    assert s[o..] == v;
  }

  /** Where the parts of `s1 = s2 v` lie. */
  lemma ValueParts(s1: string, s2: string, v: string)
    requires v != []
    ensures var s := s1 + ("=" + (s2 + v)); var m := |s1|; var o := m + 1 + |s2|;
            && o < |s| && s[..m] == s1 && s[m] == '=' && s[m + 1..o] == s2 && s[o..] == v && s[o] == v[0]
            && s[0] == (if s1 == [] then '=' else s1[0])
  {
    var s := s1 + ("=" + (s2 + v));
    JoinThree(s1, "=", s2 + v);
    JoinThree(s1 + "=", s2, v);
    assert s == (s1 + "=") + (s2 + v);
  }

  /** `\s*=\s*` takes everything up to the opening quote. */
  lemma ValueAt(s: string, m: nat, o: nat)
    requires m < o < |s| && AllSpace(s[..m]) && s[m] == '=' && AllSpace(s[m + 1..o]) && IsQuote(s[o])
    ensures AliasValue(s) == QuotedBody(s[o..])
  {
    assert s[..m] == s[0..m];
    SkipSpaceAt(s, 0, m);
    SkipSpaceAt(s, m + 1, o);
  }

  lemma AliasDefinitionSound(s: string) returns (gap: string, s1: string, s2: string, q: char, rest: string)
    requires AliasDefinition(s).Some?
    ensures var a := AliasDefinition(s).value;
            && s == gap + (a.name + (s1 + ("=" + (s2 + ([q] + (a.body + ([q] + rest)))))))
            && |gap| >= 1 && AllSpace(gap) && |a.name| >= 1 && AllNameChars(a.name)
            && AllSpace(s1) && AllSpace(s2) && IsQuote(q)
            && TailAccepts(rest) && ShortestBody(q, a.body, rest)
            && MatchTail(rest) == Some(a.comment)
  {
    var n0, n1 := DefinitionSplit(s);
    gap := s[..n0];
    s1, s2, q, rest := AliasValueSound(s[n1..]);
    CutThree(s, n0, n1);
  }

  /** Where the name lies in what follows `alias`, and what the rest of
      the match comes from. */
  lemma DefinitionSplit(s: string) returns (n0: nat, n1: nat)
    requires AliasDefinition(s).Some?
    ensures 0 < n0 < n1 <= |s| && AllSpace(s[..n0]) && AllNameChars(s[n0..n1]) && AliasValue(s[n1..]).Some?
    ensures AliasDefinition(s).value
            == AliasMatch(s[n0..n1], AliasValue(s[n1..]).value.0, AliasValue(s[n1..]).value.1)
  {
    n0 := SkipSpace(s, 0);
    n1 := SkipName(s, n0);
    assert s[..n0] == s[0..n0];
  }

  lemma AliasDefinitionComplete(gap: string, name: string, s1: string, s2: string,
                                q: char, body: string, rest: string)
    requires |gap| >= 1 && AllSpace(gap) && |name| >= 1 && AllNameChars(name)
    requires AllSpace(s1) && AllSpace(s2) && IsQuote(q)
    requires TailAccepts(rest) && ShortestBody(q, body, rest)
    ensures AliasDefinition(gap + (name + (s1 + ("=" + (s2 + ([q] + (body + ([q] + rest))))))))
            == Some(AliasMatch(name, body, MatchTail(rest).value))
  {
    var v := s1 + ("=" + (s2 + ([q] + (body + ([q] + rest)))));
    ValueParts(s1, s2, [q] + (body + ([q] + rest)));
    AliasValueComplete(s1, s2, q, body, rest);
    DefinitionOfValue(gap, name, v, (body, MatchTail(rest).value));
  }

  lemma DefinitionOfValue(gap: string, name: string, v: string, x: (string, Option<string>))
    requires |gap| >= 1 && AllSpace(gap) && |name| >= 1 && AllNameChars(name)
    requires v != [] && !IsNameChar(v[0]) && AliasValue(v) == Some(x)
    ensures AliasDefinition(gap + (name + v)) == Some(AliasMatch(name, x.0, x.1))
  {
    NameParts(gap, name, v);
    DefinitionAt(gap + (name + v), |gap|, |gap| + |name|, x);
  }

  /** Where the parts of `gap name v` lie. */
  lemma NameParts(gap: string, name: string, v: string)
    requires v != []
    ensures var s := gap + (name + v); var n1 := |gap| + |name|;
            && n1 < |s| && s[..|gap|] == gap && s[|gap|..n1] == name && s[n1..] == v && s[n1] == v[0]
  {
    JoinThree(gap, name, v);
  }

  /** The leading whitespace and the name are maximal runs, so the value
      is looked for right after the name. */
  lemma DefinitionAt(s: string, n0: nat, n1: nat, x: (string, Option<string>))
    requires 0 < n0 < n1 < |s|
    requires AllSpace(s[..n0]) && AllNameChars(s[n0..n1]) && !IsNameChar(s[n1])
    requires AliasValue(s[n1..]) == Some(x)
    ensures AliasDefinition(s) == Some(AliasMatch(s[n0..n1], x.0, x.1))
  {
    assert s[n0] == s[n0..n1][0];
    assert s[..n0] == s[0..n0];
    SkipSpaceAt(s, 0, n0);
    SkipNameAt(s, n0, n1);
  }

  /** What MatchAlias returns comes from a genuine ALIAS_RE match. */
  lemma MatchAliasSound(line: string)
    requires MatchAlias(line).Some?
    ensures var m := MatchAlias(line).value;
            exists lead, gap, s1, s2, q, rest ::
              AliasShape(line, lead, gap, m.name, s1, s2, q, m.body, rest) && MatchTail(rest) == Some(m.comment)
  {
    var lead, d := AliasSplit(line);
    var m := AliasDefinition(d).value;
    var gap, s1, s2, q, rest := AliasDefinitionSound(d);
    ShapeOfDefinition(line, lead, d, gap, m.name, s1, s2, q, m.body, rest);
  }

  /** Where the keyword `alias` lies, and what the rest of the match comes from. */
  lemma AliasSplit(line: string) returns (lead: string, d: string)
    requires MatchAlias(line).Some?
    ensures line == lead + ("alias" + d) && AllSpace(lead) && MatchAlias(line) == AliasDefinition(d)
  {
    var i := SkipSpace(line, 0);
    assert StartsWith(line[i..], "alias");
    lead := line[..i];
    d := line[i + 5..];
    KeywordCut(line, i, "alias");
  }

  /** A line whose suffix at `i` begins with `w` is what precedes `i`,
      then `w`, then what follows it. */
  lemma KeywordCut(line: string, i: nat, w: string)
    requires i <= |line| && StartsWith(line[i..], w)
    ensures i + |w| <= |line| && line == line[..i] + (w + line[i + |w|..]) && line[..i] == line[0..i]
  {
    assert line[i..i + |w|] == line[i..][..|w|];
    CutThree(line, i, i + |w|);
  }

  lemma ShapeOfDefinition(line: string, lead: string, d: string, gap: string, name: string,
                          s1: string, s2: string, q: char, body: string, rest: string)
    requires line == lead + ("alias" + d) && AllSpace(lead)
    requires d == gap + (name + (s1 + ("=" + (s2 + ([q] + (body + ([q] + rest)))))))
    requires |gap| >= 1 && AllSpace(gap) && |name| >= 1 && AllNameChars(name)
    requires AllSpace(s1) && AllSpace(s2) && IsQuote(q)
    requires TailAccepts(rest) && ShortestBody(q, body, rest)
    ensures AliasShape(line, lead, gap, name, s1, s2, q, body, rest)
  {
  }

  /** Every line of that shape is recognised, with exactly its name, its
      body and its comment. */
  lemma MatchAliasComplete(line: string, lead: string, gap: string, name: string,
                           s1: string, s2: string, q: char, body: string, rest: string)
    requires AliasShape(line, lead, gap, name, s1, s2, q, body, rest)
    ensures MatchAlias(line) == Some(AliasMatch(name, body, MatchTail(rest).value))
  {
    var d := gap + (name + (s1 + ("=" + (s2 + ([q] + (body + ([q] + rest)))))));
    var i := |lead|;
    assert line[0..i] == lead && line[i..] == "alias" + d;
    assert line[i] == 'a';
    SkipSpaceAt(line, 0, i);
    assert line[i..][..5] == "alias";
    assert line[i + 5..] == d;
    AliasDefinitionComplete(gap, name, s1, s2, q, body, rest);
  }
}
