/** The pieces of Python's `str` that the alias indexer relies on:
    whitespace as `str.isspace()` defines it (the same class that `\s`,
    `strip()` and `split()` use on `str`), `strip()`, `split()`,
    `splitlines()`, `lower()` restricted to ASCII, `startswith` and the
    substring test `t in s`. */
module Text {

  /** `c.isspace()`: the characters Python treats as whitespace. */
  predicate IsSpace(c: char) {
    c == ' ' || ('\t' <= c <= '\r') || ('\U{1C}' <= c <= '\U{1F}')
    || c == '\U{85}' || c == '\U{A0}' || c == '\U{1680}'
    || ('\U{2000}' <= c <= '\U{200A}') || c == '\U{2028}' || c == '\U{2029}'
    || c == '\U{202F}' || c == '\U{205F}' || c == '\U{3000}'
  }

  predicate AllSpace(s: string) {
    forall i | 0 <= i < |s| :: IsSpace(s[i])
  }

  predicate NoSpace(s: string) {
    forall i | 0 <= i < |s| :: !IsSpace(s[i])
  }

  /** `s.startswith(p)` */
  predicate StartsWith(s: string, p: string) {
    |p| <= |s| && s[..|p|] == p
  }

  /** The first index at or after `i` that does not hold whitespace, or |s|. */
  function SkipSpace(s: string, i: nat): (j: nat)
    requires i <= |s|
    ensures i <= j <= |s|
    ensures AllSpace(s[i..j]) && (j == |s| || !IsSpace(s[j]))
    decreases |s| - i
  {
    if i == |s| || !IsSpace(s[i]) then i else SkipSpace(s, i + 1)
  }

  /** The ensures of SkipSpace determine its result. */
  lemma SkipSpaceAt(s: string, i: nat, j: nat)
    requires i <= j <= |s|
    requires AllSpace(s[i..j]) && (j == |s| || !IsSpace(s[j]))
    ensures SkipSpace(s, i) == j
  {
    var r := SkipSpace(s, i);
    assert forall x | i <= x < j :: s[x] == s[i..j][x - i];
    assert forall x | i <= x < r :: s[x] == s[i..r][x - i];
  }

  /** Skipping whitespace only looks at the characters from `i` on. */
  lemma {:induction false} SkipSpaceFrom(s: string, i: nat)
    requires i <= |s|
    ensures SkipSpace(s, i) == i + SkipSpace(s[i..], 0)
  {
    var j := SkipSpace(s[i..], 0);
    assert forall x | i <= x < i + j :: s[x] == s[i..][0..j][x - i];
    assert s[i..i + j] == s[i..][0..j];
    SkipSpaceAt(s, i, i + j);
  }

  /** Cutting a suffix of `s` at `q` splits it into the slice up to `q` and the rest. */
  lemma SuffixCut(s: string, p: nat, q: nat)
    requires p <= q <= |s|
    ensures s[p..] == s[p..q] + s[q..]
  {
  }

  /** A suffix of `s` that is the concatenation `a + b` has `a` in front
      of `b` at the corresponding positions of `s`. */
  lemma SuffixParts(s: string, p: nat, a: string, b: string)
    requires p <= |s| && s[p..] == a + b
    ensures p + |a| <= |s| && s[p..p + |a|] == a && s[p + |a|..] == b
  {
    assert s[p..p + |a|] == (a + b)[..|a|];
    assert s[p + |a|..] == (a + b)[|a|..];
  }

  /** `s` is its slices at `a` and `b` put back together. */
  lemma CutThree(s: string, a: nat, b: nat)
    requires a <= b <= |s|
    ensures s == s[..a] + (s[a..b] + s[b..])
  {
    SuffixCut(s, a, b);
    assert s == s[..a] + s[a..];
  }

  /** The slices of `x + (y + z)` at the seams are `x`, `y` and `z`. */
  lemma JoinThree(x: string, y: string, z: string)
    ensures var s := x + (y + z);
            && s[..|x|] == x && s[0..|x|] == x && s[|x|..] == y + z
            && s[|x|..|x| + |y|] == y && s[|x| + |y|..] == z
  {
    var s := x + (y + z);
    SuffixParts(s, |x|, y, z);
  }

  /** Skipping whitespace passes over a prefix that is all whitespace. */
  lemma SkipSpacePrefix(s: string, g: nat)
    requires g <= |s| && AllSpace(s[..g])
    ensures SkipSpace(s, 0) == g + SkipSpace(s[g..], 0)
  {
    SkipSpaceFrom(s, g);
    var j := SkipSpace(s, g);
    assert forall x | 0 <= x < g :: s[x] == s[..g][x];
    assert forall x | g <= x < j :: s[x] == s[g..j][x - g];
    assert forall x | 0 <= x < j :: s[0..j][x] == s[x];
    SkipSpaceAt(s, 0, j);
  }

  /** `s.lstrip()` */
  function StripLeft(s: string): (r: string)
    ensures r == [] || !IsSpace(r[0])
  {
    s[SkipSpace(s, 0)..]
  }

  /** The ensures of SkipSpaceBack determine its result. */
  lemma SkipSpaceBackAt(s: string, i: nat, j: nat, k: nat)
    requires i <= k <= j <= |s|
    requires AllSpace(s[k..j]) && (k == i || !IsSpace(s[k - 1]))
    ensures SkipSpaceBack(s, i, j) == k
  {
    var r := SkipSpaceBack(s, i, j);
    assert forall x | k <= x < j :: s[x] == s[k..j][x - k];
    assert forall x | r <= x < j :: s[x] == s[r..j][x - r];
  }

  /** The least index `k` in [i, j] such that s[k..j] is all whitespace. */
  function SkipSpaceBack(s: string, i: nat, j: nat): (k: nat)
    requires i <= j <= |s|
    ensures i <= k <= j
    ensures AllSpace(s[k..j]) && (k == i || !IsSpace(s[k - 1]))
    decreases j - i
  {
    if j == i || !IsSpace(s[j - 1]) then j
    else
      var k := SkipSpaceBack(s, i, j - 1);
      assert forall x | k <= x < j :: s[k..j][x - k] == s[x] && (x < j - 1 ==> s[k..j - 1][x - k] == s[x]);
      k
  }

  /** Neither end of `r` is whitespace. */
  predicate IsStripped(r: string) {
    r == [] || (!IsSpace(r[0]) && !IsSpace(r[|r| - 1]))
  }

  /** `s.strip()` */
  function Strip(s: string): (r: string)
    ensures IsStripped(r)
  {
    var i := SkipSpace(s, 0);
    s[i..SkipSpaceBack(s, i, |s|)]
  }

  /** Strip removes exactly a whitespace prefix and a whitespace suffix. */
  lemma StripParts(s: string) returns (i: nat, j: nat)
    ensures i <= j <= |s|
    ensures Strip(s) == s[i..j] && AllSpace(s[..i]) && AllSpace(s[j..])
  {
    i := SkipSpace(s, 0);
    j := SkipSpaceBack(s, i, |s|);
    assert s[..i] == s[0..i];
    assert s[j..] == s[j..|s|];
  }

  /** A whitespace-padded stripped string strips to itself: the
      ensures of Strip pin its result down. */
  lemma StripUnique(a: string, r: string, b: string)
    requires AllSpace(a) && AllSpace(b) && IsStripped(r)
    ensures Strip(a + r + b) == r
  {
    var s := a + r + b;
    if r == [] {
      assert s == a + b;
      assert AllSpace(s[0..|s|]) by {
        forall x | 0 <= x < |s| ensures IsSpace(s[0..|s|][x]) {
          if x < |a| { assert s[x] == a[x]; } else { assert s[x] == b[x - |a|]; }
        }
      }
      SkipSpaceAt(s, 0, |s|);
    } else {
      assert s[0..|a|] == a;
      assert s[|a|] == r[0];
      SkipSpaceAt(s, 0, |a|);
      var e := |a| + |r|;
      assert s[e - 1] == r[|r| - 1];
      assert s[e..|s|] == b;
      SkipSpaceBackAt(s, |a|, |s|, e);
      assert s[|a|..e] == r;
    }
  }

  /** Whitespace around a string does not change what it strips to. */
  lemma StripPadded(a: string, x: string, b: string)
    requires AllSpace(a) && AllSpace(b)
    ensures Strip(a + x + b) == Strip(x)
  {
    var i, j := StripParts(x);
    Regroup(a, x, b, i, j);
    AllSpaceJoin(a, x[..i]);
    AllSpaceJoin(x[j..], b);
    StripUnique(a + x[..i], x[i..j], x[j..] + b);
  }

  /** Cutting the middle part of `a + x + b` at `i` and `j`. */
  lemma Regroup(a: string, x: string, b: string, i: nat, j: nat)
    requires i <= j <= |x|
    ensures a + x + b == (a + x[..i]) + x[i..j] + (x[j..] + b)
  {
    assert x == x[..i] + x[i..j] + x[j..];
  }

  lemma AllSpaceJoin(a: string, b: string)
    requires AllSpace(a) && AllSpace(b)
    ensures AllSpace(a + b)
  {
    assert forall k | |a| <= k < |a + b| :: (a + b)[k] == b[k - |a|];
  }

  lemma StripIdempotent(s: string)
    ensures Strip(Strip(s)) == Strip(s)
  {
    assert Strip(s) == [] + Strip(s) + [];
    StripUnique([], Strip(s), []);
  }

  /** `not s.strip()`: the string is empty or whitespace only. */
  predicate Blank(s: string) {
    Strip(s) == []
  }

  lemma BlankIsAllSpace(s: string)
    ensures Blank(s) <==> AllSpace(s)
  {
    var i, j := StripParts(s);
    if Blank(s) {
      assert s == s[..i] + s[i..j] + s[j..];
      assert forall x | 0 <= x < |s| :: IsSpace(s[x]) by {
        forall x | 0 <= x < |s| ensures IsSpace(s[x]) {
          if x < i { assert s[x] == s[..i][x]; } else { assert s[x] == s[j..][x - j]; }
        }
      }
    }
  }

  /** `s.lstrip("#")`: drop every leading '#'. */
  function TrimHashes(s: string): (r: string)
    ensures |r| <= |s| && r == s[|s| - |r|..]
    ensures r == [] || r[0] != '#'
    ensures forall i | 0 <= i < |s| - |r| :: s[i] == '#'
    decreases |s|
  {
    if s != [] && s[0] == '#' then TrimHashes(s[1..]) else s
  }

  /** ASCII case folding, as Python's `lower()` does on ASCII letters. */
  function LowerChar(c: char): char {
    if 'A' <= c <= 'Z' then (c as int - 'A' as int + 'a' as int) as char else c
  }

  /** `s.lower()` on ASCII letters; every other character is kept. */
  function Lower(s: string): (r: string)
    ensures |r| == |s|
  {
    seq(|s|, i requires 0 <= i < |s| => LowerChar(s[i]))
  }

  /** `t` occurs in `s` starting at index `i`. */
  predicate OccursAt(s: string, t: string, i: int) {
    0 <= i && i + |t| <= |s| && s[i..i + |t|] == t
  }

  /** `t in s` for two strings. */
  predicate Contains(s: string, t: string)
    decreases |s|
  {
    StartsWith(s, t) || (s != [] && Contains(s[1..], t))
  }

  /** Contains is the substring test: some position holds `t`. */
  lemma {:induction false} ContainsIff(s: string, t: string)
    ensures Contains(s, t) <==> exists i :: OccursAt(s, t, i)
    decreases |s|
  {
    if StartsWith(s, t) {
      assert OccursAt(s, t, 0);
    } else if s != [] {
      ContainsIff(s[1..], t);
      if Contains(s[1..], t) {
        var i :| OccursAt(s[1..], t, i);
        assert s[1..][i..i + |t|] == s[i + 1..i + 1 + |t|];
        assert OccursAt(s, t, i + 1);
      }
      if exists i :: OccursAt(s, t, i) {
        var i :| OccursAt(s, t, i);
        assert s[1..][i - 1..i - 1 + |t|] == s[i..i + |t|];
        assert OccursAt(s[1..], t, i - 1);
      }
    }
  }

  /** The first index at or after `i` that holds whitespace, or |s|. */
  function SkipWord(s: string, i: nat): (j: nat)
    requires i <= |s|
    ensures i <= j <= |s|
    ensures NoSpace(s[i..j]) && (j == |s| || IsSpace(s[j]))
    decreases |s| - i
  {
    if i == |s| || IsSpace(s[i]) then i else SkipWord(s, i + 1)
  }

  /** `s.split()` with no separator: the maximal runs of non-whitespace. */
  function Split(s: string): (words: seq<string>)
    ensures forall k | 0 <= k < |words| :: words[k] != [] && NoSpace(words[k])
    decreases |s|
  {
    if s == [] then []
    else if IsSpace(s[0]) then Split(s[1..])
    else
      var j := SkipWord(s, 0);
      [s[..j]] + Split(s[j..])
  }

  /** Splitting finds no word exactly in a blank string. */
  lemma {:induction false} SplitEmptyIffBlank(s: string)
    ensures Split(s) == [] <==> AllSpace(s)
    decreases |s|
  {
    if s != [] && IsSpace(s[0]) {
      SplitEmptyIffBlank(s[1..]);
      assert AllSpace(s) <==> AllSpace(s[1..]) by {
        assert forall x | 0 < x < |s| :: s[x] == s[1..][x - 1];
      }
    }
  }

  /** `" ".join(words)` */
  function JoinWords(words: seq<string>): string {
    if words == [] then ""
    else if |words| == 1 then words[0]
    else words[0] + " " + JoinWords(words[1..])
  }

  /** Splitting undoes joining with single spaces. */
  lemma {:induction false} SplitJoinWords(words: seq<string>)
    requires forall k | 0 <= k < |words| :: words[k] != [] && NoSpace(words[k])
    ensures Split(JoinWords(words)) == words
  {
    if words != [] {
      var w := words[0];
      var s := JoinWords(words);
      if |words| == 1 {
        SkipWordAt(s, |w|);
        assert s[..|w|] == w && s[|w|..] == [];
      } else {
        var rest := JoinWords(words[1..]);
        assert s == w + " " + rest;
        SkipWordAt(s, |w|);
        assert s[..|w|] == w;
        assert s[|w|..] == " " + rest;
        assert (" " + rest)[1..] == rest;
        SplitJoinWords(words[1..]);
        assert words == [w] + words[1..];
      }
    }
  }

  /** The ensures of SkipWord determine its result. */
  lemma SkipWordAt(s: string, j: nat)
    requires j <= |s| && NoSpace(s[..j]) && (j == |s| || IsSpace(s[j]))
    ensures SkipWord(s, 0) == j
  {
    var r := SkipWord(s, 0);
    assert forall x | 0 <= x < j :: s[x] == s[..j][x];
    assert forall x | 0 <= x < r :: s[x] == s[0..r][x];
  }

  /** The characters at which `str.splitlines()` ends a line. */
  predicate IsLineBreak(c: char) {
    c == '\n' || c == '\r' || c == '\U{0B}' || c == '\U{0C}'
    || ('\U{1C}' <= c <= '\U{1E}') || c == '\U{85}' || c == '\U{2028}' || c == '\U{2029}'
  }

  predicate NoLineBreak(s: string) {
    forall i | 0 <= i < |s| :: !IsLineBreak(s[i])
  }

  /** The first index at or after `i` that ends a line, or |s|. */
  function LineEnd(s: string, i: nat): (j: nat)
    requires i <= |s|
    ensures i <= j <= |s|
    ensures NoLineBreak(s[i..j]) && (j == |s| || IsLineBreak(s[j]))
    decreases |s| - i
  {
    if i == |s| || IsLineBreak(s[i]) then i else LineEnd(s, i + 1)
  }

  /** `s.splitlines()`: "\r\n" ends one line; a final line break does
      not start an empty line. */
  function SplitLines(s: string): (lines: seq<string>)
    ensures forall k | 0 <= k < |lines| :: NoLineBreak(lines[k])
    decreases |s|
  {
    if s == [] then []
    else
      var e := LineEnd(s, 0);
      if e == |s| then [s]
      else
        var next := if s[e] == '\r' && e + 1 < |s| && s[e + 1] == '\n' then e + 2 else e + 1;
        [s[..e]] + SplitLines(s[next..])
  }

  /** The ensures of LineEnd determine its result. */
  lemma LineEndAt(s: string, j: nat)
    requires j <= |s| && NoLineBreak(s[..j]) && (j == |s| || IsLineBreak(s[j]))
    ensures LineEnd(s, 0) == j
  {
    var r := LineEnd(s, 0);
    assert forall x | 0 <= x < j :: s[x] == s[..j][x];
    assert forall x | 0 <= x < r :: s[x] == s[0..r][x];
  }

  /** Each line followed by "\n", as a file written line by line reads. */
  function JoinLines(lines: seq<string>): string {
    if lines == [] then "" else lines[0] + "\n" + JoinLines(lines[1..])
  }

  /** Splitting a file written line by line gives back its lines. */
  lemma {:induction false} SplitJoinLines(lines: seq<string>)
    requires forall k | 0 <= k < |lines| :: NoLineBreak(lines[k])
    ensures SplitLines(JoinLines(lines)) == lines
  {
    if lines != [] {
      var l := lines[0];
      var s := JoinLines(lines);
      var rest := JoinLines(lines[1..]);
      assert s == l + "\n" + rest;
      assert s[..|l|] == l;
      LineEndAt(s, |l|);
      assert s[|l| + 1..] == rest;
      SplitJoinLines(lines[1..]);
      assert lines == [l] + lines[1..];
    }
  }
}
