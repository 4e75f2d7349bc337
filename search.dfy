/** Matching and ranking aliases against a query: `tokens`,
    `match_score` and `filter_aliases` (python/alias_runner.py:146-161).

    A query is split into lower-cased words. An alias scores one point
    for every query word found anywhere in its name, body and note; a
    blank query scores every alias 1. The filter ranks the aliases by
    score, highest first, then by lower-cased name, and drops those that
    match no word of a non-blank query. */
module Search {
  import opened Text
  import opened Ordering
  import opened Parser

  /** `tokens(s)`: the words of the lower-cased text. The comprehension's
      `if t` keeps every word, since `split()` yields no empty one. */
  function Tokens(s: string): seq<string> {
    Split(Lower(s))
  }

  /** The text a query is matched against: name, body and note joined
      by single spaces, lower-cased. */
  function Haystack(a: Alias): string {
    Lower(a.name + " " + a.body + " " + a.note)
  }

  /** How many of `ts` occur in `hay`; a word given twice counts twice. */
  function CountIn(ts: seq<string>, hay: string): nat
    decreases |ts|
  {
    if ts == [] then 0
    else (if Contains(hay, ts[0]) then 1 else 0) + CountIn(ts[1..], hay)
  }

  /** `match_score(alias, needle)` */
  function MatchScore(a: Alias, needle: string): nat {
    if Blank(needle) then 1 else CountIn(Tokens(needle), Haystack(a))
  }

  /** The sort key `(-score, name.lower())`: Python compares the score
      first and the name only between equal scores. */
  function RankKey(needle: string): Alias -> seq<int> {
    a => [-(MatchScore(a, needle) as int)] + Codes(Lower(a.name))
  }

  /** Whether the filter keeps an alias of the given score. */
  predicate Kept(a: Alias, needle: string) {
    MatchScore(a, needle) > 0 || Blank(needle)
  }

  /** The kept aliases of `xs`, in order. */
  function Keep(xs: seq<Alias>, needle: string): seq<Alias>
    decreases |xs|
  {
    if xs == [] then []
    else (if Kept(xs[0], needle) then [xs[0]] else []) + Keep(xs[1..], needle)
  }

  /** `filter_aliases(items, needle)` */
  function FilterAliases(items: seq<Alias>, needle: string): seq<Alias> {
    Keep(SortBy(items, RankKey(needle)), needle)
  }

  // ---------------------------------------------------------------------
  // Tokens and scores

  lemma LowerKeepsSpace(s: string)
    ensures forall i | 0 <= i < |s| :: IsSpace(Lower(s)[i]) <==> IsSpace(s[i])
  {
  }

  /** A query has no tokens exactly when it is blank. */
  lemma TokensEmptyIffBlank(s: string)
    ensures Tokens(s) == [] <==> Blank(s)
  {
    SplitEmptyIffBlank(Lower(s));
    BlankIsAllSpace(s);
    LowerKeepsSpace(s);
    assert AllSpace(Lower(s)) <==> AllSpace(s);
  }

  lemma {:induction false} CountInBound(ts: seq<string>, hay: string)
    ensures CountIn(ts, hay) <= |ts|
    ensures CountIn(ts, hay) > 0 <==> exists k | 0 <= k < |ts| :: Contains(hay, ts[k])
    ensures CountIn(ts, hay) == |ts| <==> forall k | 0 <= k < |ts| :: Contains(hay, ts[k])
    decreases |ts|
  {
    if ts != [] {
      CountInBound(ts[1..], hay);
      assert forall k | 1 <= k < |ts| :: ts[k] == ts[1..][k - 1];
      if exists k | 0 <= k < |ts| :: Contains(hay, ts[k]) {
        var k :| 0 <= k < |ts| && Contains(hay, ts[k]);
        if k > 0 {
          assert Contains(hay, ts[1..][k - 1]);
        }
      }
    }
  }

  /** Counting splits over concatenation, so a repeated word counts once
      for every time it is given. */
  lemma {:induction false} CountInAppend(ts: seq<string>, us: seq<string>, hay: string)
    ensures CountIn(ts + us, hay) == CountIn(ts, hay) + CountIn(us, hay)
    decreases |ts|
  {
    if ts != [] {
      CountInAppend(ts[1..], us, hay);
      assert (ts + us)[1..] == ts[1..] + us;
    } else {
      assert ts + us == us;
    }
  }

  /** A blank query scores every alias 1; any other query scores the
      number of its words found in the alias, so between 0 and its word
      count, above 0 exactly when some word is found, and equal to the
      word count exactly when every word is found. */
  lemma MatchScoreRange(a: Alias, needle: string)
    ensures Blank(needle) ==> MatchScore(a, needle) == 1
    ensures !Blank(needle) ==>
              var ts := Tokens(needle); var hay := Haystack(a);
              && 0 <= MatchScore(a, needle) <= |ts| && ts != []
              && (MatchScore(a, needle) > 0 <==> exists k | 0 <= k < |ts| :: Contains(hay, ts[k]))
              && (MatchScore(a, needle) == |ts| <==> forall k | 0 <= k < |ts| :: Contains(hay, ts[k]))
  {
    TokensEmptyIffBlank(needle);
    CountInBound(Tokens(needle), Haystack(a));
  }

  lemma LowerAppend(x: string, y: string)
    ensures Lower(x + y) == Lower(x) + Lower(y)
  {
  }

  lemma LowerIdempotent(s: string)
    ensures Lower(Lower(s)) == Lower(s)
  {
    forall i | 0 <= i < |s| ensures Lower(Lower(s))[i] == Lower(s)[i] {
      var c := s[i];
      assert Lower(s)[i] == LowerChar(c);
    }
  }

  /** Matching ignores letter case in the query. */
  lemma MatchScoreIgnoresCase(a: Alias, needle: string)
    ensures MatchScore(a, Lower(needle)) == MatchScore(a, needle)
  {
    LowerIdempotent(needle);
    TokensEmptyIffBlank(needle);
    TokensEmptyIffBlank(Lower(needle));
  }

  /** Searching for an alias by its exact name finds it: a name has no
      whitespace, so it is a single token, and the haystack starts with
      it. */
  lemma NameFindsItself(a: Alias)
    requires a.name != [] && NoSpace(a.name)
    ensures MatchScore(a, a.name) == 1
  {
    var w := Lower(a.name);
    LowerKeepsSpace(a.name);
    assert w != [] && NoSpace(w);
    SplitJoinWords([w]);
    assert Tokens(a.name) == [w];
    TokensEmptyIffBlank(a.name);
    var rest := " " + a.body + " " + a.note;
    assert a.name + " " + a.body + " " + a.note == a.name + rest;
    LowerAppend(a.name, rest);
    assert StartsWith(Haystack(a), w);
    assert Contains(Haystack(a), w);
    assert [w][1..] == [];
    assert !Blank(a.name);
    assert CountIn([w], Haystack(a)) == 1;
    assert MatchScore(a, a.name) == CountIn(Tokens(a.name), Haystack(a));
  }

  // ---------------------------------------------------------------------
  // The filter

  lemma {:induction false} KeepMembers(xs: seq<Alias>, needle: string)
    ensures forall x :: x in Keep(xs, needle) <==> x in xs && Kept(x, needle)
    decreases |xs|
  {
    if xs != [] {
      KeepMembers(xs[1..], needle);
      assert xs == [xs[0]] + xs[1..];
    }
  }

  /** The filter keeps an alias exactly when it is one of the items and
      matches some word of the query, or the query is blank. */
  lemma FilterMembers(items: seq<Alias>, needle: string, x: Alias)
    ensures x in FilterAliases(items, needle) <==> x in items && (Blank(needle) || MatchScore(x, needle) > 0)
  {
    var sorted := SortBy(items, RankKey(needle));
    KeepMembers(sorted, needle);
    SortByPermutes(items, RankKey(needle));
    assert x in sorted <==> x in multiset(sorted);
  }

  /** A blank query keeps every item: the result is a permutation of the
      items. */
  lemma FilterBlankKeepsAll(items: seq<Alias>, needle: string)
    requires Blank(needle)
    ensures multiset(FilterAliases(items, needle)) == multiset(items)
  {
    var sorted := SortBy(items, RankKey(needle));
    KeepAll(sorted, needle);
    SortByPermutes(items, RankKey(needle));
  }

  lemma {:induction false} KeepAll(xs: seq<Alias>, needle: string)
    requires forall k | 0 <= k < |xs| :: Kept(xs[k], needle)
    ensures Keep(xs, needle) == xs
    decreases |xs|
  {
    if xs != [] {
      assert forall k | 0 <= k < |xs[1..]| :: xs[1..][k] == xs[k + 1];
      KeepAll(xs[1..], needle);
    }
  }

  /** What the filter keeps of a sorted sequence is sorted. */
  lemma {:induction false} KeepSorted(xs: seq<Alias>, needle: string, key: Alias -> seq<int>)
    requires SortedBy(xs, key)
    ensures SortedBy(Keep(xs, needle), key)
    decreases |xs|
  {
    if xs != [] {
      assert SortedBy(xs[1..], key) by {
        forall i, j | 0 <= i < j < |xs[1..]| ensures !LexLt(key(xs[1..][j]), key(xs[1..][i])) {
          assert xs[1..][j] == xs[j + 1] && xs[1..][i] == xs[i + 1];
        }
      }
      KeepSorted(xs[1..], needle, key);
      KeepMembers(xs[1..], needle);
      var r := Keep(xs, needle);
      var rest := Keep(xs[1..], needle);
      if Kept(xs[0], needle) {
        forall j | 0 < j < |r| ensures !LexLt(key(r[j]), key(xs[0])) {
          assert r[j] == rest[j - 1];
          assert r[j] in xs[1..];
          var m :| 0 <= m < |xs[1..]| && xs[1..][m] == r[j];
          assert xs[m + 1] == r[j];
        }
      }
    }
  }

  /** The result runs from the highest score down, and by lower-cased
      name between equal scores. */
  lemma FilterSorted(items: seq<Alias>, needle: string)
    ensures SortedBy(FilterAliases(items, needle), RankKey(needle))
  {
    SortBySorted(items, RankKey(needle));
    KeepSorted(SortBy(items, RankKey(needle)), needle, RankKey(needle));
  }

  /** Scores never increase along the result. */
  lemma FilterScoresDescend(items: seq<Alias>, needle: string)
    ensures var r := FilterAliases(items, needle);
            forall i, j | 0 <= i < j < |r| :: MatchScore(r[i], needle) >= MatchScore(r[j], needle)
  {
    FilterSorted(items, needle);
    var r := FilterAliases(items, needle);
    var key := RankKey(needle);
    forall i, j | 0 <= i < j < |r| ensures MatchScore(r[i], needle) >= MatchScore(r[j], needle) {
      assert !LexLt(key(r[j]), key(r[i]));
      assert key(r[i])[0] == -(MatchScore(r[i], needle) as int);
      assert key(r[j])[0] == -(MatchScore(r[j], needle) as int);
    }
  }

  /** Filtering what the filter returned, with the same query, changes
      nothing. */
  lemma FilterIdempotent(items: seq<Alias>, needle: string)
    ensures FilterAliases(FilterAliases(items, needle), needle) == FilterAliases(items, needle)
  {
    var r := FilterAliases(items, needle);
    FilterSorted(items, needle);
    SortBySortedIsIdentity(r, RankKey(needle));
    KeepMembers(SortBy(items, RankKey(needle)), needle);
    assert forall k | 0 <= k < |r| :: r[k] in r;
    KeepAll(r, needle);
  }

  lemma {:induction false} KeepWithKey(xs: seq<Alias>, needle: string, key: Alias -> seq<int>, k: seq<int>)
    ensures WithKey(Keep(xs, needle), key, k) == Keep(WithKey(xs, key, k), needle)
    decreases |xs|
  {
    if xs != [] {
      var x := xs[0];
      var w := WithKey(xs[1..], key, k);
      KeepWithKey(xs[1..], needle, key, k);
      assert xs == [x] + xs[1..];
      WithKeyCons(x, xs[1..], key, k);
      if Kept(x, needle) {
        WithKeyCons(x, Keep(xs[1..], needle), key, k);
      } else {
        assert Keep(xs, needle) == Keep(xs[1..], needle);
      }
      if key(x) == k {
        KeepCons(x, w, needle);
      } else {
        assert WithKey(xs, key, k) == w;
      }
    }
  }

  lemma KeepCons(x: Alias, ys: seq<Alias>, needle: string)
    ensures Keep([x] + ys, needle) == (if Kept(x, needle) then [x] else []) + Keep(ys, needle)
  {
    assert ([x] + ys)[1..] == ys;
  }

  /** The filter is stable: aliases with the same score and the same
      lower-cased name keep their order among the items. */
  lemma FilterStable(items: seq<Alias>, needle: string, k: seq<int>)
    ensures WithKey(FilterAliases(items, needle), RankKey(needle), k)
         == WithKey(Keep(items, needle), RankKey(needle), k)
  {
    var key := RankKey(needle);
    KeepWithKey(SortBy(items, key), needle, key, k);
    SortByStable(items, key, k);
    KeepWithKey(items, needle, key, k);
  }
}
