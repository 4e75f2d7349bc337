/** The indexer's walk over a configuration and its includes,
    `collect_aliases` (python/alias_runner.py:122-143).

    Starting from the root file, the walk parses every file on a FIFO
    queue once. The include targets a file reports go to the back of the
    queue: a directory contributes the `.zsh` and `.sh` files beneath
    it, anything else itself when it exists. Records are merged into a
    dictionary keyed by alias name, where a later record replaces an
    earlier one with the same name. The dictionary's values, sorted by
    lower-cased name, are the result. */
module Collect {
  import opened FileSystem
  import opened Ordering
  import opened Text
  import opened Parser

  // ---------------------------------------------------------------------
  // The queue

  /** The shell scripts among `ps`: regular files with suffix `.zsh` or
      `.sh`, in their order in `ps`. */
  function ShellScripts(env: Env, ps: seq<Path>): seq<Path>
    decreases |ps|
  {
    if ps == [] then []
    else
      var last := ps[|ps| - 1];
      ShellScripts(env, ps[..|ps| - 1]) + (if IsFile(env, last) && IsShellScript(last) then [last] else [])
  }

  /** What one include target puts on the queue: the shell scripts
      beneath a directory, or the target itself when it exists. */
  function Expand(env: Env, s: Path): seq<Path> {
    if IsDir(env, s) then ShellScripts(env, env.tree(s))
    else if Exists(env, s) then [s] else []
  }

  /** What the include targets of one file put on the queue, in order. */
  function Enqueued(env: Env, srcs: seq<Path>): seq<Path>
    decreases |srcs|
  {
    if srcs == [] then []
    else Enqueued(env, srcs[..|srcs| - 1]) + Expand(env, srcs[|srcs| - 1])
  }

  lemma {:induction false} ShellScriptsMembers(env: Env, ps: seq<Path>)
    ensures forall p :: p in ShellScripts(env, ps) <==> p in ps && IsFile(env, p) && IsShellScript(p)
    decreases |ps|
  {
    if ps != [] {
      ShellScriptsMembers(env, ps[..|ps| - 1]);
      assert ps == ps[..|ps| - 1] + [ps[|ps| - 1]];
    }
  }

  /** Only regular files are ever put on the queue. */
  lemma {:induction false} EnqueuedFiles(env: Env, srcs: seq<Path>)
    ensures forall p | p in Enqueued(env, srcs) :: IsFile(env, p)
    decreases |srcs|
  {
    if srcs != [] {
      EnqueuedFiles(env, srcs[..|srcs| - 1]);
      var s := srcs[|srcs| - 1];
      if IsDir(env, s) {
        ShellScriptsMembers(env, env.tree(s));
      }
    }
  }

  /** What parsing `p` puts on the queue. */
  function Includes(env: Env): Path -> seq<Path> {
    p => Enqueued(env, ParseFile(env, p).1)
  }

  /** Only members of `files` put anything on the queue. */
  ghost predicate Confined(files: set<Path>, next: Path -> seq<Path>) {
    forall p | p !in files :: next(p) == []
  }

  /** Parsing a path that is not a file reports nothing. */
  lemma IncludesConfined(env: Env)
    ensures Confined(env.fs.Keys, Includes(env))
  {
  }

  /** The files the walk parses, in order, when `seen` have been parsed
      already and `queue` is waiting, and parsing `p` puts `next(p)` on
      the queue. A path already seen is dropped from the queue; a new one
      is parsed and its successors join the back of the queue. */
  function Visit(files: set<Path>, next: Path -> seq<Path>, seen: set<Path>, queue: seq<Path>): seq<Path>
    requires Confined(files, next)
    decreases files - seen, |queue|
  {
    if queue == [] then []
    else
      var cur := queue[0];
      if cur in seen then Visit(files, next, seen, queue[1..])
      else [cur] + Visit(files, next, seen + {cur}, queue[1..] + next(cur))
  }

  /** Every file the walk from `root` parses, in order. */
  function Trace(env: Env, root: Path): seq<Path> {
    IncludesConfined(env);
    Visit(env.fs.Keys, Includes(env), {}, [root])
  }

  // ---------------------------------------------------------------------
  // The merge dictionary

  /** A Python dict from alias name to record, as its values in
      insertion order: the key of each value is its name. */
  type Table = seq<Alias>

  /** The position of the entry for `n`, or -1 when there is none. */
  function Find(t: Table, n: string): (i: int)
    ensures -1 <= i < |t|
    ensures i >= 0 ==> t[i].name == n
    ensures i < 0 ==> forall k | 0 <= k < |t| :: t[k].name != n
    decreases |t|
  {
    if t == [] then -1
    else if t[|t| - 1].name == n then |t| - 1
    else Find(t[..|t| - 1], n)
  }

  /** `d[a["name"]] = a`: a new key goes to the end, an existing key keeps
      its place and gets the new value. */
  function Put(t: Table, a: Alias): Table {
    var i := Find(t, a.name);
    if i >= 0 then t[i := a] else t + [a]
  }

  /** The dictionary after `merged[a["name"]] = a` for every record of
      `records`, in order, starting from an empty one. */
  function MergeAll(records: seq<Alias>): Table
    decreases |records|
  {
    if records == [] then []
    else Put(MergeAll(records[..|records| - 1]), records[|records| - 1])
  }

  /** The records of the files of `trace`, file by file. */
  function AllAliases(env: Env, trace: seq<Path>): seq<Alias>
    decreases |trace|
  {
    if trace == [] then []
    else AllAliases(env, trace[..|trace| - 1]) + ParseFile(env, trace[|trace| - 1]).0
  }

  /** The sort key: the lower-cased name. */
  function NameKey(a: Alias): seq<int> {
    Codes(Lower(a.name))
  }

  /** `collect_aliases(root)` */
  function CollectSpec(env: Env, root: Path): seq<Alias> {
    SortBy(MergeAll(AllAliases(env, Trace(env, root))), NameKey)
  }

  /** One turn of the walk. */
  lemma VisitStep(files: set<Path>, next: Path -> seq<Path>, seen: set<Path>, queue: seq<Path>)
    requires Confined(files, next) && queue != []
    ensures queue[0] in seen ==> Visit(files, next, seen, queue) == Visit(files, next, seen, queue[1..])
    ensures queue[0] !in seen ==>
              (Visit(files, next, seen, queue)
               == [queue[0]] + Visit(files, next, seen + {queue[0]}, queue[1..] + next(queue[0])))
  {
  }

  lemma Assoc<T>(a: seq<T>, b: seq<T>, c: seq<T>)
    ensures a + (b + c) == (a + b) + c
  {
  }

  lemma AllAliasesSnoc(env: Env, trace: seq<Path>, p: Path)
    ensures AllAliases(env, trace + [p]) == AllAliases(env, trace) + ParseFile(env, p).0
  {
    assert (trace + [p])[..|trace|] == trace;
  }

  /** `for a in a_list: merged[a["name"]] = a` */
  method MergeRecords(merged: Table, ghost before: seq<Alias>, records: seq<Alias>) returns (r: Table)
    requires merged == MergeAll(before)
    ensures r == MergeAll(before + records)
  {
    r := merged;
    assert before + records[..0] == before;
    for j := 0 to |records|
      invariant r == MergeAll(before + records[..j])
    {
      MergeSnoc(before, records, j);
      r := Put(r, records[j]);
    }
    assert records[..|records|] == records;
  }

  lemma MergeSnoc(before: seq<Alias>, records: seq<Alias>, j: nat)
    requires j < |records|
    ensures MergeAll(before + records[..j + 1]) == Put(MergeAll(before + records[..j]), records[j])
  {
    assert (before + records[..j + 1])[..|before| + j] == before + records[..j];
  }

  /** The loop over everything beneath an included directory: each
      regular `.zsh` or `.sh` file joins the queue. */
  method EnqueueScripts(env: Env, queue: seq<Path>, tree: seq<Path>) returns (q: seq<Path>)
    ensures q == queue + ShellScripts(env, tree)
  {
    q := queue;
    for k := 0 to |tree|
      invariant q == queue + ShellScripts(env, tree[..k])
    {
      assert tree[..k + 1][..k] == tree[..k];
      var f := tree[k];
      if IsFile(env, f) && IsShellScript(f) {
        Assoc(queue, ShellScripts(env, tree[..k]), [f]);
        q := q + [f];
      }
    }
    assert tree[..|tree|] == tree;
  }

  /** The loop over a parsed file's include targets. */
  method EnqueueIncludes(env: Env, queue: seq<Path>, srcs: seq<Path>) returns (q: seq<Path>)
    ensures q == queue + Enqueued(env, srcs)
  {
    q := queue;
    for j := 0 to |srcs|
      invariant q == queue + Enqueued(env, srcs[..j])
    {
      assert srcs[..j + 1][..j] == srcs[..j];
      ghost var q0 := q;
      var s := srcs[j];
      if IsDir(env, s) {
        q := EnqueueScripts(env, q, env.tree(s));
      } else if Exists(env, s) {
        q := q + [s];
      }
      assert q == q0 + Expand(env, s);
      Assoc(queue, Enqueued(env, srcs[..j]), Expand(env, s));
    }
    assert srcs[..|srcs|] == srcs;
  }

  method CollectAliases(env: Env, root: Path) returns (result: seq<Alias>)
    ensures result == CollectSpec(env, root)
  {
    IncludesConfined(env);
    var seen: set<Path> := {};
    var queue := [root];
    var merged: Table := [];
    ghost var done: seq<Path> := [];
    while queue != []
      invariant done + Visit(env.fs.Keys, Includes(env), seen, queue) == Trace(env, root)
      invariant merged == MergeAll(AllAliases(env, done))
      decreases env.fs.Keys - seen, |queue|
    {
      VisitStep(env.fs.Keys, Includes(env), seen, queue);
      var cur := queue[0];
      queue := queue[1..];
      if cur !in seen {
        ghost var seen0, queue0 := seen, queue;
        seen := seen + {cur};
        var aliases, srcs := ParseAliasesFromFile(env, cur);
        AllAliasesSnoc(env, done, cur);
        merged := MergeRecords(merged, AllAliases(env, done), aliases);
        queue := EnqueueIncludes(env, queue, srcs);
        Assoc(done, [cur], Visit(env.fs.Keys, Includes(env), seen, queue));
        done := done + [cur];
        WalkShrinks(env, seen0, cur, queue0, queue);
      }
    }
    assert done == Trace(env, root);
    result := SortBy(merged, NameKey);
  }

  /** Parsing a new path either removes a file from those still to be
      parsed or, for a path that is not a file, only shortens the queue. */
  lemma WalkShrinks(env: Env, seen: set<Path>, cur: Path, rest: seq<Path>, queue: seq<Path>)
    requires cur !in seen && queue == rest + Includes(env)(cur)
    ensures cur in env.fs.Keys ==> env.fs.Keys - (seen + {cur}) < env.fs.Keys - seen
    ensures cur !in env.fs.Keys ==> env.fs.Keys - (seen + {cur}) == env.fs.Keys - seen && queue == rest
  {
    IncludesConfined(env);
  }

  // ---------------------------------------------------------------------
  // Properties of the walk

  /** A file is parsed at most once, and never when it was seen before. */
  lemma {:induction false} VisitFresh(files: set<Path>, next: Path -> seq<Path>, seen: set<Path>, queue: seq<Path>)
    requires Confined(files, next)
    ensures var v := Visit(files, next, seen, queue);
            && (forall p | p in v :: p !in seen)
            && (forall i, j | 0 <= i < j < |v| :: v[i] != v[j])
    decreases files - seen, |queue|
  {
    if queue != [] {
      var cur := queue[0];
      if cur in seen {
        VisitFresh(files, next, seen, queue[1..]);
      } else {
        var rest := queue[1..] + next(cur);
        VisitFresh(files, next, seen + {cur}, rest);
        var v' := Visit(files, next, seen + {cur}, rest);
        assert Visit(files, next, seen, queue) == [cur] + v';
      }
    }
  }

  /** Everything that was waiting is parsed unless it was seen, and the
      successors of every parsed file are parsed or were seen. */
  lemma {:induction false} VisitCovers(files: set<Path>, next: Path -> seq<Path>, seen: set<Path>, queue: seq<Path>)
    requires Confined(files, next)
    ensures var v := Visit(files, next, seen, queue);
            && (forall x | x in queue :: x in seen || x in v)
            && (forall p, x | p in v && x in next(p) :: x in seen || x in v)
    decreases files - seen, |queue|
  {
    if queue != [] {
      var cur := queue[0];
      var v := Visit(files, next, seen, queue);
      assert queue == [cur] + queue[1..];
      if cur in seen {
        VisitCovers(files, next, seen, queue[1..]);
      } else {
        var rest := queue[1..] + next(cur);
        VisitCovers(files, next, seen + {cur}, rest);
        var v' := Visit(files, next, seen + {cur}, rest);
        assert v == [cur] + v';
        forall p, x | p in v && x in next(p) ensures x in seen || x in v {
          if p == cur {
            assert x in rest;
          } else {
            assert p in v';
          }
        }
      }
    }
  }

  /** Apart from what was waiting at the start, the walk parses only
      successors, so only members of `targets` when all successors are. */
  lemma {:induction false} VisitWithin(files: set<Path>, next: Path -> seq<Path>, targets: set<Path>,
                                       seen: set<Path>, queue: seq<Path>)
    requires Confined(files, next)
    requires forall p, x | x in next(p) :: x in targets
    ensures forall p | p in Visit(files, next, seen, queue) :: p in queue || p in targets
    decreases files - seen, |queue|
  {
    if queue != [] {
      var cur := queue[0];
      if cur in seen {
        VisitWithin(files, next, targets, seen, queue[1..]);
      } else {
        VisitWithin(files, next, targets, seen + {cur}, queue[1..] + next(cur));
      }
    }
  }

  /** The walk from `root` parses the root first, every file at most
      once, and, besides the root, only regular files; and it is closed
      under includes: whatever a parsed file's include targets put on
      the queue is parsed too. */
  lemma TraceProperties(env: Env, root: Path)
    ensures var tr := Trace(env, root);
            && tr != [] && tr[0] == root
            && (forall i, j | 0 <= i < j < |tr| :: tr[i] != tr[j])
            && (forall p | p in tr :: p == root || IsFile(env, p))
            && (forall p, x | p in tr && x in Enqueued(env, ParseFile(env, p).1) :: x in tr)
  {
    IncludesConfined(env);
    var files, next := env.fs.Keys, Includes(env);
    VisitFresh(files, next, {}, [root]);
    VisitCovers(files, next, {}, [root]);
    var targets := set p | p in env.fs.Keys && IsFile(env, p);
    forall p, x | x in next(p) ensures x in targets {
      EnqueuedFiles(env, ParseFile(env, p).1);
    }
    VisitWithin(files, next, targets, {}, [root]);
    var tr := Trace(env, root);
    forall p, x | p in tr && x in Enqueued(env, ParseFile(env, p).1) ensures x in tr {
      assert x in next(p);
    }
  }

  // ---------------------------------------------------------------------
  // Properties of the merge

  /** The position of the last record of `records` named `n`, or -1. */
  function LastIndex(records: seq<Alias>, n: string): (k: int)
    ensures -1 <= k < |records|
    ensures k >= 0 ==> records[k].name == n
    decreases |records|
  {
    if records == [] then -1
    else if records[|records| - 1].name == n then |records| - 1
    else LastIndex(records[..|records| - 1], n)
  }

  /** `x` is the last record of `records` with its name. */
  predicate LastOfName(records: seq<Alias>, x: Alias) {
    var k := LastIndex(records, x.name);
    k >= 0 && records[k] == x
  }

  predicate NamesDistinct(t: seq<Alias>) {
    forall i, j | 0 <= i < j < |t| :: t[i].name != t[j].name
  }

  /** No two values of the dictionary share a name. */
  lemma {:induction false} MergeNamesDistinct(records: seq<Alias>)
    ensures NamesDistinct(MergeAll(records))
    decreases |records|
  {
    if records != [] {
      var t0 := MergeAll(records[..|records| - 1]);
      MergeNamesDistinct(records[..|records| - 1]);
      var t := Put(t0, records[|records| - 1]);
      assert forall i | 0 <= i < |t0| :: t[i].name == t0[i].name;
    }
  }

  /** Lookup depends on the names only. */
  lemma {:induction false} FindByNames(t: Table, u: Table, n: string)
    requires |t| == |u| && forall i | 0 <= i < |t| :: t[i].name == u[i].name
    ensures Find(t, n) == Find(u, n)
    decreases |t|
  {
    if t != [] {
      FindByNames(t[..|t| - 1], u[..|u| - 1], n);
    }
  }

  /** Looking up any other name after `d[a["name"]] = a` finds what it
      found before. */
  lemma FindAfterPut(t: Table, a: Alias, n: string)
    requires n != a.name
    ensures Find(Put(t, a), n) == Find(t, n)
  {
    var f := Find(t, a.name);
    if f >= 0 {
      FindByNames(t[f := a], t, n);
    } else {
      assert (t + [a])[..|t|] == t;
    }
  }

  /** After `d[a["name"]] = a`, looking up that name finds `a`. */
  lemma FindPutSame(t: Table, a: Alias)
    ensures var u := Put(t, a); var i := Find(u, a.name); i >= 0 && u[i] == a
  {
    var f := Find(t, a.name);
    if f >= 0 {
      FindByNames(t[f := a], t, a.name);
    }
  }

  /** Looking up a name in the merged dictionary finds exactly the last
      record with that name: the last definition wins. */
  lemma {:induction false} MergeLookup(records: seq<Alias>, n: string)
    ensures var t := MergeAll(records); var i := Find(t, n); var k := LastIndex(records, n);
            && (i >= 0 <==> k >= 0)
            && (i >= 0 ==> t[i] == records[k])
    decreases |records|
  {
    if records != [] {
      var init := records[..|records| - 1];
      var a := records[|records| - 1];
      MergeLookup(init, n);
      if n != a.name {
        FindAfterPut(MergeAll(init), a, n);
      } else {
        FindPutSame(MergeAll(init), a);
      }
    }
  }

  /** The dictionary's values are exactly the records that are the last
      with their name. */
  lemma MergeValues(records: seq<Alias>, x: Alias)
    ensures x in MergeAll(records) <==> LastOfName(records, x)
  {
    var t := MergeAll(records);
    MergeLookup(records, x.name);
    if x in t {
      var i :| 0 <= i < |t| && t[i] == x;
      MergeNamesDistinct(records);
      FindDistinct(t, i);
    }
  }

  /** In a dictionary, lookup of an entry's name finds that entry. */
  lemma {:induction false} FindDistinct(t: Table, i: nat)
    requires NamesDistinct(t) && i < |t|
    ensures Find(t, t[i].name) == i
    decreases |t|
  {
    if i < |t| - 1 {
      assert NamesDistinct(t[..|t| - 1]);
      FindDistinct(t[..|t| - 1], i);
    }
  }

  /** Names in order of their first appearance, each once. */
  function FirstSeen(names: seq<string>): seq<string>
    decreases |names|
  {
    if names == [] then []
    else
      var init := FirstSeen(names[..|names| - 1]);
      var last := names[|names| - 1];
      if last in names[..|names| - 1] then init else init + [last]
  }

  function Names(records: seq<Alias>): (r: seq<string>)
    ensures |r| == |records| && forall k | 0 <= k < |records| :: r[k] == records[k].name
  {
    seq(|records|, k requires 0 <= k < |records| => records[k].name)
  }

  /** A name has a last record exactly when some record carries it. */
  lemma {:induction false} LastIndexFound(records: seq<Alias>, n: string)
    ensures LastIndex(records, n) >= 0 <==> n in Names(records)
    decreases |records|
  {
    if records != [] {
      var init := records[..|records| - 1];
      LastIndexFound(init, n);
      assert Names(records) == Names(init) + [records[|records| - 1].name];
    }
  }

  /** The dictionary keeps its keys in the order the names were first
      defined, which is the order `sorted` keeps for names that differ
      only in letter case. */
  lemma {:induction false} MergeKeysFirstSeen(records: seq<Alias>)
    ensures Names(MergeAll(records)) == FirstSeen(Names(records))
    decreases |records|
  {
    if records != [] {
      var init := records[..|records| - 1];
      var a := records[|records| - 1];
      var t0 := MergeAll(init);
      MergeKeysFirstSeen(init);
      MergeLookup(init, a.name);
      LastIndexFound(init, a.name);
      assert Names(records)[..|records| - 1] == Names(init);
      var f := Find(t0, a.name);
      if f >= 0 {
        assert Names(t0[f := a]) == Names(t0);
      } else {
        assert Names(t0 + [a]) == Names(t0) + [a.name];
      }
    }
  }

  // ---------------------------------------------------------------------
  // Properties of the result

  /** The result is ordered by lower-cased name. */
  lemma CollectSorted(env: Env, root: Path)
    ensures SortedBy(CollectSpec(env, root), NameKey)
  {
    SortBySorted(MergeAll(AllAliases(env, Trace(env, root))), NameKey);
  }

  /** The result holds exactly the last record of every name defined
      anywhere in the walk. */
  lemma CollectMembers(env: Env, root: Path, x: Alias)
    ensures x in CollectSpec(env, root) <==> LastOfName(AllAliases(env, Trace(env, root)), x)
  {
    var records := AllAliases(env, Trace(env, root));
    SortByPermutes(MergeAll(records), NameKey);
    MergeValues(records, x);
    assert x in CollectSpec(env, root) <==> x in multiset(CollectSpec(env, root));
  }

  /** No name occurs twice in the result. */
  lemma CollectNamesUnique(env: Env, root: Path)
    ensures NamesDistinct(CollectSpec(env, root))
  {
    var records := AllAliases(env, Trace(env, root));
    var t := MergeAll(records);
    var r := CollectSpec(env, root);
    MergeNamesDistinct(records);
    SortByPermutes(t, NameKey);
    forall i, j | 0 <= i < j < |r| ensures r[i].name != r[j].name {
      if r[i].name == r[j].name {
        CollectMembers(env, root, r[i]);
        CollectMembers(env, root, r[j]);
        DistinctCount(t, r[i]);
        RepeatCount(r, i, j);
      }
    }
  }

  lemma {:induction false} DistinctCount(t: seq<Alias>, x: Alias)
    requires NamesDistinct(t)
    ensures multiset(t)[x] <= 1
    decreases |t|
  {
    if t != [] {
      var init := t[..|t| - 1];
      assert NamesDistinct(init);
      DistinctCount(init, x);
      assert t == init + [t[|t| - 1]];
      if t[|t| - 1] == x {
        assert x !in init by {
          forall i | 0 <= i < |init| ensures init[i] != x {
            assert init[i] == t[i];
          }
        }
      }
    }
  }

  lemma RepeatCount(r: seq<Alias>, i: nat, j: nat)
    requires i < j < |r| && r[i] == r[j]
    ensures multiset(r)[r[i]] >= 2
  {
    assert r == r[..j] + r[j..];
    assert r[i] == r[..j][i];
    assert r[j] == r[j..][0];
  }

  /** Records whose names are equal apart from letter case come out in
      the order their names were first defined. */
  lemma CollectStable(env: Env, root: Path, k: seq<int>)
    ensures WithKey(CollectSpec(env, root), NameKey, k) == WithKey(MergeAll(AllAliases(env, Trace(env, root))), NameKey, k)
  {
    SortByStable(MergeAll(AllAliases(env, Trace(env, root))), NameKey, k);
  }
}
