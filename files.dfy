/** The file system and environment as the indexer sees them.

    Paths are plain strings compared by value, as `pathlib.Path` objects
    are hashed and compared by the indexer. The primitives the indexer
    calls but does not define (`expand_path`, `Path.glob`, `Path.parent`)
    are oracles carried in `Env`; `exists`, `is_file` and `is_dir` read
    the finite map `fs`. */
module FileSystem {

  type Path = string

  /** What a path names: a regular file with its decoded text, or a directory. */
  datatype Node = File(text: string) | Dir

  datatype Env = Env(
    fs: map<Path, Node>,
    // expand_path(p, base_dir): variables and `~` expanded, relative
    // paths resolved against base_dir
    expand: (string, Path) -> Path,
    // sorted(Path(dir).glob(pattern)); a glob that raises yields [],
    // which is all the caller's `try` leaves behind
    glob: (Path, string) -> seq<Path>,
    // sorted(d.glob("**/*")): everything beneath a directory
    tree: Path -> seq<Path>,
    // Path.parent
    parent: Path -> Path
  )

  predicate Exists(env: Env, p: Path) {
    p in env.fs
  }

  predicate IsFile(env: Env, p: Path) {
    p in env.fs && env.fs[p].File?
  }

  predicate IsDir(env: Env, p: Path) {
    p in env.fs && env.fs[p].Dir?
  }

  /** `os.path.isabs` on POSIX. */
  predicate IsAbs(p: string) {
    |p| > 0 && p[0] == '/'
  }

  /** `p.rfind('/') + 1`: the index just past the last '/', 0 without one. */
  function AfterLastSlash(p: string): (i: nat)
    ensures i <= |p|
    ensures i > 0 ==> p[i - 1] == '/'
    ensures forall k | i <= k < |p| :: p[k] != '/'
    decreases |p|
  {
    if p == [] then 0
    else if p[|p| - 1] == '/' then |p|
    else AfterLastSlash(p[..|p| - 1])
  }

  /** `os.path.basename` */
  function BaseName(p: string): string {
    p[AfterLastSlash(p)..]
  }

  /** `s.rstrip('/')` */
  function TrimTrailingSlashes(s: string): (r: string)
    ensures |r| <= |s| && r == s[..|r|]
    ensures r == [] || r[|r| - 1] != '/'
    ensures forall k | |r| <= k < |s| :: s[k] == '/'
    decreases |s|
  {
    if s != [] && s[|s| - 1] == '/' then TrimTrailingSlashes(s[..|s| - 1]) else s
  }

  /** `os.path.dirname`: everything up to the last '/', without the
      trailing slashes unless it consists of slashes only. */
  function DirName(p: string): string {
    var head := p[..AfterLastSlash(p)];
    if head != [] && (exists k | 0 <= k < |head| :: head[k] != '/') then TrimTrailingSlashes(head)
    else head
  }

  /** dirname and basename take apart what joining with '/' put together. */
  lemma DirBaseOfJoin(d: string, b: string)
    requires d != [] && d[|d| - 1] != '/'
    requires forall k | 0 <= k < |b| :: b[k] != '/'
    ensures DirName(d + "/" + b) == d && BaseName(d + "/" + b) == b
  {
    var p := d + "/" + b;
    var i := AfterLastSlash(p);
    assert p[|d|] == '/';
    assert forall k | |d| < k < |p| :: p[k] == b[k - |d| - 1];
    var head := p[..i];
    assert head == d + "/";
    assert head[|d| - 1] != '/';
    var r := TrimTrailingSlashes(head);
    assert r == d;
    assert p[i..] == b;
  }

  /** The index of the last '.' in `s`, or -1: `s.rfind('.')`. */
  function LastDot(s: string): (i: int)
    ensures -1 <= i < |s|
    ensures i >= 0 ==> s[i] == '.'
    ensures forall k | i < k < |s| :: s[k] != '.'
    decreases |s|
  {
    if s == [] then -1
    else if s[|s| - 1] == '.' then |s| - 1
    else LastDot(s[..|s| - 1])
  }

  /** `PurePath.suffix` of a file name: from its last '.', unless that dot
      begins the name or ends it. */
  function Suffix(name: string): string {
    var i := LastDot(name);
    if 0 < i < |name| - 1 then name[i..] else ""
  }

  /** `f.suffix in (".zsh", ".sh")` */
  predicate IsShellScript(p: Path) {
    Suffix(BaseName(p)) == ".zsh" || Suffix(BaseName(p)) == ".sh"
  }

  /** A `.zsh` script is one whose name ends in ".zsh" and has at least one
      character before that ending (a bare ".zsh" has no suffix). */
  lemma ZshSuffixIff(name: string)
    ensures Suffix(name) == ".zsh" <==> |name| > 4 && name[|name| - 4..] == ".zsh"
  {
    var i := LastDot(name);
    if |name| > 4 && name[|name| - 4..] == ".zsh" {
      assert name[|name| - 4] == '.';
      assert forall k | |name| - 4 < k < |name| :: name[k] == name[|name| - 4..][k - (|name| - 4)];
    }
    if Suffix(name) == ".zsh" {
      assert |name[i..]| == 4;
    }
  }
}
