/**
 * An abstract filesystem and the shell commands script/files.ts runs on it:
 * `mkdir -p`, `test -e || test -L`, `readlink`, `rm -rf` and `ln -sfn`.
 */
module Shell {
  import opened Wrappers

  /** An absolute path as its components below "/"; [] is "/" itself. */
  type Path = seq<string>

  datatype Node = File | Dir | Symlink(target: string)

  /** What each path holds.  "/" is an implicit directory and never a key. */
  type Fs = map<Path, Node>

  /** A filesystem tree: every proper ancestor of a key is a directory. */
  predicate WellFormed(fs: Fs) {
    [] !in fs &&
    forall p, k :: p in fs && 1 <= k < |p| ==> p[..k] in fs && fs[p[..k]] == Dir
  }

  /** `dirname` */
  function Dirname(p: Path): (d: Path)
    ensures p != [] ==> |d| == |p| - 1 && d < p
  {
    if p == [] then [] else p[..|p| - 1]
  }

  /** The directories `mkdir -p d` must find or create: the nonempty prefixes of `d`. */
  function Ancestry(d: Path): (r: set<Path>)
    ensures forall q :: q in r <==> q != [] && q <= d
  {
    var r := set k | 1 <= k <= |d| :: d[..k];
    assert forall q :: q != [] && q <= d ==> q == d[..|q|];
    r
  }

  /** A prefix of a prefix is a prefix. */
  lemma PrefixTransitive(a: Path, b: Path, c: Path)
    requires a <= b && b <= c
    ensures a <= c
  {
    assert c[..|a|] == c[..|b|][..|a|];
  }

  /** Putting the same directory in front keeps and reflects the prefix order. */
  lemma PrefixUnder(home: Path, a: Path, b: Path)
    ensures home + a <= home + b <==> a <= b
  {
    if a <= b {
      assert (home + b)[..|home + a|] == home + b[..|a|];
    }
    if home + a <= home + b {
      assert forall i :: 0 <= i < |a| ==> a[i] == (home + a)[|home| + i] == (home + b)[|home| + i] == b[i];
      assert b[..|a|] == a;
    }
  }

  /** `d` and all its ancestors below "/" are directories of `fs`. */
  predicate DirsAlong(fs: Fs, d: Path) {
    forall k :: 1 <= k <= |d| ==> d[..k] in fs && fs[d[..k]] == Dir
  }

  /** Some prefix of `d` exists and is not a directory, so `mkdir -p d` fails. */
  predicate MkdirBlocked(fs: Fs, d: Path) {
    exists k :: 1 <= k <= |d| && d[..k] in fs && fs[d[..k]] != Dir
  }

  /**
   * `mkdir -p d`: creates every missing directory along `d` and keeps what
   * exists; None when the command fails.
   */
  function MkdirP(fs: Fs, d: Path): (r: Option<Fs>)
    ensures r.None? <==> MkdirBlocked(fs, d)
    ensures r.Some? ==> DirsAlong(r.value, d)
    ensures r.Some? ==> forall p :: p in fs ==> p in r.value && r.value[p] == fs[p]
    ensures r.Some? ==> forall p :: p in r.value && p !in fs ==> p in Ancestry(d)
  {
    if MkdirBlocked(fs, d) then None
    else
      var made := map p | p in fs.Keys + Ancestry(d) :: if p in fs then fs[p] else Dir;
      assert forall k :: 1 <= k <= |d| ==> d[..k] in Ancestry(d);
      Some(made)
  }

  /** Where every directory along `d` already exists, `mkdir -p d` changes nothing. */
  lemma MkdirPExisting(fs: Fs, d: Path)
    requires DirsAlong(fs, d)
    ensures MkdirP(fs, d) == Some(fs)
  {
    assert !MkdirBlocked(fs, d);
    var made := MkdirP(fs, d).value;
    assert made.Keys == fs.Keys;
    assert made == fs;
  }

  /**
   * `test -e p || test -L p`.  Every kind of node at `p` passes: a link,
   * even one whose target is missing, passes `test -L`, so link targets need
   * no resolving here.
   */
  predicate Exists(fs: Fs, p: Path) {
    p in fs
  }

  /** `readlink p`: the target and a newline on standard output, None when `p` is not a link. */
  function ReadLink(fs: Fs, p: Path): (r: Option<string>)
    ensures r.Some? <==> p in fs && fs[p].Symlink?
    ensures r.Some? ==> r.value == fs[p].target + "\n"
  {
    if p in fs && fs[p].Symlink? then Some(fs[p].target + "\n") else None
  }

  /** `rm -rf p`: `p` and everything below it disappear, nothing else changes. */
  function RemoveTree(fs: Fs, p: Path): (r: Fs)
    ensures forall q :: q in r <==> q in fs && !(p <= q)
    ensures forall q :: q in r ==> r[q] == fs[q]
  {
    map q | q in fs && !(p <= q) :: fs[q]
  }

  /** `ln -sfn target p`: `p` becomes a link to the string `target`. */
  function Link(fs: Fs, target: string, p: Path): (r: Fs)
    ensures p in r && r[p] == Symlink(target)
    ensures forall q :: q != p ==> (q in r <==> q in fs) && (q in fs ==> r[q] == fs[q])
  {
    fs[p := Symlink(target)]
  }
}
