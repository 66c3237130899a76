/**
 * script/files.ts: link every configuration file of the repository into
 * the home directory.  The filesystem, the home directory and the
 * repository root are parameters; the script's shell commands are the
 * functions of module Shell.
 */
module Files {
  import opened Wrappers
  import opened Shell

  /**
   * One `[source, destination]` row of the tables: the source relative to
   * the repository root and the destination relative to the home
   * directory, each as its path components.
   */
  datatype LinkSpec = LinkSpec(src: Path, dst: Path)

  /** `links`: the entries every platform gets. */
  const Links: seq<LinkSpec> := [
    LinkSpec(["tools", "starship.toml"], [".config", "starship.toml"]),
    LinkSpec(["tools", "gitconfig"], [".gitconfig"]),
    LinkSpec(["tools", "aliases.sh"], [".config", "box", "aliases.sh"]),
    LinkSpec(["tools", "ssh", "config"], [".ssh", "config"]),
    LinkSpec(["tools", "gh", "config.yml"], [".config", "gh", "config.yml"]),
    LinkSpec(["tools", "CLAUDE.md"], [".claude", "CLAUDE.md"]),
    LinkSpec(["tools", "zed", "settings.json"], [".config", "zed", "settings.json"])
  ]

  /** `macos_links`: the entries added on macOS. */
  const MacosLinks: seq<LinkSpec> := [
    LinkSpec(["tools", "karabiner.json"], [".config", "karabiner", "karabiner.json"]),
    LinkSpec(["tools", "cursor", "settings.json"],
             ["Library", "Application Support", "Cursor", "User", "settings.json"]),
    LinkSpec(["tools", "cursor", "keybindings.json"],
             ["Library", "Application Support", "Cursor", "User", "keybindings.json"]),
    LinkSpec(["tools", "windsurf", "settings.json"],
             ["Library", "Application Support", "Windsurf", "User", "settings.json"]),
    LinkSpec(["tools", "vscode", "settings.json"],
             ["Library", "Application Support", "Code", "User", "settings.json"]),
    LinkSpec(["tools", "warp", "keybindings.yaml"], [".warp", "keybindings.yaml"]),
    LinkSpec(["tools", "claude.json"], [".claude", "settings.json"])
  ]

  /** `all_links`, chosen once by the platform. */
  function AllLinks(isMacos: bool): (r: seq<LinkSpec>)
    ensures |r| == if isMacos then 14 else 7
    ensures r[..|Links|] == Links
    ensures isMacos ==> r[|Links|..] == MacosLinks
    ensures !isMacos ==> r == Links
  {
    if isMacos then Links + MacosLinks else Links
  }

  // ---------------------------------------------------------------------
  // Paths as strings, and `.trim()`

  /** The string form of an absolute path, as `path.join` produces it. */
  function Render(p: Path): (s: string)
    ensures s != [] && s[0] == '/'
    ensures p != [] && p[|p| - 1] != [] ==> s[|s| - 1] == p[|p| - 1][|p[|p| - 1]| - 1]
  {
    if p == [] then "/"
    else if |p| == 1 then "/" + p[0]
    else Render(p[..|p| - 1]) + "/" + p[|p| - 1]
  }

  /** `src_path`: the string the link is created with and compared against. */
  function SrcPath(root: Path, e: LinkSpec): string {
    Render(root + e.src)
  }

  /** `dst_path` */
  function DstPath(home: Path, e: LinkSpec): Path {
    home + e.dst
  }

  /** The white space and line terminators JavaScript's `String.prototype.trim` removes. */
  predicate IsJsSpace(c: char) {
    ('\U{09}' <= c <= '\U{0D}') || c == ' ' || c == '\U{A0}' || c == '\U{1680}' ||
    ('\U{2000}' <= c <= '\U{200A}') || c == '\U{2028}' || c == '\U{2029}' ||
    c == '\U{202F}' || c == '\U{205F}' || c == '\U{3000}' || c == '\U{FEFF}'
  }

  function TrimStart(s: string): (t: string)
    ensures t == [] || !IsJsSpace(t[0])
  {
    if s != [] && IsJsSpace(s[0]) then TrimStart(s[1..]) else s
  }

  function TrimEnd(s: string): (t: string)
    ensures t == [] || !IsJsSpace(t[|t| - 1])
  {
    if s != [] && IsJsSpace(s[|s| - 1]) then TrimEnd(s[..|s| - 1]) else s
  }

  /** Trimming the end leaves a prefix. */
  lemma {:induction false} TrimEndPrefix(s: string)
    ensures TrimEnd(s) <= s
  {
    if s != [] && IsJsSpace(s[|s| - 1]) {
      TrimEndPrefix(s[..|s| - 1]);
    }
  }

  /** Trimming the end stops at a character that is not white space. */
  lemma {:induction false} TrimEndKeeps(s: string, k: nat)
    requires k < |s| && !IsJsSpace(s[k])
    ensures k < |TrimEnd(s)|
  {
    if IsJsSpace(s[|s| - 1]) {
      TrimEndKeeps(s[..|s| - 1], k);
    }
  }

  /** `.trim()` */
  function Trim(s: string): (t: string)
    ensures t == [] || (!IsJsSpace(t[0]) && !IsJsSpace(t[|t| - 1]))
  {
    var u := TrimStart(s);
    TrimEndPrefix(u);
    TrimEnd(u)
  }

  /** Stripping the start leaves a suffix, and removes only white space. */
  lemma {:induction false} TrimStartSuffix(s: string)
    ensures var t := TrimStart(s);
      |t| <= |s| && t == s[|s| - |t|..] && forall k :: 0 <= k < |s| - |t| ==> IsJsSpace(s[k])
  {
    if s != [] && IsJsSpace(s[0]) {
      TrimStartSuffix(s[1..]);
    }
  }

  /** Stripping the end removes only white space. */
  lemma {:induction false} TrimEndRemovesSpace(s: string)
    ensures |TrimEnd(s)| <= |s| && forall k :: |TrimEnd(s)| <= k < |s| ==> IsJsSpace(s[k])
  {
    if s != [] && IsJsSpace(s[|s| - 1]) {
      TrimEndRemovesSpace(s[..|s| - 1]);
    }
  }

  /**
   * What `Trim` keeps is a slice of `s` whose ends are not white space,
   * and everything it removes before and after that slice is white space.
   */
  lemma TrimRemovesOnlySpace(s: string)
    ensures var i, t := |s| - |TrimStart(s)|, Trim(s);
      0 <= i && i + |t| <= |s| && t == s[i..i + |t|] &&
      (forall k :: 0 <= k < i ==> IsJsSpace(s[k])) &&
      (forall k :: i + |t| <= k < |s| ==> IsJsSpace(s[k]))
  {
    var u := TrimStart(s);
    var i := |s| - |u|;
    TrimStartSuffix(s);
    TrimEndPrefix(u);
    TrimEndRemovesSpace(u);
    var t := Trim(s);
    assert t == u[..|t|];
    forall k | i + |t| <= k < |s|
      ensures IsJsSpace(s[k])
    {
      assert s[k] == u[k - i];
    }
  }

  /** Trimming `readlink`'s output of a link to `s` gives `s` back when `s` has no white space at its ends. */
  lemma TrimReadLinkOutput(s: string)
    requires s != [] && !IsJsSpace(s[0]) && !IsJsSpace(s[|s| - 1])
    ensures Trim(s + "\n") == s
  {
    var t := s + "\n";
    assert t[0] == s[0];
    assert TrimStart(t) == t;
    assert t[..|t| - 1] == s;
    assert TrimEnd(t) == TrimEnd(s);
  }

  // ---------------------------------------------------------------------
  // One entry of the loop

  /** `readlink` succeeds on `dst` and its trimmed output is `srcPath`: the `continue` test. */
  predicate AlreadyLinked(fs: Fs, dst: Path, srcPath: string) {
    var out := ReadLink(fs, dst);
    out.Some? && Trim(out.value) == srcPath
  }

  /** How one entry ends: the run aborts, or goes on with a new filesystem, relinked or skipped. */
  datatype Step = Abort | Done(fs: Fs, relinked: bool)

  /**
   * The loop body for one entry: `mkdir -p` the destination directory (a
   * failure throws), then skip if already linked, else remove whatever is
   * there and link.
   */
  function Reconcile(fs: Fs, srcPath: string, dst: Path): (r: Step)
    ensures r.Abort? <==> MkdirBlocked(fs, Dirname(dst))
    ensures r.Done? ==> dst in r.fs && r.fs[dst].Symlink?
  {
    match MkdirP(fs, Dirname(dst))
    case None => Abort
    case Some(made) =>
      if Exists(made, dst) && AlreadyLinked(made, dst, srcPath) then Done(made, false)
      else if Exists(made, dst) then Done(Link(RemoveTree(made, dst), srcPath, dst), true)
      else Done(Link(made, srcPath, dst), true)
  }

  /**
   * After an entry, the destination directory exists and the destination
   * is a link that passes the `continue` test; a (re)created link points
   * exactly at `srcPath`.
   */
  lemma ReconcileLinks(fs: Fs, srcPath: string, dst: Path)
    requires dst != []
    requires Reconcile(fs, srcPath, dst).Done?
    ensures var r := Reconcile(fs, srcPath, dst);
      DirsAlong(r.fs, Dirname(dst)) &&
      dst in r.fs && r.fs[dst].Symlink? &&
      (r.relinked ==> r.fs[dst] == Symlink(srcPath)) &&
      (!r.relinked ==> Trim(r.fs[dst].target + "\n") == srcPath)
  {
    var made := MkdirP(fs, Dirname(dst)).value;
    var r := Reconcile(fs, srcPath, dst);
    forall k | 1 <= k <= |Dirname(dst)|
      ensures Dirname(dst)[..k] in r.fs && r.fs[Dirname(dst)[..k]] == Dir
    {
      var q := Dirname(dst)[..k];
      assert q in made && made[q] == Dir;
      assert |q| < |dst|;
      assert !(dst <= q);
    }
  }

  /**
   * A destination that is already a link passing the `continue` test, in a
   * well-formed tree, makes the entry change nothing at all.
   */
  lemma ReconcileSkip(fs: Fs, srcPath: string, dst: Path)
    requires WellFormed(fs)
    requires dst in fs && AlreadyLinked(fs, dst, srcPath)
    ensures Reconcile(fs, srcPath, dst) == Done(fs, false)
  {
    assert dst != [];
    forall k | 1 <= k <= |Dirname(dst)|
      ensures Dirname(dst)[..k] in fs && fs[Dirname(dst)[..k]] == Dir
    {
      assert Dirname(dst)[..k] == dst[..k];
    }
    MkdirPExisting(fs, Dirname(dst));
  }

  /**
   * An existing destination that fails the test (a file, a directory, a
   * link elsewhere or a missing target's link) is removed with everything
   * below it and replaced by the link; no backup or other new path appears.
   */
  lemma ReconcileReplace(fs: Fs, srcPath: string, dst: Path)
    requires dst in fs && !AlreadyLinked(fs, dst, srcPath)
    requires !MkdirBlocked(fs, Dirname(dst))
    ensures var made := MkdirP(fs, Dirname(dst)).value;
      Reconcile(fs, srcPath, dst) == Done(Link(RemoveTree(made, dst), srcPath, dst), true)
    ensures var r := Reconcile(fs, srcPath, dst).fs;
      (forall p :: dst < p ==> p !in r) &&
      (forall p :: p in r && p !in fs ==> p == dst || p in Ancestry(Dirname(dst)))
  {
    var made := MkdirP(fs, Dirname(dst)).value;
    assert made[dst] == fs[dst];
    assert ReadLink(made, dst) == ReadLink(fs, dst);
  }

  /**
   * Nothing else changes: a path that is neither below the destination nor
   * one of its created ancestors keeps its node (or its absence), and an
   * ancestor that existed before is untouched.
   */
  lemma ReconcileFrame(fs: Fs, srcPath: string, dst: Path, p: Path)
    requires Reconcile(fs, srcPath, dst).Done?
    ensures var r := Reconcile(fs, srcPath, dst).fs;
      (!(dst <= p) && p !in Ancestry(Dirname(dst)) ==>
        (p in r <==> p in fs) && (p in fs ==> r[p] == fs[p])) &&
      (p in Ancestry(Dirname(dst)) && p in fs && p != dst ==> p in r && r[p] == fs[p])
  {
    var made := MkdirP(fs, Dirname(dst)).value;
    if p in Ancestry(Dirname(dst)) && p in fs && p != dst {
      var k :| 1 <= k <= |Dirname(dst)| && p == Dirname(dst)[..k];
      assert |p| < |dst| || dst == [];
    }
  }

  /** An entry keeps the filesystem a well-formed tree. */
  lemma ReconcileWellFormed(fs: Fs, srcPath: string, dst: Path)
    requires WellFormed(fs) && dst != []
    requires Reconcile(fs, srcPath, dst).Done?
    ensures WellFormed(Reconcile(fs, srcPath, dst).fs)
  {
    var d := Dirname(dst);
    var made := MkdirP(fs, d).value;
    assert WellFormed(made) by {
      forall p, k | p in made && 1 <= k < |p|
        ensures p[..k] in made && made[p[..k]] == Dir
      {
        if p !in fs {
          var m :| 1 <= m <= |d| && p == d[..m];
          assert p[..k] == d[..k];
        }
      }
    }
    var r := Reconcile(fs, srcPath, dst).fs;
    forall p, k | p in r && 1 <= k < |p|
      ensures p[..k] in r && r[p[..k]] == Dir
    {
      if p == dst {
        assert p[..k] == d[..k];
        ReconcileLinks(fs, srcPath, dst);
      } else {
        assert p in made;
        assert p[..k] in made && made[p[..k]] == Dir;
        if dst <= p[..k] {
          assert dst <= p;
        }
        assert p[..k] != dst;
      }
    }
  }

  // ---------------------------------------------------------------------
  // The whole run

  /** No destination is, or lies below, another destination of the same list. */
  predicate NoNesting(es: seq<LinkSpec>) {
    forall j, k :: 0 <= j < |es| && 0 <= k < |es| && j != k ==> !(es[j].dst <= es[k].dst)
  }

  /** A source whose last path component ends in a character `.trim()` keeps. */
  predicate PlainSource(e: LinkSpec) {
    e.src != [] && e.src[|e.src| - 1] != [] && !IsJsSpace(e.src[|e.src| - 1][|e.src[|e.src| - 1]| - 1])
  }

  /** The filesystem so far; Stopped when entry `at` aborted the run. */
  datatype Run = Running(fs: Fs) | Stopped(fs: Fs, at: nat)

  /** The state after the loop has handled the entries `es` in order. */
  function RunAll(fs: Fs, home: Path, root: Path, es: seq<LinkSpec>): (r: Run)
    ensures r.Stopped? ==> r.at < |es|
  {
    if es == [] then Running(fs)
    else
      match RunAll(fs, home, root, es[..|es| - 1])
      case Stopped(f, at) => Stopped(f, at)
      case Running(f) =>
        var e := es[|es| - 1];
        match Reconcile(f, SrcPath(root, e), DstPath(home, e))
        case Abort => Stopped(f, |es| - 1)
        case Done(f', _) => Running(f')
  }

  /** Once stopped, later entries are not reached. */
  lemma {:induction false} RunAllStopped(fs: Fs, home: Path, root: Path, es: seq<LinkSpec>, n: nat)
    requires n <= |es| && RunAll(fs, home, root, es[..n]).Stopped?
    ensures RunAll(fs, home, root, es) == RunAll(fs, home, root, es[..n])
  {
    if n == |es| {
      assert es[..n] == es;
    } else {
      var init := es[..|es| - 1];
      assert init[..n] == es[..n];
      RunAllStopped(fs, home, root, init, n);
    }
  }

  /** The state after entry `i` follows from the state before it by one Reconcile. */
  lemma RunAllStep(fs: Fs, home: Path, root: Path, es: seq<LinkSpec>, i: nat)
    requires i < |es| && RunAll(fs, home, root, es[..i]).Running?
    ensures var f := RunAll(fs, home, root, es[..i]).fs;
      RunAll(fs, home, root, es[..i + 1]) ==
        match Reconcile(f, SrcPath(root, es[i]), DstPath(home, es[i]))
        case Abort => Stopped(f, i)
        case Done(f', _) => Running(f')
  {
    assert es[..i + 1][..i] == es[..i];
  }

  /**
   * One turn of the loop body for `srcPath` and `dstPath`; `ok` is false when
   * `mkdir -p` threw, and the `continue` is the early return.
   */
  method ReconcileOne(fs0: Fs, srcPath: string, dstPath: Path) returns (fs: Fs, ok: bool)
    ensures ok <==> Reconcile(fs0, srcPath, dstPath).Done?
    ensures ok ==> fs == Reconcile(fs0, srcPath, dstPath).fs
  {
    var made := MkdirP(fs0, Dirname(dstPath));
    if made.None? {
      return fs0, false;
    }
    fs := made.value;
    if Exists(fs, dstPath) {
      var link := ReadLink(fs, dstPath);
      if link.Some? && Trim(link.value) == srcPath {
        return fs, true;
      }
      fs := RemoveTree(fs, dstPath);
    }
    fs := Link(fs, srcPath, dstPath);
    ok := true;
  }

  /**
   * The `for (const [src, dst] of all_links)` loop over the entries `es`;
   * `completed` is false when a command threw and ended the script.
   */
  method ReconcileEntries(fs0: Fs, home: Path, root: Path, es: seq<LinkSpec>) returns (fs: Fs, completed: bool)
    ensures fs == RunAll(fs0, home, root, es).fs
    ensures completed <==> RunAll(fs0, home, root, es).Running?
  {
    fs := fs0;
    var i := 0;
    while i < |es|
      invariant 0 <= i <= |es|
      invariant RunAll(fs0, home, root, es[..i]) == Running(fs)
    {
      var e := es[i];
      var srcPath := Render(root + e.src);
      var dstPath := home + e.dst;
      RunAllStep(fs0, home, root, es, i);
      var next, ok := ReconcileOne(fs, srcPath, dstPath);
      if !ok {
        RunAllStopped(fs0, home, root, es, i + 1);
        return fs, false;
      }
      fs := next;
      i := i + 1;
    }
    assert es[..i] == es;
    completed := true;
  }

  /**
   * The whole script: choose `all_links`, run the loop, and report the
   * count of the final log line (None when a command threw before it).
   */
  method LinkFiles(fs0: Fs, home: Path, root: Path, isMacos: bool) returns (fs: Fs, reported: Option<nat>)
    ensures fs == RunAll(fs0, home, root, AllLinks(isMacos)).fs
    ensures reported.Some? <==> RunAll(fs0, home, root, AllLinks(isMacos)).Running?
    ensures reported.Some? ==> reported.value == if isMacos then 14 else 7
  {
    var allLinks := AllLinks(isMacos);
    var completed;
    fs, completed := ReconcileEntries(fs0, home, root, allLinks);
    reported := if completed then Some(|allLinks|) else None;
  }

  // ---------------------------------------------------------------------
  // Properties of the whole run

  /** What an entry leaves behind: its directory, and a link that passes the `continue` test. */
  predicate Settled(fs: Fs, srcPath: string, dst: Path) {
    DirsAlong(fs, Dirname(dst)) && dst in fs && AlreadyLinked(fs, dst, srcPath)
  }

  /** A settled entry takes the `continue` branch and changes nothing. */
  lemma SettledSkips(fs: Fs, srcPath: string, dst: Path)
    requires Settled(fs, srcPath, dst)
    ensures Reconcile(fs, srcPath, dst) == Done(fs, false)
  {
    MkdirPExisting(fs, Dirname(dst));
  }

  /** An entry that completes is settled afterwards, provided `.trim()` leaves its source path alone. */
  lemma ReconcileSettles(fs: Fs, srcPath: string, dst: Path)
    requires dst != [] && Reconcile(fs, srcPath, dst).Done?
    requires Trim(srcPath + "\n") == srcPath
    ensures Settled(Reconcile(fs, srcPath, dst).fs, srcPath, dst)
  {
    ReconcileLinks(fs, srcPath, dst);
  }

  /** An entry leaves every other, non-nested, settled entry settled. */
  lemma ReconcileKeepsSettled(fs: Fs, srcPath: string, dst: Path, otherSrc: string, other: Path)
    requires Reconcile(fs, srcPath, dst).Done?
    requires Settled(fs, otherSrc, other)
    requires !(dst <= other) && !(other <= dst)
    ensures Settled(Reconcile(fs, srcPath, dst).fs, otherSrc, other)
  {
    var r := Reconcile(fs, srcPath, dst).fs;
    ReconcileFrame(fs, srcPath, dst, other);
    assert other !in Ancestry(Dirname(dst)) by {
      if other in Ancestry(Dirname(dst)) {
        PrefixTransitive(other, Dirname(dst), dst);
      }
    }
    forall k | 1 <= k <= |Dirname(other)|
      ensures Dirname(other)[..k] in r && r[Dirname(other)[..k]] == Dir
    {
      var q := Dirname(other)[..k];
      ReconcileFrame(fs, srcPath, dst, q);
      assert q <= other;
      if dst <= q {
        PrefixTransitive(dst, q, other);
      }
    }
    assert ReadLink(r, other) == ReadLink(fs, other);
  }

  /** The entries that every completed run settles: non-nested destinations, plain sources. */
  predicate Reconcilable(es: seq<LinkSpec>) {
    NoNesting(es) && forall k :: 0 <= k < |es| ==> PlainSource(es[k]) && es[k].dst != []
  }

  /** `.trim()` leaves a plain source's path alone, whatever the root. */
  lemma PlainSourceTrims(root: Path, e: LinkSpec)
    requires PlainSource(e)
    ensures Trim(SrcPath(root, e) + "\n") == SrcPath(root, e)
  {
    var p := root + e.src;
    assert p[|p| - 1] == e.src[|e.src| - 1];
    TrimReadLinkOutput(Render(p));
  }

  /** A prefix of a reconcilable list is reconcilable. */
  lemma ReconcilablePrefix(es: seq<LinkSpec>, n: nat)
    requires Reconcilable(es) && n <= |es|
    ensures Reconcilable(es[..n])
  {
    var init := es[..n];
    forall j, k | 0 <= j < n && 0 <= k < n && j != k
      ensures !(init[j].dst <= init[k].dst)
    {
      assert init[j] == es[j] && init[k] == es[k];
    }
  }

  /** The last entry of a reconcilable list settles itself and keeps every earlier settled entry settled. */
  lemma LastKeepsSettled(f: Fs, home: Path, root: Path, es: seq<LinkSpec>, k: nat)
    requires Reconcilable(es) && k < |es|
    requires Reconcile(f, SrcPath(root, es[|es| - 1]), DstPath(home, es[|es| - 1])).Done?
    requires k < |es| - 1 ==> Settled(f, SrcPath(root, es[k]), DstPath(home, es[k]))
    ensures Settled(Reconcile(f, SrcPath(root, es[|es| - 1]), DstPath(home, es[|es| - 1])).fs,
      SrcPath(root, es[k]), DstPath(home, es[k]))
  {
    var e := es[|es| - 1];
    if k < |es| - 1 {
      PrefixUnder(home, e.dst, es[k].dst);
      PrefixUnder(home, es[k].dst, e.dst);
      ReconcileKeepsSettled(f, SrcPath(root, e), DstPath(home, e), SrcPath(root, es[k]), DstPath(home, es[k]));
    } else {
      PlainSourceTrims(root, e);
      ReconcileSettles(f, SrcPath(root, e), DstPath(home, e));
    }
  }

  /** After a completed run every entry is settled: the end state per destination. */
  lemma {:induction false} RunAllSettles(fs: Fs, home: Path, root: Path, es: seq<LinkSpec>)
    requires Reconcilable(es)
    requires RunAll(fs, home, root, es).Running?
    ensures forall k :: 0 <= k < |es| ==>
      Settled(RunAll(fs, home, root, es).fs, SrcPath(root, es[k]), DstPath(home, es[k]))
  {
    if es != [] {
      var n := |es| - 1;
      var init := es[..n];
      ReconcilablePrefix(es, n);
      RunAllSettles(fs, home, root, init);
      var f := RunAll(fs, home, root, init).fs;
      forall k | 0 <= k < |es|
        ensures Settled(RunAll(fs, home, root, es).fs, SrcPath(root, es[k]), DstPath(home, es[k]))
      {
        if k < n {
          assert init[k] == es[k];
        }
        LastKeepsSettled(f, home, root, es, k);
      }
    }
  }

  /** A run keeps the filesystem a well-formed tree, whether it completes or stops. */
  lemma {:induction false} RunAllWellFormed(fs: Fs, home: Path, root: Path, es: seq<LinkSpec>)
    requires WellFormed(fs)
    requires forall k :: 0 <= k < |es| ==> es[k].dst != []
    ensures WellFormed(RunAll(fs, home, root, es).fs)
  {
    if es != [] {
      var n := |es| - 1;
      assert forall k :: 0 <= k < n ==> es[..n][k] == es[k];
      RunAllWellFormed(fs, home, root, es[..n]);
      var prev := RunAll(fs, home, root, es[..n]);
      if prev.Running? && Reconcile(prev.fs, SrcPath(root, es[n]), DstPath(home, es[n])).Done? {
        ReconcileWellFormed(prev.fs, SrcPath(root, es[n]), DstPath(home, es[n]));
      }
    }
  }

  /** When every entry is settled, the run goes through without changing anything. */
  lemma {:induction false} RunAllAllSettled(fs: Fs, home: Path, root: Path, es: seq<LinkSpec>)
    requires forall k :: 0 <= k < |es| ==> Settled(fs, SrcPath(root, es[k]), DstPath(home, es[k]))
    ensures RunAll(fs, home, root, es) == Running(fs)
  {
    if es != [] {
      var n := |es| - 1;
      assert forall k :: 0 <= k < n ==> es[..n][k] == es[k];
      RunAllAllSettled(fs, home, root, es[..n]);
      SettledSkips(fs, SrcPath(root, es[n]), DstPath(home, es[n]));
    }
  }

  /**
   * A second run over unchanged inputs is a no-op: every entry takes the
   * `continue` branch and the filesystem stays as the first run left it.
   */
  lemma RunAllIdempotent(fs: Fs, home: Path, root: Path, es: seq<LinkSpec>)
    requires Reconcilable(es)
    requires RunAll(fs, home, root, es).Running?
    ensures var f := RunAll(fs, home, root, es).fs;
      RunAll(f, home, root, es) == Running(f) &&
      forall k :: 0 <= k < |es| ==> Reconcile(f, SrcPath(root, es[k]), DstPath(home, es[k])) == Done(f, false)
  {
    var f := RunAll(fs, home, root, es).fs;
    RunAllSettles(fs, home, root, es);
    RunAllAllSettled(f, home, root, es);
    forall k | 0 <= k < |es|
      ensures Reconcile(f, SrcPath(root, es[k]), DstPath(home, es[k])) == Done(f, false)
    {
      SettledSkips(f, SrcPath(root, es[k]), DstPath(home, es[k]));
    }
  }

  // ---------------------------------------------------------------------
  // The script's own tables

  /** `a` and `b` differ at index `i`, so neither is a prefix of the other. */
  lemma Apart(a: Path, b: Path, i: nat)
    requires i < |a| && i < |b| && a[i] != b[i]
    ensures !(a <= b) && !(b <= a)
  {
  }

  /** Which first component the destination of table row `i` starts with. */
  function TableGroup(i: nat): nat {
    if i in {0, 2, 4, 6, 7} then 0          // .config
    else if i == 1 then 1                   // .gitconfig
    else if i == 3 then 2                   // .ssh
    else if i in {5, 13} then 3             // .claude
    else if 8 <= i <= 11 then 4             // Library
    else 5                                  // .warp
  }

  /**
   * An index at which the destinations of table rows `j` and `k` differ: the
   * first component between groups, the second inside a group, and inside
   * `Library` the third, or the fifth for the two Cursor files.
   */
  function ApartAt(j: nat, k: nat): nat {
    if TableGroup(j) != TableGroup(k) then 0
    else if TableGroup(j) == 4 then (if j <= 9 && k <= 9 then 4 else 2)
    else 1
  }

  /** The first destination component of each group of table rows. */
  const GroupHeads: seq<string> := [".config", ".gitconfig", ".ssh", ".claude", "Library", ".warp"]

  /** Table row `j`'s destination starts with its group's component. */
  lemma GroupHead(j: nat)
    requires j < |Links + MacosLinks|
    ensures TableGroup(j) < |GroupHeads|
    ensures (Links + MacosLinks)[j].dst != [] && (Links + MacosLinks)[j].dst[0] == GroupHeads[TableGroup(j)]
  {
  }

  /** Rows of one group differ at the index ApartAt picks. */
  lemma SameGroupApart(j: nat, k: nat)
    requires j < |Links + MacosLinks| && k < |Links + MacosLinks| && j != k
    requires TableGroup(j) == TableGroup(k)
    ensures var a, b, i := (Links + MacosLinks)[j].dst, (Links + MacosLinks)[k].dst, ApartAt(j, k);
      i < |a| && i < |b| && a[i] != b[i]
  {
  }

  /** The tables have no overlapping destinations. */
  lemma TablesNoNesting()
    ensures NoNesting(Links + MacosLinks)
  {
    var all := Links + MacosLinks;
    forall j, k | 0 <= j < |all| && 0 <= k < |all| && j != k
      ensures !(all[j].dst <= all[k].dst)
    {
      if TableGroup(j) == TableGroup(k) {
        SameGroupApart(j, k);
        Apart(all[j].dst, all[k].dst, ApartAt(j, k));
      } else {
        GroupHead(j);
        GroupHead(k);
        Apart(all[j].dst, all[k].dst, 0);
      }
    }
  }

  /** Every source of the tables ends in a character `.trim()` keeps. */
  lemma TablesPlainSources()
    ensures forall k :: 0 <= k < |Links + MacosLinks| ==>
      PlainSource((Links + MacosLinks)[k]) && (Links + MacosLinks)[k].dst != []
  {
  }

  /** Both selections of `all_links` satisfy what a completed run needs to settle every entry. */
  lemma TablesReconcilable(isMacos: bool)
    ensures Reconcilable(AllLinks(isMacos))
  {
    TablesNoNesting();
    TablesPlainSources();
    var all := Links + MacosLinks;
    var es := AllLinks(isMacos);
    assert forall k :: 0 <= k < |es| ==> es[k] == all[k];
  }

  /**
   * For the script's tables: after a run that completes, every destination
   * is a link that passes the `continue` test, and running the script again
   * changes nothing, every entry taking the `continue` branch.
   */
  lemma LinkFilesIdempotent(fs: Fs, home: Path, root: Path, isMacos: bool)
    requires RunAll(fs, home, root, AllLinks(isMacos)).Running?
    ensures var es := AllLinks(isMacos);
      var f := RunAll(fs, home, root, es).fs;
      (forall k :: 0 <= k < |es| ==>
        DstPath(home, es[k]) in f && f[DstPath(home, es[k])].Symlink? &&
        Trim(f[DstPath(home, es[k])].target + "\n") == SrcPath(root, es[k])) &&
      RunAll(f, home, root, es) == Running(f) &&
      forall k :: 0 <= k < |es| ==>
        Reconcile(f, SrcPath(root, es[k]), DstPath(home, es[k])) == Done(f, false)
  {
    TablesReconcilable(isMacos);
    RunAllSettles(fs, home, root, AllLinks(isMacos));
    RunAllIdempotent(fs, home, root, AllLinks(isMacos));
  }
}
