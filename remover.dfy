/** The full remover (warp_remover.py): deletes the installed application
    together with all of its data on macOS, Linux and Windows, then counts
    the entries with "warp" in their name that are left in the usual
    places. Unlike the identity reset it has no protection filter, globs
    non-recursively, and does not catch an error raised by the glob itself:
    such an error ends the whole run. */
module Remover {
  import opened Strings
  import opened Paths
  import opened Files
  import opened Deletion
  import opened Locations

  // ---------------------------------------------------------------------
  // Candidate lists

  /** The arguments `remove_macos_warp` passes to `safe_remove`, in order:
      the application bundle, the Library globs, then the Downloads globs. */
  function MacRemovalTargets(sys: System, home: string): (ts: seq<Target>)
    ensures |ts| == 17
  {
    [Pattern("/Applications/Warp.app")]
    + LibraryTargets(sys, home)
    + [Pattern(Join(sys, home, "Downloads/*warp*")), Pattern(Join(sys, home, "Downloads/*Warp*"))]
  }

  /** The remover clears on macOS everything the identity reset clears,
      preceded by the application bundle itself and followed by the
      downloaded files. */
  lemma MacRemovalExtendsReset(sys: System, home: string)
    ensures var ts := MacRemovalTargets(sys, home);
      && ts[0] == Pattern("/Applications/Warp.app")
      && ts[1..15] == LibraryTargets(sys, home)
      && ts[15..] == [Pattern(Join(sys, home, "Downloads/*warp*")), Pattern(Join(sys, home, "Downloads/*Warp*"))]
  {
    var ts := MacRemovalTargets(sys, home);
    assert ts[1..15] == LibraryTargets(sys, home) by {
      assert forall i :: 0 <= i < 14 ==> ts[1..15][i] == LibraryTargets(sys, home)[i];
    }
  }

  /** The arguments `remove_linux_warp` passes to `safe_remove`, in order:
      the four install locations, the XDG directories (`warp` and `Warp`,
      only `warp` for state) with `~/.warp` after the configuration pair,
      the two desktop entries, the runtime directory when a uid is known,
      and the temp session pattern. */
  function LinuxRemovalTargets(sys: System, home: string, env: Env, uid: Option<nat>): (ts: seq<Target>)
    ensures |ts| == if uid.Some? then 16 else 15
  {
    var config := XdgBase(sys, env, home, "XDG_CONFIG_HOME", ".config");
    var data := XdgBase(sys, env, home, "XDG_DATA_HOME", ".local/share");
    var cache := XdgBase(sys, env, home, "XDG_CACHE_HOME", ".cache");
    var state := XdgBase(sys, env, home, "XDG_STATE_HOME", ".local/state");
    [ Pattern("/opt/Warp"), Pattern("/usr/local/bin/warp"), Pattern("/usr/bin/warp"),
      Pattern(Join(sys, home, ".local/bin/warp")),
      Pattern(Join(sys, config, "warp")), Pattern(Join(sys, config, "Warp")),
      Pattern(Join(sys, home, ".warp")),
      Pattern(Join(sys, data, "warp")), Pattern(Join(sys, data, "Warp")),
      Pattern(Join(sys, cache, "warp")), Pattern(Join(sys, cache, "Warp")),
      Pattern(Join(sys, state, "warp")),
      Pattern(Join(sys, home, ".local/share/applications/warp.desktop")),
      Pattern("/usr/share/applications/warp.desktop") ]
    + (if uid.Some? then [Pattern(RuntimePath(uid.value))] else [])
    + [Pattern(TempSessionPath(env))]
  }

  /** The install locations come first, and so are attempted before any
      data. */
  lemma LinuxRemovalInstallFirst(sys: System, home: string, env: Env, uid: Option<nat>)
    ensures LinuxRemovalTargets(sys, home, env, uid)[..4] ==
      [Pattern("/opt/Warp"), Pattern("/usr/local/bin/warp"), Pattern("/usr/bin/warp"),
       Pattern(Join(sys, home, ".local/bin/warp"))]
  {
  }

  /** The configuration directory: under the variable's value verbatim
      when it is set, under the home default otherwise. */
  lemma LinuxRemovalConfig(sys: System, home: string, env: Env, uid: Option<nat>)
    ensures var ts := LinuxRemovalTargets(sys, home, env, uid);
      var config := if "XDG_CONFIG_HOME" in env then env["XDG_CONFIG_HOME"] else Join(sys, home, ".config");
      ts[4] == Pattern(Join(sys, config, "warp")) && ts[5] == Pattern(Join(sys, config, "Warp"))
  {
    var ts := LinuxRemovalTargets(sys, home, env, uid);
    XdgPair(sys, env, home, "XDG_CONFIG_HOME", ".config", ts[4], ts[5]);
  }

  /** The data directory, likewise. */
  lemma LinuxRemovalData(sys: System, home: string, env: Env, uid: Option<nat>)
    ensures var ts := LinuxRemovalTargets(sys, home, env, uid);
      var data := if "XDG_DATA_HOME" in env then env["XDG_DATA_HOME"] else Join(sys, home, ".local/share");
      ts[7] == Pattern(Join(sys, data, "warp")) && ts[8] == Pattern(Join(sys, data, "Warp"))
  {
    var ts := LinuxRemovalTargets(sys, home, env, uid);
    XdgPair(sys, env, home, "XDG_DATA_HOME", ".local/share", ts[7], ts[8]);
  }

  /** The cache directory, likewise. */
  lemma LinuxRemovalCache(sys: System, home: string, env: Env, uid: Option<nat>)
    ensures var ts := LinuxRemovalTargets(sys, home, env, uid);
      var cache := if "XDG_CACHE_HOME" in env then env["XDG_CACHE_HOME"] else Join(sys, home, ".cache");
      ts[9] == Pattern(Join(sys, cache, "warp")) && ts[10] == Pattern(Join(sys, cache, "Warp"))
  {
    var ts := LinuxRemovalTargets(sys, home, env, uid);
    XdgPair(sys, env, home, "XDG_CACHE_HOME", ".cache", ts[9], ts[10]);
  }

  /** The state directory, only as `warp`. */
  lemma LinuxRemovalState(sys: System, home: string, env: Env, uid: Option<nat>)
    ensures var ts := LinuxRemovalTargets(sys, home, env, uid);
      var state := if "XDG_STATE_HOME" in env then env["XDG_STATE_HOME"] else Join(sys, home, ".local/state");
      ts[11] == Pattern(Join(sys, state, "warp"))
  {
    XdgLeaf(sys, env, home, "XDG_STATE_HOME", ".local/state", "warp");
  }

  /** `~/.warp` after the configuration pair, the runtime directory only
      with a uid, the temp pattern always last. */
  lemma LinuxRemovalFixed(sys: System, home: string, env: Env, uid: Option<nat>)
    ensures var ts := LinuxRemovalTargets(sys, home, env, uid);
      && ts[6] == Pattern(Join(sys, home, ".warp"))
      && (uid.Some? ==> ts[14] == Pattern(RuntimePath(uid.value)))
      && ts[|ts| - 1] == Pattern(TempSessionPath(env))
  {
  }

  /** The `*warp*` and `*Warp*` globs in one directory. */
  function WarpGlobs(sys: System, base: string): seq<Target>
  {
    [Pattern(Join(sys, base, "*warp*")), Pattern(Join(sys, base, "*Warp*"))]
  }

  /** Both are wildcard patterns. */
  lemma WarpGlobsAreGlobs(sys: System, base: string)
    ensures forall t :: t in WarpGlobs(sys, base) ==> t.Pattern? && HasMagic(t.pattern)
  {
    GlobLeaf(sys, base, "*warp*");
    GlobLeaf(sys, base, "*Warp*");
  }

  /** The arguments `remove_windows_warp` passes to `safe_remove`, in
      order: the two install roots as `Path` objects, then a `*warp*` and a
      `*Warp*` glob in LOCALAPPDATA, APPDATA, TEMP and the Downloads folder. */
  function WindowsRemovalTargets(sys: System, home: string, env: Env): (ts: seq<Target>)
    ensures |ts| == 10
  {
    [ Literal(Join(sys, ProgramFiles(sys, env), "Warp")),
      Literal(Join(sys, ProgramFilesX86(sys, env), "Warp")) ]
    + WarpGlobs(sys, LocalAppData(sys, home, env)) + WarpGlobs(sys, RoamingAppData(sys, home, env))
    + WarpGlobs(sys, TempDir(sys, env)) + WarpGlobs(sys, Join(sys, home, "Downloads"))
  }

  /** The Windows candidates with each base directory resolved: the
      variable's value when it is set, the default otherwise. */
  lemma WindowsRemovalEntries(sys: System, home: string, env: Env)
    ensures var pf := if "PROGRAMFILES" in env then env["PROGRAMFILES"] else "C:/Program Files";
      var pf86 := if "PROGRAMFILES(X86)" in env then env["PROGRAMFILES(X86)"] else "C:/Program Files (x86)";
      var la := if "LOCALAPPDATA" in env then env["LOCALAPPDATA"] else Join(sys, home, "AppData/Local");
      var ad := if "APPDATA" in env then env["APPDATA"] else Join(sys, home, "AppData/Roaming");
      var temp := if "TEMP" in env then env["TEMP"] else "C:/Windows/Temp";
      WindowsRemovalTargets(sys, home, env) ==
        [Literal(Join(sys, pf, "Warp")), Literal(Join(sys, pf86, "Warp"))]
        + WarpGlobs(sys, la) + WarpGlobs(sys, ad) + WarpGlobs(sys, temp) + WarpGlobs(sys, Join(sys, home, "Downloads"))
  {
    WindowsBaseLeaf(sys, home, env, "Warp");
    WindowsBaseLeaf(sys, home, env, "*warp*");
    WindowsBaseLeaf(sys, home, env, "*Warp*");
  }

  /** The install roots are taken literally, so they can never make the
      glob raise; every other candidate is a wildcard pattern. */
  lemma WindowsRemovalShape(sys: System, home: string, env: Env)
    ensures var ts := WindowsRemovalTargets(sys, home, env);
      && ts[0].Literal? && ts[1].Literal?
      && forall i :: 2 <= i < |ts| ==> ts[i].Pattern? && HasMagic(ts[i].pattern)
  {
    var la, ad := LocalAppData(sys, home, env), RoamingAppData(sys, home, env);
    var temp, downloads := TempDir(sys, env), Join(sys, home, "Downloads");
    WarpGlobsAreGlobs(sys, la);
    WarpGlobsAreGlobs(sys, ad);
    WarpGlobsAreGlobs(sys, temp);
    WarpGlobsAreGlobs(sys, downloads);
    LiteralsThenGlobs(
      [ Literal(Join(sys, ProgramFiles(sys, env), "Warp")),
        Literal(Join(sys, ProgramFilesX86(sys, env), "Warp")) ],
      WarpGlobs(sys, la), WarpGlobs(sys, ad), WarpGlobs(sys, temp), WarpGlobs(sys, downloads));
  }

  lemma LiteralsThenGlobs(lits: seq<Target>, g1: seq<Target>, g2: seq<Target>, g3: seq<Target>, g4: seq<Target>)
    requires |lits| == 2 && lits[0].Literal? && lits[1].Literal?
    requires forall t :: t in g1 ==> t.Pattern? && HasMagic(t.pattern)
    requires forall t :: t in g2 ==> t.Pattern? && HasMagic(t.pattern)
    requires forall t :: t in g3 ==> t.Pattern? && HasMagic(t.pattern)
    requires forall t :: t in g4 ==> t.Pattern? && HasMagic(t.pattern)
    ensures var ts := lits + g1 + g2 + g3 + g4;
      && ts[0].Literal? && ts[1].Literal?
      && forall i :: 2 <= i < |ts| ==> ts[i].Pattern? && HasMagic(ts[i].pattern)
  {
    var ts := lits + g1 + g2 + g3 + g4;
    forall i | 2 <= i < |ts| ensures ts[i].Pattern? && HasMagic(ts[i].pattern) {
      assert ts[i] in g1 + g2 + g3 + g4 by {
        assert ts[i] == (g1 + g2 + g3 + g4)[i - 2];
      }
    }
  }

  /** The places `verify_removal` searches. The Linux ones are the home
      defaults, whatever the XDG variables say. */
  function SearchRoots(sys: System, home: string, env: Env): (roots: seq<string>)
    ensures sys == Darwin ==> |roots| == 2
    ensures sys == Windows ==> |roots| == 3
    ensures sys == Linux ==> |roots| == 10
    ensures sys == Other ==> roots == []
  {
    match sys
    case Darwin => [Join(sys, home, "Library"), "/Applications"]
    case Windows => [Join(sys, home, "AppData"), ProgramFiles(sys, env), ProgramFilesX86(sys, env)]
    case Linux =>
      [ Join(sys, home, ".config"), Join(sys, home, ".local/share"), Join(sys, home, ".cache"),
        Join(sys, home, ".local/state"), "/opt", "/usr/local/bin", "/usr/bin",
        Join(sys, home, ".local/bin"), Join(sys, home, ".local/share/applications"),
        "/usr/share/applications" ]
    case Other => []
  }

  /** The Linux search roots do not depend on the environment. */
  lemma LinuxRootsIgnoreEnvironment(home: string, env: Env, env': Env)
    ensures SearchRoots(Linux, home, env) == SearchRoots(Linux, home, env')
  {
  }

  // ---------------------------------------------------------------------
  // Leftovers

  /** `'warp' in item.lower()` for the name of an entry. */
  predicate IsWarpName(sep: char, q: string)
  {
    Contains(Lower(Name(sep, q)), "warp")
  }

  /** Every entry `os.walk(root)` lists. */
  function Walk(fs: Fs, sep: char, root: string): set<string>
  {
    set q | q in fs && Walked(fs, sep, root, q)
  }

  /** What one search root contributes: the entries below it that the walk
      reaches and whose name contains "warp" in any case. */
  function Leftovers(fs: Fs, sep: char, root: string): set<string>
  {
    set q | q in Walk(fs, sep, root) && IsWarpName(sep, q)
  }

  /** Removing entries never adds a leftover: whatever a walk of the
      smaller filesystem reaches, the walk of the larger one reached. */
  lemma LeftoversShrink(fs: Fs, fs': Fs, sep: char, root: string)
    requires forall q :: q in fs' ==> q in fs && fs'[q] == fs[q]
    ensures Leftovers(fs', sep, root) <= Leftovers(fs, sep, root)
  {
  }

  /** After `rmtree(p)` a root's leftovers are exactly those it had before
      that do not lie at or below `p`. */
  lemma LeftoversAfterRemoveTree(fs: Fs, sep: char, p: string, root: string)
    ensures Leftovers(RemoveTree(fs, sep, p), sep, root) ==
      set q | q in Leftovers(fs, sep, root) && !Under(sep, q, p)
  {
    var r := RemoveTree(fs, sep, p);
    LeftoversShrink(fs, r, sep, root);
    forall q | q in Leftovers(fs, sep, root) && !Under(sep, q, p)
      ensures q in Leftovers(r, sep, root)
    {
      UnderExtends(sep, root, q, p);
      forall j | |root| < j < |q| && q[j] == sep ensures q[..j] in r && r[q[..j]] == Dir {
        UnderExtends(sep, q[..j], q, p);
      }
    }
  }

  /** Whatever lies below an entry at or below `p` lies below `p` too. */
  lemma UnderExtends(sep: char, d: string, q: string, p: string)
    requires |d| < |q| && q[..|d|] == d && q[|d|] == sep
    ensures Under(sep, d, p) ==> Under(sep, q, p)
  {
    if Under(sep, d, p) && d != p {
      assert q[..|p|] == d[..|p|];
    }
  }

  /** The total over the roots, each root on its own. */
  function LeftoverCount(fs: Fs, sep: char, roots: seq<string>): nat
    decreases |roots|
  {
    if roots == [] then 0
    else LeftoverCount(fs, sep, roots[..|roots| - 1]) + |Leftovers(fs, sep, roots[|roots| - 1])|
  }

  /** A walk that reaches a directory reaches everything the walk from that
      directory reaches. */
  lemma WalkNested(fs: Fs, sep: char, outer: string, inner: string, q: string)
    requires Walked(fs, sep, outer, inner) && inner in fs && fs[inner] == Dir && Walked(fs, sep, inner, q)
    ensures Walked(fs, sep, outer, q)
  {
    assert q[..|inner|] == inner;
    forall j | |outer| < j < |q| && q[j] == sep
      ensures q[..j] in fs && fs[q[..j]] == Dir
    {
      if j < |inner| {
        assert inner[j] == q[j] && inner[..j] == q[..j];
      } else if j == |inner| {
        assert q[..j] == inner;
      }
    }
  }

  /** When the walk from one root reaches another root that is a
      directory, every leftover below the inner root is also a leftover of
      the outer one. */
  lemma NestedLeftovers(fs: Fs, sep: char, outer: string, inner: string)
    requires Walked(fs, sep, outer, inner) && inner in fs && fs[inner] == Dir
    ensures Leftovers(fs, sep, inner) <= Leftovers(fs, sep, outer)
  {
    forall q | q in Leftovers(fs, sep, inner) ensures q in Leftovers(fs, sep, outer) {
      WalkNested(fs, sep, outer, inner, q);
    }
  }

  /** Overlapping roots are counted once per root, so a leftover below a
      nested root counts twice in the total. */
  lemma NestedRootCountedTwice(fs: Fs, sep: char, roots: seq<string>, i: int, j: int)
    requires 0 <= i < |roots| && 0 <= j < |roots| && i != j
    requires Walked(fs, sep, roots[i], roots[j]) && roots[j] in fs && fs[roots[j]] == Dir
    ensures Leftovers(fs, sep, roots[j]) <= Leftovers(fs, sep, roots[i])
    ensures LeftoverCount(fs, sep, roots) >= 2 * |Leftovers(fs, sep, roots[j])|
  {
    var inner, outer := Leftovers(fs, sep, roots[j]), Leftovers(fs, sep, roots[i]);
    NestedLeftovers(fs, sep, roots[i], roots[j]);
    SubsetCard(inner, outer);
    if i < j {
      LeftoverCountTwo(fs, sep, roots, i, j);
    } else {
      LeftoverCountTwo(fs, sep, roots, j, i);
    }
  }

  /** A subset is no larger. */
  lemma SubsetCard(a: set<string>, b: set<string>)
    requires a <= b
    ensures |a| <= |b|
  {
    assert b == a + (b - a);
  }

  /** On Linux this happens to `~/.local/share/applications` inside
      `~/.local/share`. */
  lemma LinuxApplicationsCountedTwice(fs: Fs, home: string, env: Env)
    requires var roots := SearchRoots(Linux, home, env);
      Walked(fs, '/', roots[1], roots[8]) && roots[8] in fs && fs[roots[8]] == Dir
    ensures var roots := SearchRoots(Linux, home, env);
      LeftoverCount(fs, '/', roots) >= 2 * |Leftovers(fs, '/', Join(Linux, home, ".local/share/applications"))|
  {
    NestedRootCountedTwice(fs, '/', SearchRoots(Linux, home, env), 1, 8);
  }

  /** Each root's own count is part of the total. */
  lemma {:induction false} LeftoverCountAtLeast(fs: Fs, sep: char, roots: seq<string>, i: int)
    requires 0 <= i < |roots|
    ensures LeftoverCount(fs, sep, roots) >= |Leftovers(fs, sep, roots[i])|
    decreases |roots|
  {
    if i < |roots| - 1 {
      LeftoverCountAtLeast(fs, sep, roots[..|roots| - 1], i);
    }
  }

  /** Two distinct roots both add their counts to the total. */
  lemma {:induction false} LeftoverCountTwo(fs: Fs, sep: char, roots: seq<string>, i: int, j: int)
    requires 0 <= i < j < |roots|
    ensures LeftoverCount(fs, sep, roots) >= |Leftovers(fs, sep, roots[i])| + |Leftovers(fs, sep, roots[j])|
    decreases |roots|
  {
    var init := roots[..|roots| - 1];
    if j < |roots| - 1 {
      LeftoverCountTwo(fs, sep, init, i, j);
    } else {
      LeftoverCountAtLeast(fs, sep, init, i);
    }
  }

  // ---------------------------------------------------------------------
  // The tool

  /** How a `safe_remove` call ends: normally, or with the exception the
      glob raised for a pattern, which nothing in the remover catches. */
  datatype Completion = Normal | Raised(pattern: string)

  /** Where a run of `safe_remove` calls stands: the filesystem and counter
      it leaves, how many calls were made, and whether the last one raised
      (which ends the run). */
  datatype Progress = Progress(fs: Fs, count: nat, done: nat, raised: bool)

  /** A run of `safe_remove` calls in the remover: each call in turn, until
      one raises. A call that raises removes nothing, so the state it leaves
      is the state before it. */
  function Chain(host: Host, sep: char, fs: Fs, count: nat, ts: seq<Target>): (p: Progress)
    ensures p.done <= |ts|
    ensures !p.raised ==> p.done == |ts|
    ensures p.raised ==> p.done > 0
    decreases |ts|
  {
    if ts == [] then Progress(fs, count, 0, false)
    else
      var prior := Chain(host, sep, fs, count, ts[..|ts| - 1]);
      if prior.raised then prior
      else
        var r := RemoveTarget(host, sep, FullRemoval, prior.fs, ts[|ts| - 1]);
        Progress(r.fs, prior.count + r.gain, |ts|, r.raised)
  }

  /** The run agrees with the shared sweep over the calls it made. */
  lemma {:induction false} ChainIsSweep(host: Host, sep: char, fs: Fs, count: nat, ts: seq<Target>)
    ensures var p := Chain(host, sep, fs, count, ts);
      Sweep(host, sep, FullRemoval, fs, count, ts[..p.done]) == Tally(p.fs, p.count)
    decreases |ts|
  {
    if ts != [] {
      ChainIsSweep(host, sep, fs, count, ts[..|ts| - 1]);
      ChainIsSweepStep(host, sep, fs, count, ts);
    }
  }

  /** The inductive step of `ChainIsSweep`: from the calls before the last
      to all of them. */
  lemma ChainIsSweepStep(host: Host, sep: char, fs: Fs, count: nat, ts: seq<Target>)
    requires ts != []
    requires var prior := Chain(host, sep, fs, count, ts[..|ts| - 1]);
      Sweep(host, sep, FullRemoval, fs, count, ts[..|ts| - 1][..prior.done]) == Tally(prior.fs, prior.count)
    ensures var p := Chain(host, sep, fs, count, ts);
      Sweep(host, sep, FullRemoval, fs, count, ts[..p.done]) == Tally(p.fs, p.count)
  {
    var prior := Chain(host, sep, fs, count, ts[..|ts| - 1]);
    if prior.raised {
      ChainHeld(host, sep, fs, count, ts, prior);
    } else {
      ChainRan(host, sep, fs, count, ts, prior);
    }
  }

  /** The step when an earlier call raised: nothing more happens. */
  lemma ChainHeld(host: Host, sep: char, fs: Fs, count: nat, ts: seq<Target>, prior: Progress)
    requires ts != [] && prior == Chain(host, sep, fs, count, ts[..|ts| - 1]) && prior.raised
    requires Sweep(host, sep, FullRemoval, fs, count, ts[..|ts| - 1][..prior.done]) == Tally(prior.fs, prior.count)
    ensures var p := Chain(host, sep, fs, count, ts);
      Sweep(host, sep, FullRemoval, fs, count, ts[..p.done]) == Tally(p.fs, p.count)
  {
    assert ts[..|ts| - 1][..prior.done] == ts[..prior.done];
  }

  /** The step when no earlier call raised: the last call is made. */
  lemma ChainRan(host: Host, sep: char, fs: Fs, count: nat, ts: seq<Target>, prior: Progress)
    requires ts != [] && prior == Chain(host, sep, fs, count, ts[..|ts| - 1]) && !prior.raised
    requires Sweep(host, sep, FullRemoval, fs, count, ts[..|ts| - 1][..prior.done]) == Tally(prior.fs, prior.count)
    ensures var p := Chain(host, sep, fs, count, ts);
      Sweep(host, sep, FullRemoval, fs, count, ts[..p.done]) == Tally(p.fs, p.count)
  {
    assert ts[..|ts| - 1][..prior.done] == ts[..|ts| - 1];
    SweepLast(host, sep, fs, count, ts, Tally(prior.fs, prior.count));
    assert ts[..|ts|] == ts;
  }

  /** The last call of a sweep, from the state the calls before it left. */
  lemma SweepLast(host: Host, sep: char, fs: Fs, count: nat, ts: seq<Target>, prior: Tally)
    requires ts != [] && Sweep(host, sep, FullRemoval, fs, count, ts[..|ts| - 1]) == prior
    ensures var r := RemoveTarget(host, sep, FullRemoval, prior.fs, ts[|ts| - 1]);
      Sweep(host, sep, FullRemoval, fs, count, ts) == Tally(r.fs, prior.count + r.gain)
  {
  }

  /** Once a run has raised, later calls are never made. */
  lemma {:induction false} ChainStopped(host: Host, sep: char, fs: Fs, count: nat, ts: seq<Target>, k: nat)
    requires k <= |ts| && Chain(host, sep, fs, count, ts[..k]).raised
    ensures Chain(host, sep, fs, count, ts) == Chain(host, sep, fs, count, ts[..k])
    decreases |ts|
  {
    if k < |ts| {
      var front := ts[..|ts| - 1];
      assert front[..k] == ts[..k];
      ChainStopped(host, sep, fs, count, front, k);
    } else {
      assert ts[..k] == ts;
    }
  }

  /** The run that ended at a call ended because that call's glob raised,
      on the filesystem the calls before it left. */
  lemma {:induction false} ChainStopsAtRaise(host: Host, sep: char, fs: Fs, count: nat, ts: seq<Target>)
    requires Chain(host, sep, fs, count, ts).raised
    ensures var p := Chain(host, sep, fs, count, ts);
      RemoveTarget(host, sep, FullRemoval, Sweep(host, sep, FullRemoval, fs, count, ts[..p.done - 1]).fs,
                   ts[p.done - 1]).raised
    decreases |ts|
  {
    var front := ts[..|ts| - 1];
    var prior := Chain(host, sep, fs, count, front);
    if prior.raised {
      ChainStopsAtRaise(host, sep, fs, count, front);
      RaisedEarlier(host, sep, fs, count, ts, front, prior.done - 1);
      assert Chain(host, sep, fs, count, ts) == prior;
    } else {
      ChainIsSweep(host, sep, fs, count, front);
      RaisedLast(host, sep, fs, count, ts, prior);
    }
  }

  /** `ChainStopsAtRaise` when an earlier call raised: that call is the
      same in the longer list. */
  lemma RaisedEarlier(host: Host, sep: char, fs: Fs, count: nat, ts: seq<Target>, front: seq<Target>, d: int)
    requires ts != [] && front == ts[..|ts| - 1] && 0 <= d < |front|
    requires RemoveTarget(host, sep, FullRemoval, Sweep(host, sep, FullRemoval, fs, count, front[..d]).fs, front[d]).raised
    ensures RemoveTarget(host, sep, FullRemoval, Sweep(host, sep, FullRemoval, fs, count, ts[..d]).fs, ts[d]).raised
  {
    assert front[..d] == ts[..d] && front[d] == ts[d];
  }

  /** `ChainStopsAtRaise` when the last call raised. */
  lemma RaisedLast(host: Host, sep: char, fs: Fs, count: nat, ts: seq<Target>, prior: Progress)
    requires ts != [] && prior == Chain(host, sep, fs, count, ts[..|ts| - 1]) && !prior.raised
    requires Chain(host, sep, fs, count, ts).raised
    requires Sweep(host, sep, FullRemoval, fs, count, ts[..|ts| - 1][..prior.done]) == Tally(prior.fs, prior.count)
    ensures var p := Chain(host, sep, fs, count, ts);
      RemoveTarget(host, sep, FullRemoval, Sweep(host, sep, FullRemoval, fs, count, ts[..p.done - 1]).fs,
                   ts[p.done - 1]).raised
  {
    assert ts[..|ts| - 1][..prior.done] == ts[..|ts| - 1];
  }

  /** No call before the one that ended the run raised: each of them ran
      on the filesystem the calls before it left. */
  lemma {:induction false} ChainNoEarlierRaise(host: Host, sep: char, fs: Fs, count: nat, ts: seq<Target>, j: nat)
    requires var p := Chain(host, sep, fs, count, ts);
      if p.raised then j < p.done - 1 else j < p.done
    ensures !RemoveTarget(host, sep, FullRemoval, Sweep(host, sep, FullRemoval, fs, count, ts[..j]).fs, ts[j]).raised
    decreases |ts|
  {
    var front := ts[..|ts| - 1];
    var prior := Chain(host, sep, fs, count, front);
    if j < |front| && (if prior.raised then j < prior.done - 1 else j < prior.done) {
      ChainNoEarlierRaise(host, sep, fs, count, front, j);
      assert front[..j] == ts[..j] && front[j] == ts[j];
    } else {
      ChainIsSweep(host, sep, fs, count, front);
      assert front[..prior.done] == front && j == |front|;
      assert ts[..j] == front;
    }
  }

  /** A run that has not raised after `k` calls goes on with call `k`. */
  lemma ChainSnoc(host: Host, sep: char, fs: Fs, count: nat, ts: seq<Target>, k: int, front: seq<Target>)
    requires 0 <= k < |ts| && front == ts[..k] && !Chain(host, sep, fs, count, front).raised
    ensures var prior := Chain(host, sep, fs, count, front);
      var r := RemoveTarget(host, sep, FullRemoval, prior.fs, ts[k]);
      Chain(host, sep, fs, count, ts[..k + 1]) == Progress(r.fs, prior.count + r.gain, k + 1, r.raised)
  {
    assert ts[..k + 1][..k] == front;
  }

  /** When no glob raises, the run makes every call: it is the sweep. */
  lemma ChainWithoutRaise(host: Host, sep: char, fs: Fs, count: nat, ts: seq<Target>)
    requires !Chain(host, sep, fs, count, ts).raised
    ensures var p := Chain(host, sep, fs, count, ts);
      p.done == |ts| && Sweep(host, sep, FullRemoval, fs, count, ts) == Tally(p.fs, p.count)
  {
    ChainIsSweep(host, sep, fs, count, ts);
    assert ts[..|ts|] == ts;
  }

  /** `WarpRemover`. As in the identity reset, the ghost log `requests`
      records every argument handed to `safe_remove` and `Valid()` says that
      the filesystem and `removed_count` are what replaying it produces. */
  class WarpRemover {
    const system: System
    const home: string
    const env: Env
    const uid: Option<nat>
    const host: Host
    var fs: Fs
    var removedCount: nat
    ghost const initialFs: Fs
    ghost var requests: seq<Target>

    ghost predicate Valid()
      reads this
    {
      var t := Sweep(host, Sep(system), FullRemoval, initialFs, 0, requests);
      fs == t.fs && removedCount == t.count
    }

    constructor (system: System, home: string, env: Env, uid: Option<nat>, host: Host, fs: Fs)
      ensures this.system == system && this.home == home && this.env == env
      ensures this.uid == uid && this.host == host
      ensures this.fs == fs && removedCount == 0 && requests == [] && Valid()
    {
      this.system, this.home, this.env := system, home, env;
      this.uid, this.host := uid, host;
      this.fs, removedCount := fs, 0;
      initialFs, requests := fs, [];
    }

    /** The loop of `safe_remove` over the expanded paths: every path is
        tried, with no filter; an `OSError` on one path changes nothing and
        the loop goes on. */
    method RemoveExpanded(paths: seq<string>)
      modifies this
      ensures requests == old(requests)
      ensures var b := Batch(host, Sep(system), FullRemoval, old(fs), paths);
        fs == b.fs && removedCount == old(removedCount) + Gain(b.outcomes)
    {
      var sep := Sep(system);
      var i := 0;
      while i < |paths|
        invariant 0 <= i <= |paths| && requests == old(requests)
        invariant var b := Batch(host, sep, FullRemoval, old(fs), paths[..i]);
          fs == b.fs && removedCount == old(removedCount) + Gain(b.outcomes)
      {
        var path := paths[i];
        ghost var step := Attempt(host, sep, FullRemoval, fs, path);
        ghost var count := removedCount;
        BatchStep(host, sep, FullRemoval, old(fs), paths, i);
        GainSnoc(Batch(host, sep, FullRemoval, old(fs), paths[..i]).outcomes, step.outcome);
        var kind := if path in fs then fs[path] else Special;
        if (kind == Dir || kind == File) && path in host.failing {
          // OSError or PermissionError: reported, nothing changes
        } else {
          if kind == Dir {
            fs := RemoveTree(fs, sep, path);
          } else if kind == File {
            fs := fs - {path};
          }
          removedCount := removedCount + 1;
        }
        assert fs == step.fs && removedCount == count + (if Counted(step.outcome) then 1 else 0);
        i := i + 1;
      }
      assert paths[..|paths|] == paths;
    }

    /** `safe_remove`: a string is expanded by a non-recursive glob whose
        error escapes before anything is removed; a `Path` yields itself
        when it exists. */
    method SafeRemove(t: Target) returns (c: Completion)
      requires Valid()
      modifies this
      ensures Valid()
      ensures requests == old(requests) + [t]
      ensures var r := RemoveTarget(host, Sep(system), FullRemoval, old(fs), t);
        && fs == r.fs && removedCount == old(removedCount) + r.gain
        && (c.Raised? <==> r.raised)
        && (c.Raised? ==> t == Pattern(c.pattern))
    {
      var expansion := Expand(host, fs, t, false);
      if expansion.Expanded? {
        RemoveExpanded(expansion.paths);
        c := Normal;
      } else {
        c := Raised(t.pattern);
      }
      requests := requests + [t];
      assert requests[..|requests| - 1] == old(requests);
    }

    /** A run of `safe_remove` calls, in order, ended by the first glob
        error. */
    method SafeRemoveAll(ts: seq<Target>) returns (c: Completion)
      requires Valid()
      modifies this
      ensures Valid()
      ensures var p := Chain(host, Sep(system), old(fs), old(removedCount), ts);
        && requests == old(requests) + ts[..p.done]
        && fs == p.fs && removedCount == p.count
        && (c.Raised? <==> p.raised)
    {
      var sep := Sep(system);
      for k := 0 to |ts|
        invariant Valid() && requests == old(requests) + ts[..k]
        invariant var p := Chain(host, sep, old(fs), old(removedCount), ts[..k]);
          !p.raised && fs == p.fs && removedCount == p.count
      {
        ChainSnoc(host, sep, old(fs), old(removedCount), ts, k, ts[..k]);
        LogAppend(old(requests), ts[..k], [ts[k]]);
        PrefixSnoc(ts, k);
        c := SafeRemove(ts[k]);
        if c.Raised? {
          ChainStopped(host, sep, old(fs), old(removedCount), ts, k + 1);
          return;
        }
      }
      assert ts[..|ts|] == ts;
      c := Normal;
    }

    /** `remove_macos_warp`, less the Launch Services call. */
    method RemoveMacosWarp() returns (c: Completion)
      requires Valid()
      modifies this
      ensures Valid()
      ensures var p := Chain(host, Sep(system), old(fs), old(removedCount), MacRemovalTargets(system, home));
        && requests == old(requests) + MacRemovalTargets(system, home)[..p.done]
        && fs == p.fs && removedCount == p.count && (c.Raised? <==> p.raised)
    {
      c := SafeRemoveAll(MacRemovalTargets(system, home));
    }

    /** `remove_linux_warp`. */
    method RemoveLinuxWarp() returns (c: Completion)
      requires Valid()
      modifies this
      ensures Valid()
      ensures var p := Chain(host, Sep(system), old(fs), old(removedCount), LinuxRemovalTargets(system, home, env, uid));
        && requests == old(requests) + LinuxRemovalTargets(system, home, env, uid)[..p.done]
        && fs == p.fs && removedCount == p.count && (c.Raised? <==> p.raised)
    {
      c := SafeRemoveAll(LinuxRemovalTargets(system, home, env, uid));
    }

    /** `remove_windows_warp`, less the registry cleanup. */
    method RemoveWindowsWarp() returns (c: Completion)
      requires Valid()
      modifies this
      ensures Valid()
      ensures var p := Chain(host, Sep(system), old(fs), old(removedCount), WindowsRemovalTargets(system, home, env));
        && requests == old(requests) + WindowsRemovalTargets(system, home, env)[..p.done]
        && fs == p.fs && removedCount == p.count && (c.Raised? <==> p.raised)
    {
      c := SafeRemoveAll(WindowsRemovalTargets(system, home, env));
    }

    /** The walk of one search root: each entry it lists is looked at once,
        and those with "warp" in their name are counted. */
    method CountLeftovers(root: string) returns (n: nat)
      ensures n == |Leftovers(fs, Sep(system), root)|
    {
      var sep := Sep(system);
      n := 0;
      if root in fs {
        var items := Walk(fs, sep, root);
        ghost var seen: set<string> := {};
        ghost var found: set<string> := {};
        while items != {}
          invariant seen !! items && seen + items == Walk(fs, sep, root)
          invariant forall q :: q in found <==> q in seen && IsWarpName(sep, q)
          invariant n == |found|
          decreases items
        {
          var item :| item in items;
          if IsWarpName(sep, item) {
            assert item !in found;
            found := found + {item};
            n := n + 1;
          }
          seen := seen + {item};
          items := items - {item};
        }
        assert found == Leftovers(fs, sep, root);
      }
    }

    /** `verify_removal`: the leftovers of every search root, added up. */
    method VerifyRemoval() returns (remaining: nat)
      ensures remaining == LeftoverCount(fs, Sep(system), SearchRoots(system, home, env))
    {
      var sep := Sep(system);
      var roots := SearchRoots(system, home, env);
      remaining := 0;
      for k := 0 to |roots|
        invariant remaining == LeftoverCount(fs, sep, roots[..k])
      {
        var found := CountLeftovers(roots[k]);
        assert roots[..k + 1][..k] == roots[..k];
        remaining := remaining + found;
      }
      assert roots[..|roots|] == roots;
    }

    /** The platform's removal list. */
    ghost function Targets(): seq<Target>
      reads this
    {
      match system
      case Darwin => MacRemovalTargets(system, home)
      case Linux => LinuxRemovalTargets(system, home, env, uid)
      case Windows => WindowsRemovalTargets(system, home, env)
      case Other => []
    }

    /** `run`: refuses an unsupported system before anything is removed;
        otherwise removes everything on the platform's list and counts what
        is left, and reports success whatever that count is. A glob error
        ends the run with that exception. */
    method Run() returns (c: Completion, ok: bool, remaining: nat)
      requires Valid()
      modifies this
      ensures Valid()
      ensures system == Other ==>
        c == Normal && !ok && requests == old(requests) && fs == old(fs) && removedCount == old(removedCount)
      ensures var p := Chain(host, Sep(system), old(fs), old(removedCount), Targets());
        system != Other ==>
          && requests == old(requests) + Targets()[..p.done]
          && fs == p.fs && removedCount == p.count
          && (c.Raised? <==> p.raised)
          && (ok <==> !p.raised)
      ensures ok ==> remaining == LeftoverCount(fs, Sep(system), SearchRoots(system, home, env))
    {
      ok, remaining := false, 0;
      // processes are stopped here
      if system == Darwin {
        c := RemoveMacosWarp();
      } else if system == Windows {
        c := RemoveWindowsWarp();
      } else if system == Linux {
        c := RemoveLinuxWarp();
      } else {
        return Normal, false, 0;
      }
      if c.Raised? {
        return;
      }
      remaining := VerifyRemoval();
      ok := true;
    }
  }
}
