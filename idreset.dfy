/** The identity reset tool (warp_id_reset.py): deletes Warp's user data,
    settings, caches and session files on macOS, Linux and Windows while
    keeping the installed application, then checks that the application is
    still installed. */
module IdReset {
  import opened Strings
  import opened Paths
  import opened Files
  import opened Deletion
  import opened Locations

  // ---------------------------------------------------------------------
  // Candidate locations

  /** The arguments `reset_linux_identity` passes to `safe_remove`, in
      order. Each XDG base is the variable's value when it is set and the
      home default otherwise; the runtime directory appears only when a uid
      is known; the temp pattern always comes last. */
  function LinuxResetTargets(sys: System, home: string, env: Env, uid: Option<nat>): (ts: seq<Target>)
    ensures |ts| == if uid.Some? then 11 else 10
  {
    var config := XdgBase(sys, env, home, "XDG_CONFIG_HOME", ".config");
    var data := XdgBase(sys, env, home, "XDG_DATA_HOME", ".local/share");
    var cache := XdgBase(sys, env, home, "XDG_CACHE_HOME", ".cache");
    var state := XdgBase(sys, env, home, "XDG_STATE_HOME", ".local/state");
    [ Pattern(Join(sys, config, "warp")), Pattern(Join(sys, config, "Warp")),
      Pattern(Join(sys, home, ".warp")),
      Pattern(Join(sys, data, "warp")), Pattern(Join(sys, data, "Warp")),
      Pattern(Join(sys, cache, "warp")), Pattern(Join(sys, cache, "Warp")),
      Pattern(Join(sys, state, "warp")), Pattern(Join(sys, Join(sys, state, "warp"), "logs")) ]
    + (if uid.Some? then [Pattern(RuntimePath(uid.value))] else [])
    + [Pattern(TempSessionPath(env))]
  }

  /** The fixed Linux candidates: `~/.warp` third, the runtime directory
      tenth when a uid is known, the temp session pattern last. */
  lemma LinuxFixedTargets(sys: System, home: string, env: Env, uid: Option<nat>)
    ensures var ts := LinuxResetTargets(sys, home, env, uid);
      && ts[2] == Pattern(Join(sys, home, ".warp"))
      && (uid.Some? ==> ts[9] == Pattern(RuntimePath(uid.value)))
      && ts[|ts| - 1] == Pattern(TempSessionPath(env))
  {
  }

  /** The first Linux candidates, `warp` and `Warp` in the configuration
      base: under `XDG_CONFIG_HOME` verbatim when it is set, under
      `~/.config` otherwise. */
  lemma LinuxConfigTargets(sys: System, home: string, env: Env, uid: Option<nat>)
    ensures var ts := LinuxResetTargets(sys, home, env, uid);
      var base := if "XDG_CONFIG_HOME" in env then env["XDG_CONFIG_HOME"] else Join(sys, home, ".config");
      ts[0] == Pattern(Join(sys, base, "warp")) && ts[1] == Pattern(Join(sys, base, "Warp"))
  {
    var ts := LinuxResetTargets(sys, home, env, uid);
    XdgPair(sys, env, home, "XDG_CONFIG_HOME", ".config", ts[0], ts[1]);
  }

  /** The data candidates: under `XDG_DATA_HOME` or `~/.local/share`. */
  lemma LinuxDataTargets(sys: System, home: string, env: Env, uid: Option<nat>)
    ensures var ts := LinuxResetTargets(sys, home, env, uid);
      var base := if "XDG_DATA_HOME" in env then env["XDG_DATA_HOME"] else Join(sys, home, ".local/share");
      ts[3] == Pattern(Join(sys, base, "warp")) && ts[4] == Pattern(Join(sys, base, "Warp"))
  {
    var ts := LinuxResetTargets(sys, home, env, uid);
    XdgPair(sys, env, home, "XDG_DATA_HOME", ".local/share", ts[3], ts[4]);
  }

  /** The cache candidates: under `XDG_CACHE_HOME` or `~/.cache`. */
  lemma LinuxCacheTargets(sys: System, home: string, env: Env, uid: Option<nat>)
    ensures var ts := LinuxResetTargets(sys, home, env, uid);
      var base := if "XDG_CACHE_HOME" in env then env["XDG_CACHE_HOME"] else Join(sys, home, ".cache");
      ts[5] == Pattern(Join(sys, base, "warp")) && ts[6] == Pattern(Join(sys, base, "Warp"))
  {
    var ts := LinuxResetTargets(sys, home, env, uid);
    XdgPair(sys, env, home, "XDG_CACHE_HOME", ".cache", ts[5], ts[6]);
  }

  /** The state candidates: `warp` under `XDG_STATE_HOME` or
      `~/.local/state`, then its `logs` (only `warp`, never `Warp`). */
  lemma LinuxStateTargets(sys: System, home: string, env: Env, uid: Option<nat>)
    ensures var ts := LinuxResetTargets(sys, home, env, uid);
      var state := if "XDG_STATE_HOME" in env then env["XDG_STATE_HOME"] else Join(sys, home, ".local/state");
      ts[7] == Pattern(Join(sys, state, "warp")) && ts[8] == Pattern(Join(sys, Join(sys, state, "warp"), "logs"))
  {
    XdgLeaf(sys, env, home, "XDG_STATE_HOME", ".local/state", "warp");
  }

  /** The official data directory `LOCALAPPDATA\warp\Warp`, which also holds
      the installed `Warp.exe`. */
  function WarpLocal(sys: System, home: string, env: Env): string
  {
    Join(sys, Join(sys, LocalAppData(sys, home, env), "warp"), "Warp")
  }

  /** The settings directory `APPDATA\warp\Warp`. */
  function WarpRoaming(sys: System, home: string, env: Env): string
  {
    Join(sys, Join(sys, RoamingAppData(sys, home, env), "warp"), "Warp")
  }

  /** Data subfolders of the legacy layouts that are cleared one by one. */
  const LegacySubfolders: seq<string> := [
    "User Data", "Cache", "Logs", "Local Storage", "Session Storage", "IndexedDB", "databases"
  ]

  /** The legacy subfolder names are distinct and hold no separator. */
  lemma LegacyNamesPlain()
    ensures forall k :: 0 <= k < |LegacySubfolders| ==> '/' !in LegacySubfolders[k] && '\\' !in LegacySubfolders[k]
    ensures forall j, k :: 0 <= j < |LegacySubfolders| && 0 <= k < |LegacySubfolders| && j != k ==>
      LegacySubfolders[j] != LegacySubfolders[k]
  {
  }

  /** No legacy subfolder of a base lies inside another. */
  lemma LegacySiblings(sys: System, base: string, j: int, k: int)
    requires 0 <= j < |LegacySubfolders| && 0 <= k < |LegacySubfolders| && j != k
    ensures !Under(Sep(sys), Join(sys, base, LegacySubfolders[j]), Join(sys, base, LegacySubfolders[k]))
  {
    LegacyNamesPlain();
    JoinSiblingsApart(sys, base, LegacySubfolders[j], LegacySubfolders[k]);
  }

  /** Every legacy subfolder from index `from` on that exists in `was` is
      still present in `now`. */
  ghost predicate LegacyKept(sys: System, base: string, from: int, was: Fs, now: Fs)
  {
    forall j :: 0 <= from <= j < |LegacySubfolders| && Join(sys, base, LegacySubfolders[j]) in was ==>
      Join(sys, base, LegacySubfolders[j]) in now
  }

  /** Every legacy subfolder below index `upto` that exists in `was` has
      been handed over. */
  ghost predicate LegacyCovered(sys: System, base: string, upto: int, was: Fs, added: seq<Target>)
  {
    forall j :: 0 <= j < upto && j < |LegacySubfolders| && Join(sys, base, LegacySubfolders[j]) in was ==>
      Pattern(Join(sys, base, LegacySubfolders[j])) in added
  }

  /** One iteration keeps both facts of the legacy loop. */
  lemma LegacyLoopStep(sys: System, base: string, k: int, was: Fs, before: Fs, after: Fs,
                       added: seq<Target>, step: seq<Target>)
    requires 0 <= k < |LegacySubfolders|
    requires LegacyKept(sys, base, k, was, before) && LegacyCovered(sys, base, k, was, added)
    requires Join(sys, base, LegacySubfolders[k]) in before ==> step == [Pattern(Join(sys, base, LegacySubfolders[k]))]
    requires LegacyKept(sys, base, k + 1, before, after)
    ensures LegacyKept(sys, base, k + 1, was, after) && LegacyCovered(sys, base, k + 1, was, added + step)
  {
  }

  /** Removing one legacy subfolder keeps the later ones. */
  lemma LaterLegacySurvive(host: Host, sys: System, base: string, k: int, before: Fs, after: Fs)
    requires 0 <= k < |LegacySubfolders| && LegacyLiteral(sys, base)
    requires after == RemoveTarget(host, Sep(sys), IdentityReset, before, Pattern(Join(sys, base, LegacySubfolders[k]))).fs
    ensures LegacyKept(sys, base, k + 1, before, after)
  {
    forall j | k < j < |LegacySubfolders| && Join(sys, base, LegacySubfolders[j]) in before
      ensures Join(sys, base, LegacySubfolders[j]) in after
    {
      LegacySiblings(sys, base, j, k);
      KeepsOutside(host, Sep(sys), IdentityReset, before, Join(sys, base, LegacySubfolders[k]), Join(sys, base, LegacySubfolders[j]));
    }
  }

  /** None of the legacy subfolder paths of `base` holds a wildcard, so
      `glob.glob` takes each of them literally. */
  ghost predicate LegacyLiteral(sys: System, base: string)
  {
    forall k :: 0 <= k < |LegacySubfolders| ==> !HasMagic(Join(sys, base, LegacySubfolders[k]))
  }

  /** Names inside `LOCALAPPDATA\warp\Warp` that belong to the installed
      application and are never handed to `safe_remove`. */
  const AppFileNames: seq<string> := ["warp.exe", "resources", "locales", "swiftshader"]

  predicate IsAppFile(name: string)
  {
    Lower(name) in AppFileNames
  }

  /** Session patterns cleared in TEMP. */
  const TempPatterns: seq<string> := ["warp-*", "Warp-*", "*warp*.tmp", "*Warp*.tmp"]

  /** Suffixes of downloaded installers, which the TEMP sweep keeps. */
  const InstallerSuffixes: seq<string> := [".exe", ".msi", ".zip"]

  predicate IsInstaller(sep: char, item: string)
  {
    Lower(Suffix(Name(sep, item))) in InstallerSuffixes
  }

  /** Path equality as pathlib decides it: case-blind on Windows. */
  predicate SamePath(sys: System, a: string, b: string)
  {
    if sys == Windows then WindowsPathEq(a, b) else a == b
  }

  /** On Windows the guard of the "old `LOCALAPPDATA\Warp`" block,
      `warp_old_local != warp_local.parent`, is always false: the two paths
      differ only in the case of `Warp`, so that block never runs there. */
  lemma OldLocalBlockNeverRunsOnWindows(home: string, env: Env)
    ensures SamePath(Windows, Join(Windows, LocalAppData(Windows, home, env), "Warp"),
                     Join(Windows, LocalAppData(Windows, home, env), "warp"))
  {
    var base := LocalAppData(Windows, home, env);
    var front := if base == [] then [] else Native(Windows, base) + "\\";
    assert Join(Windows, base, "Warp") == front + "Warp";
    assert Join(Windows, base, "warp") == front + "warp";
    LowerAppend(front, "Warp");
    LowerAppend(front, "warp");
    assert Lower("Warp") == Lower("warp");
  }

  /** A data location the Windows reset may hand to `safe_remove`: an entry
      of `LOCALAPPDATA\warp\Warp` other than the application's own files,
      the settings directory, a data subfolder of one of the two legacy
      layouts, or the legacy settings directory. */
  ghost predicate WindowsDataTarget(sys: System, home: string, env: Env, t: Target)
  {
    var la := LocalAppData(sys, home, env);
    && t.Pattern?
    && (|| (IsChildOf(Sep(sys), t.pattern, WarpLocal(sys, home, env)) && !IsAppFile(Name(Sep(sys), t.pattern)))
        || t.pattern == WarpRoaming(sys, home, env)
        || LegacyEntry(sys, Join(sys, la, "dev.warp.Warp-stable"), t.pattern)
        || LegacyEntry(sys, Join(sys, la, "Warp"), t.pattern)
        || t.pattern == Join(sys, RoamingAppData(sys, home, env), "dev.warp.Warp-stable"))
  }

  /** One of the legacy data subfolders of `base`. */
  ghost predicate LegacyEntry(sys: System, base: string, r: string)
  {
    exists k :: 0 <= k < |LegacySubfolders| && r == Join(sys, base, LegacySubfolders[k])
  }

  /** Every target of `ts` is a legacy data subfolder of `base`. Stated by
      recursion on the last element so that the fact stays folded until a
      proof asks for it. */
  ghost predicate AllLegacy(sys: System, base: string, ts: seq<Target>)
    decreases |ts|
  {
    ts == [] ||
    (AllLegacy(sys, base, ts[..|ts| - 1]) && ts[|ts| - 1].Pattern? && LegacyEntry(sys, base, ts[|ts| - 1].pattern))
  }

  lemma {:induction false} AllLegacyMembers(sys: System, base: string, ts: seq<Target>)
    requires AllLegacy(sys, base, ts)
    ensures forall t :: t in ts ==> t.Pattern? && LegacyEntry(sys, base, t.pattern)
  {
    if ts != [] {
      AllLegacyMembers(sys, base, ts[..|ts| - 1]);
      assert ts == ts[..|ts| - 1] + [ts[|ts| - 1]];
    }
  }

  /** Appending the `k`-th subfolder, or nothing, keeps the list legacy. */
  lemma AllLegacySnoc(sys: System, base: string, ts: seq<Target>, k: int, step: seq<Target>)
    requires AllLegacy(sys, base, ts) && 0 <= k < |LegacySubfolders|
    requires step == [] || step == [Pattern(Join(sys, base, LegacySubfolders[k]))]
    ensures AllLegacy(sys, base, ts + step)
  {
    if step == [] {
      assert ts + step == ts;
    } else {
      assert (ts + step)[..|ts|] == ts;
      assert LegacyEntry(sys, base, step[0].pattern);
    }
  }

  /** A TEMP session item the Windows reset may hand to `safe_remove`: one
      that `Path(TEMP).glob` yielded for one of the session patterns, on
      the filesystem of that moment, and that is not an installer. */
  ghost predicate TempTarget(host: Host, sys: System, env: Env, t: Target)
  {
    && t.Pattern? && !IsInstaller(Sep(sys), t.pattern)
    && exists k, s: Fs :: 0 <= k < |TempPatterns| && t.pattern in host.pathGlob(TempDir(sys, env), TempPatterns[k], s)
  }

  /** The places `verify_app_still_installed` looks, in order (after the PATH
      lookup on Linux). */
  function InstallLocations(sys: System, home: string, env: Env): (locs: seq<string>)
    ensures sys == Darwin ==> locs == ["/Applications/Warp.app"]
    ensures sys == Windows ==>
      var la := if "LOCALAPPDATA" in env then env["LOCALAPPDATA"] else Join(sys, home, "AppData/Local");
      var pf := if "PROGRAMFILES" in env then env["PROGRAMFILES"] else "C:/Program Files";
      var pf86 := if "PROGRAMFILES(X86)" in env then env["PROGRAMFILES(X86)"] else "C:/Program Files (x86)";
      locs == [ Join(sys, WarpLocal(sys, home, env), "Warp.exe"), Join(sys, Join(sys, la, "Warp"), "Warp.exe"),
                Join(sys, pf, "Warp/Warp.exe"), Join(sys, pf86, "Warp/Warp.exe") ]
    ensures sys == Linux ==> locs == ["/opt/Warp", "/usr/local/bin/warp", "/usr/bin/warp", Join(sys, home, ".local/bin/warp")]
    ensures sys == Other ==> locs == []
  {
    match sys
    case Darwin => ["/Applications/Warp.app"]
    case Windows =>
      var la := LocalAppData(sys, home, env);
      WindowsBaseLeaf(sys, home, env, "Warp");
      WindowsBaseLeaf(sys, home, env, "Warp/Warp.exe");
      [ Join(sys, Join(sys, Join(sys, la, "warp"), "Warp"), "Warp.exe"),
        Join(sys, Join(sys, la, "Warp"), "Warp.exe"),
        Join(sys, ProgramFiles(sys, env), "Warp/Warp.exe"),
        Join(sys, ProgramFilesX86(sys, env), "Warp/Warp.exe") ]
    case Linux =>
      LocalBinWarp(home);
      ["/opt/Warp", "/usr/local/bin/warp", "/usr/bin/warp",
       Join(sys, Join(sys, Join(sys, home, ".local"), "bin"), "warp")]
    case Other => []
  }

  /** `home / '.local' / 'bin' / 'warp'` is `home / '.local/bin/warp'`. */
  lemma LocalBinWarp(home: string)
    ensures Join(Linux, Join(Linux, Join(Linux, home, ".local"), "bin"), "warp") == Join(Linux, home, ".local/bin/warp")
  {
    JoinJoin(Linux, home, ".local", "bin");
    JoinJoin(Linux, home, ".local/bin", "warp");
    assert ".local" + "/" + "bin" == ".local/bin";
    assert ".local/bin" + "/" + "warp" == ".local/bin/warp";
  }

  /** No target occurs twice. */
  predicate Distinct(ts: seq<Target>)
  {
    forall i, j :: 0 <= i < j < |ts| ==> ts[i] != ts[j]
  }

  /** Appending a new target keeps the targets distinct. */
  lemma DistinctSnoc(ts: seq<Target>, t: Target)
    requires Distinct(ts) && t !in ts
    ensures Distinct(ts + [t])
  {
    var r := ts + [t];
    forall i, j | 0 <= i < j < |r| ensures r[i] != r[j] {
      if j == |ts| { assert r[i] == ts[i] && ts[i] in ts; } else { assert r[i] == ts[i] && r[j] == ts[j]; }
    }
  }

  /** `hit` is the first of `locs` that exists, or none exists. */
  ghost predicate FirstHit(fs: Fs, locs: seq<string>, hit: Option<string>)
  {
    match hit
    case None => forall i :: 0 <= i < |locs| ==> locs[i] !in fs
    case Some(p) =>
      exists k :: 0 <= k < |locs| && locs[k] == p && p in fs && forall j :: 0 <= j < k ==> locs[j] !in fs
  }

  /** A first hit among the later locations is the first hit overall when
      the first location is missing. */
  lemma FirstHitBehindMiss(fs: Fs, locs: seq<string>, hit: Option<string>)
    requires locs != [] && locs[0] !in fs && FirstHit(fs, locs[1..], hit)
    ensures FirstHit(fs, locs, hit)
  {
    var rest := locs[1..];
    if hit.Some? {
      var k :| 0 <= k < |rest| && rest[k] == hit.value && hit.value in fs
        && forall j :: 0 <= j < k ==> rest[j] !in fs;
      assert locs[k + 1] == hit.value;
      forall j | 0 <= j < k + 1 ensures locs[j] !in fs {
        if j > 0 { assert locs[j] == rest[j - 1]; }
      }
    } else {
      forall j | 0 <= j < |locs| ensures locs[j] !in fs {
        if j > 0 { assert locs[j] == rest[j - 1]; }
      }
    }
  }

  /** A name whose length or lower-cased first letter differs from each
      application file name is not one. */
  lemma NotAppFile(name: string)
    requires |name| != 7 && |name| != 8 && |name| != 11
    requires |name| == 9 ==> LowerChar(name[0]) != 'r'
    ensures !IsAppFile(name)
  {
    var a := Lower(name);
    if |name| == 9 {
      assert a[0] == LowerChar(name[0]) != 'r';
    }
  }

  /** A leaf the data paths join on: one non-empty component that is not
      an application file name. */
  predicate DataLeaf(leaf: string)
  {
    leaf != [] && '/' !in leaf && '\\' !in leaf && !IsAppFile(leaf)
  }

  lemma LeafWarp()
    ensures DataLeaf("Warp")
  {
    NotAppFile("Warp");
  }

  lemma StableNoSlash()
    ensures '/' !in "dev.warp.Warp-stable"
  {
  }

  lemma StableNoBackslash()
    ensures '\\' !in "dev.warp.Warp-stable"
  {
  }

  lemma StableNotAppFile()
    ensures !IsAppFile("dev.warp.Warp-stable")
  {
    NotAppFile("dev.warp.Warp-stable");
  }

  lemma LeafStable()
    ensures DataLeaf("dev.warp.Warp-stable")
  {
    StableNoSlash();
    StableNoBackslash();
    StableNotAppFile();
  }

  lemma LeafLegacy(k: int)
    requires 0 <= k < |LegacySubfolders|
    ensures DataLeaf(LegacySubfolders[k])
  {
    var name := LegacySubfolders[k];
    LegacyNamesPlain();
    if k == 0 { assert name == "User Data"; NotAppFile(name); }
    else if k == 1 { assert name == "Cache"; NotAppFile(name); }
    else if k == 2 { assert name == "Logs"; NotAppFile(name); }
    else if k == 3 { assert name == "Local Storage"; NotAppFile(name); }
    else if k == 4 { assert name == "Session Storage"; NotAppFile(name); }
    else if k == 5 { assert name == "IndexedDB"; NotAppFile(name); }
    else { assert name == "databases"; NotAppFile(name); }
  }

  /** Whatever the data paths may hand over, an entry directly inside
      `LOCALAPPDATA\warp\Warp` that carries an application file's name is
      never among it: the settings directory and the legacy entries all
      end in a name that is not one, whatever the environment says. */
  lemma WindowsDataKeepsAppFiles(sys: System, home: string, env: Env, t: Target)
    requires WindowsDataTarget(sys, home, env, t) && IsChildOf(Sep(sys), t.pattern, WarpLocal(sys, home, env))
    ensures !IsAppFile(Name(Sep(sys), t.pattern))
  {
    var la, ad := LocalAppData(sys, home, env), RoamingAppData(sys, home, env);
    if t.pattern == WarpRoaming(sys, home, env) {
      LeafWarp();
      NameOfJoin(sys, Join(sys, ad, "warp"), "Warp");
    } else if t.pattern == Join(sys, ad, "dev.warp.Warp-stable") {
      LeafStable();
      NameOfJoin(sys, ad, "dev.warp.Warp-stable");
    } else if LegacyEntry(sys, Join(sys, la, "dev.warp.Warp-stable"), t.pattern) {
      LegacyName(sys, Join(sys, la, "dev.warp.Warp-stable"), t.pattern);
    } else if LegacyEntry(sys, Join(sys, la, "Warp"), t.pattern) {
      LegacyName(sys, Join(sys, la, "Warp"), t.pattern);
    }
  }

  /** A legacy data subfolder's name is not an application file name. */
  lemma LegacyName(sys: System, base: string, r: string)
    requires LegacyEntry(sys, base, r)
    ensures !IsAppFile(Name(Sep(sys), r))
  {
    var k :| 0 <= k < |LegacySubfolders| && r == Join(sys, base, LegacySubfolders[k]);
    LeafLegacy(k);
    NameOfJoin(sys, base, LegacySubfolders[k]);
  }

  /** What the four data paths of the Windows reset hand to `safe_remove`
      are all Windows data locations. */
  lemma WindowsDataTargets(sys: System, home: string, env: Env, official: seq<Target>, roaming: seq<Target>,
                           stableLocal: seq<Target>, stableRoaming: seq<Target>, oldLegacy: seq<Target>)
    requires forall t :: t in official ==>
      t.Pattern? && IsChildOf(Sep(sys), t.pattern, WarpLocal(sys, home, env)) && !IsAppFile(Name(Sep(sys), t.pattern))
    requires roaming == [] || roaming == [Pattern(WarpRoaming(sys, home, env))]
    requires AllLegacy(sys, Join(sys, LocalAppData(sys, home, env), "dev.warp.Warp-stable"), stableLocal)
    requires stableRoaming == [] || stableRoaming == [Pattern(Join(sys, RoamingAppData(sys, home, env), "dev.warp.Warp-stable"))]
    requires AllLegacy(sys, Join(sys, LocalAppData(sys, home, env), "Warp"), oldLegacy)
    ensures forall t :: t in official + roaming + stableLocal + stableRoaming + oldLegacy ==>
      WindowsDataTarget(sys, home, env, t)
  {
    AllLegacyMembers(sys, Join(sys, LocalAppData(sys, home, env), "dev.warp.Warp-stable"), stableLocal);
    AllLegacyMembers(sys, Join(sys, LocalAppData(sys, home, env), "Warp"), oldLegacy);
  }

  // ---------------------------------------------------------------------
  // The tool

  /** `WarpIdentityReset`. The filesystem is part of the object's state; the
      ghost log `requests` records every argument handed to `safe_remove`,
      and `Valid()` says that the filesystem and `reset_count` are exactly
      what replaying that log from the initial filesystem produces. */
  class IdentityResetTool {
    const system: System
    const home: string
    const env: Env
    const uid: Option<nat>
    const admin: bool
    const host: Host
    var fs: Fs
    var resetCount: nat
    ghost const initialFs: Fs
    ghost var requests: seq<Target>

    ghost predicate Valid()
      reads this
    {
      var t := Sweep(host, Sep(system), IdentityReset, initialFs, 0, requests);
      fs == t.fs && resetCount == t.count
    }

    constructor (system: System, home: string, env: Env, uid: Option<nat>, admin: bool, host: Host, fs: Fs)
      ensures this.system == system && this.home == home && this.env == env
      ensures this.uid == uid && this.admin == admin && this.host == host
      ensures this.fs == fs && resetCount == 0 && requests == [] && Valid()
    {
      this.system, this.home, this.env := system, home, env;
      this.uid, this.admin, this.host := uid, admin, host;
      this.fs, resetCount := fs, 0;
      initialFs, requests := fs, [];
    }

    /** The loop of `safe_remove` over the expanded paths: skip protected
        installation paths, remove each other path on its own; an exception
        from one path changes nothing and the loop goes on. */
    method RemoveExpanded(paths: seq<string>)
      modifies this
      ensures requests == old(requests)
      ensures var b := Batch(host, Sep(system), IdentityReset, old(fs), paths);
        fs == b.fs && resetCount == old(resetCount) + Gain(b.outcomes)
    {
      var sep := Sep(system);
      var i := 0;
      while i < |paths|
        invariant 0 <= i <= |paths| && requests == old(requests)
        invariant var b := Batch(host, sep, IdentityReset, old(fs), paths[..i]);
          fs == b.fs && resetCount == old(resetCount) + Gain(b.outcomes)
      {
        var path := paths[i];
        ghost var step := Attempt(host, sep, IdentityReset, fs, path);
        ghost var count := resetCount;
        BatchStep(host, sep, IdentityReset, old(fs), paths, i);
        GainSnoc(Batch(host, sep, IdentityReset, old(fs), paths[..i]).outcomes, step.outcome);
        if IsProtected(path) {
          // a main installation path: skipped
        } else {
          var kind := if path in fs then fs[path] else Special;
          if (kind == Dir || kind == File) && path in host.failing {
            // PermissionError, FileNotFoundError or OSError: reported, nothing changes
          } else {
            if kind == Dir {
              fs := RemoveTree(fs, sep, path);
            } else if kind == File {
              fs := fs - {path};
            }
            resetCount := resetCount + 1;
          }
        }
        assert fs == step.fs && resetCount == count + (if Counted(step.outcome) then 1 else 0);
        i := i + 1;
      }
      assert paths[..|paths|] == paths;
    }

    /** `safe_remove`: expand the argument (recursively for `**`); a glob
        error is reported and removes nothing; otherwise the expanded paths
        are handled one by one. */
    method SafeRemove(t: Target)
      requires Valid()
      modifies this
      ensures Valid()
      ensures requests == old(requests) + [t]
      ensures var r := RemoveTarget(host, Sep(system), IdentityReset, old(fs), t);
        fs == r.fs && resetCount == old(resetCount) + r.gain
    {
      var expansion := Expand(host, fs, t, true);
      if expansion.Expanded? {
        RemoveExpanded(expansion.paths);
      }
      requests := requests + [t];
      assert requests[..|requests| - 1] == old(requests);
    }

    /** A run of `safe_remove` calls, in order. */
    method SafeRemoveAll(ts: seq<Target>)
      requires Valid()
      modifies this
      ensures Valid()
      ensures requests == old(requests) + ts
      ensures var t := Sweep(host, Sep(system), IdentityReset, old(fs), old(resetCount), ts);
        fs == t.fs && resetCount == t.count
    {
      for k := 0 to |ts|
        invariant Valid() && requests == old(requests) + ts[..k]
      {
        SafeRemove(ts[k]);
        assert ts[..k + 1] == ts[..k] + [ts[k]];
      }
      assert ts[..|ts|] == ts;
      SweepAppend(host, Sep(system), IdentityReset, initialFs, 0, old(requests), ts);
    }

    /** `reset_macos_identity`, less the Launch Services call: its fourteen
        `safe_remove` calls, in their order. */
    method ResetMacosIdentity()
      requires Valid()
      modifies this
      ensures Valid()
      ensures requests == old(requests) + LibraryTargets(system, home)
      ensures var t := Sweep(host, Sep(system), IdentityReset, old(fs), old(resetCount), LibraryTargets(system, home));
        fs == t.fs && resetCount == t.count
    {
      SafeRemoveAll(LibraryTargets(system, home));
    }

    /** `reset_linux_identity`: its `safe_remove` calls, in their order. */
    method ResetLinuxIdentity()
      requires Valid()
      modifies this
      ensures Valid()
      ensures requests == old(requests) + LinuxResetTargets(system, home, env, uid)
      ensures var t := Sweep(host, Sep(system), IdentityReset, old(fs), old(resetCount), LinuxResetTargets(system, home, env, uid));
        fs == t.fs && resetCount == t.count
    {
      SafeRemoveAll(LinuxResetTargets(system, home, env, uid));
    }

    /** Path 1 of `reset_windows_identity`: every entry directly inside
        `dir` (the official `LOCALAPPDATA\warp\Warp`) except the
        application's own files is handed to `safe_remove`, once each, in
        whatever order the directory lists them. */
    method CleanOfficialLocalData(dir: string) returns (ghost added: seq<Target>)
      requires Valid()
      modifies this
      ensures Valid() && requests == old(requests) + added
      ensures forall t :: t in added ==>
        t.Pattern? && IsChildOf(Sep(system), t.pattern, dir) && !IsAppFile(Name(Sep(system), t.pattern))
      ensures dir in old(fs) ==>
        forall q :: (q in old(fs) && IsChildOf(Sep(system), q, dir) && !IsAppFile(Name(Sep(system), q)))
          ==> Pattern(q) in added
      ensures dir !in old(fs) ==> added == []
      ensures Distinct(added)
    {
      var sep := Sep(system);
      added := [];
      if dir in fs {
        var items := Children(fs, sep, dir);
        ghost var listed := items;
        while items != {}
          invariant items <= listed && Valid() && requests == old(requests) + added
          invariant forall t :: t in added ==>
            t.Pattern? && IsChildOf(sep, t.pattern, dir) && !IsAppFile(Name(sep, t.pattern))
          invariant forall q :: q in listed - items && !IsAppFile(Name(sep, q)) ==> Pattern(q) in added
          invariant forall t :: t in added ==> t.pattern in listed - items
          invariant Distinct(added)
          decreases items
        {
          var item :| item in items;
          if !IsAppFile(Name(sep, item)) {
            assert Pattern(item) !in added;
            DistinctSnoc(added, Pattern(item));
            SafeRemove(Pattern(item));
            LogAppend(old(requests), added, [Pattern(item)]);
            added := added + [Pattern(item)];
          }
          items := items - {item};
        }
      }
    }

    /** The legacy loop: each data subfolder of `base` that exists is handed
        to `safe_remove`. */
    method CleanLegacySubfolders(base: string) returns (ghost added: seq<Target>)
      requires Valid()
      modifies this
      ensures Valid() && requests == old(requests) + added
      ensures AllLegacy(system, base, added)
      ensures LegacyLiteral(system, base) ==>
        forall k :: 0 <= k < |LegacySubfolders| && Join(system, base, LegacySubfolders[k]) in old(fs) ==>
          Pattern(Join(system, base, LegacySubfolders[k])) in added
    {
      added := [];
      for k := 0 to |LegacySubfolders|
        invariant Valid() && requests == old(requests) + added
        invariant AllLegacy(system, base, added)
        invariant LegacyLiteral(system, base) ==>
          LegacyKept(system, base, k, old(fs), fs) && LegacyCovered(system, base, k, old(fs), added)
      {
        ghost var before := fs;
        ghost var step := CleanLegacyOne(base, k);
        AllLegacySnoc(system, base, added, k, step);
        if LegacyLiteral(system, base) {
          LegacyLoopStep(system, base, k, old(fs), before, fs, added, step);
        }
        LogAppend(old(requests), added, step);
        added := added + step;
      }
    }

    /** One iteration of the legacy loop: the `k`-th subfolder is handed to
        `safe_remove` when it exists, and the later subfolders are left in
        place. */
    method CleanLegacyOne(base: string, k: int) returns (ghost step: seq<Target>)
      requires Valid() && 0 <= k < |LegacySubfolders|
      modifies this
      ensures Valid() && requests == old(requests) + step
      ensures Join(system, base, LegacySubfolders[k]) in old(fs) ==> step == [Pattern(Join(system, base, LegacySubfolders[k]))]
      ensures Join(system, base, LegacySubfolders[k]) !in old(fs) ==> step == []
      ensures LegacyLiteral(system, base) ==> LegacyKept(system, base, k + 1, old(fs), fs)
    {
      var sub := Join(system, base, LegacySubfolders[k]);
      step := [];
      if sub in fs {
        SafeRemove(Pattern(sub));
        step := [Pattern(sub)];
        if LegacyLiteral(system, base) {
          LaterLegacySurvive(host, system, base, k, old(fs), fs);
        }
      }
    }

    /** The TEMP sweep of `reset_windows_identity`: items matching the
        session patterns are removed unless their suffix marks an
        installer. */
    method CleanTempSessions() returns (ghost added: seq<Target>)
      requires Valid()
      modifies this
      ensures Valid() && requests == old(requests) + added
      ensures forall t :: t in added ==> TempTarget(host, system, env, t)
    {
      var sep := Sep(system);
      var temp := TempDir(system, env);
      added := [];
      for k := 0 to |TempPatterns|
        invariant Valid() && requests == old(requests) + added
        invariant forall t :: t in added ==> TempTarget(host, system, env, t)
      {
        var items := host.pathGlob(temp, TempPatterns[k], fs);
        ghost var seen := fs;
        for j := 0 to |items|
          invariant Valid() && requests == old(requests) + added
          invariant forall t :: t in added ==> TempTarget(host, system, env, t)
        {
          if !IsInstaller(sep, items[j]) {
            assert items[j] in host.pathGlob(temp, TempPatterns[k], seen);
            assert TempTarget(host, system, env, Pattern(items[j]));
            SafeRemove(Pattern(items[j]));
            LogAppend(old(requests), added, [Pattern(items[j])]);
            added := added + [Pattern(items[j])];
          }
        }
      }
    }

    /** One `if path.exists(): safe_remove(path)` step. */
    method RemoveIfPresent(p: string) returns (ghost added: seq<Target>)
      requires Valid()
      modifies this
      ensures Valid() && requests == old(requests) + added
      ensures p in old(fs) ==> added == [Pattern(p)]
      ensures p !in old(fs) ==> added == []
    {
      if p in fs {
        SafeRemove(Pattern(p));
        added := [Pattern(p)];
      } else {
        added := [];
      }
    }

    /** The legacy loop over `base`, run only when `base` exists. */
    method CleanLegacyIfPresent(base: string) returns (ghost added: seq<Target>)
      requires Valid()
      modifies this
      ensures Valid() && requests == old(requests) + added
      ensures AllLegacy(system, base, added)
      ensures base !in old(fs) ==> added == []
      ensures base in old(fs) && LegacyLiteral(system, base) ==>
        forall k :: 0 <= k < |LegacySubfolders| && Join(system, base, LegacySubfolders[k]) in old(fs) ==>
          Pattern(Join(system, base, LegacySubfolders[k])) in added
    {
      if base in fs {
        added := CleanLegacySubfolders(base);
      } else {
        added := [];
      }
    }

    /** The data half of `reset_windows_identity`, in the order of the
        source's four paths. */
    method CleanWindowsData() returns (ghost added: seq<Target>)
      requires Valid()
      modifies this
      ensures Valid() && requests == old(requests) + added
      ensures forall t :: t in added ==> WindowsDataTarget(system, home, env, t)
    {
      var la := LocalAppData(system, home, env);
      var ad := RoamingAppData(system, home, env);

      // Path 1: official data directory, application files kept
      ghost var official := CleanOfficialLocalData(WarpLocal(system, home, env));
      added := official;

      // Path 2: roaming settings
      ghost var roaming := RemoveIfPresent(WarpRoaming(system, home, env));
      LogAppend(old(requests), added, roaming);
      added := added + roaming;

      // Path 3: legacy dev.warp.Warp-stable, local then roaming
      ghost var stableLocal := CleanLegacyIfPresent(Join(system, la, "dev.warp.Warp-stable"));
      LogAppend(old(requests), added, stableLocal);
      added := added + stableLocal;
      ghost var stableRoaming := RemoveIfPresent(Join(system, ad, "dev.warp.Warp-stable"));
      LogAppend(old(requests), added, stableRoaming);
      added := added + stableRoaming;

      // Path 4: old LOCALAPPDATA\Warp, unless it is the official parent
      var oldLocal := Join(system, la, "Warp");
      ghost var oldLegacy: seq<Target> := [];
      if !SamePath(system, oldLocal, Join(system, la, "warp")) {
        oldLegacy := CleanLegacyIfPresent(oldLocal);
      }
      LogAppend(old(requests), added, oldLegacy);
      added := added + oldLegacy;
      WindowsDataTargets(system, home, env, official, roaming, stableLocal, stableRoaming, oldLegacy);
    }

    /** `reset_windows_identity`, less the registry, browser and process
        steps: first the data locations, then the TEMP session items. */
    method ResetWindowsIdentity() returns (ghost data: seq<Target>, ghost temp: seq<Target>)
      requires Valid()
      modifies this
      ensures Valid() && requests == old(requests) + data + temp
      ensures forall t :: t in data ==> WindowsDataTarget(system, home, env, t)
      ensures forall t :: t in temp ==> TempTarget(host, system, env, t)
      ensures forall t :: t in data && t.Pattern? && IsChildOf(Sep(system), t.pattern, WarpLocal(system, home, env)) ==>
        !IsAppFile(Name(Sep(system), t.pattern))
    {
      data := CleanWindowsData();
      forall t | t in data && t.Pattern? && IsChildOf(Sep(system), t.pattern, WarpLocal(system, home, env))
        ensures !IsAppFile(Name(Sep(system), t.pattern))
      {
        WindowsDataKeepsAppFiles(system, home, env, t);
      }
      temp := CleanTempSessions();
    }

    /** `verify_app_still_installed`'s inner loop: the first existing
        location, stopping at the first hit. */
    method FirstExisting(locs: seq<string>) returns (hit: Option<string>)
      ensures FirstHit(fs, locs, hit)
    {
      hit := None;
      var i := 0;
      while i < |locs|
        invariant 0 <= i <= |locs|
        invariant forall j :: 0 <= j < i ==> locs[j] !in fs
      {
        if locs[i] in fs {
          hit := Some(locs[i]);
          break;
        }
        i := i + 1;
      }
    }

    /** `verify_app_still_installed`: true iff the application is found;
        `evidence` is what proved it (the PATH binary on Linux, otherwise
        the first existing install location in the platform's order). */
    method VerifyAppStillInstalled() returns (appExists: bool, evidence: Option<string>)
      ensures appExists <==> evidence.Some?
      ensures system == Linux && host.which("warp", fs).Some? ==> evidence == host.which("warp", fs)
      ensures !(system == Linux && host.which("warp", fs).Some?) ==>
        FirstHit(fs, InstallLocations(system, home, env), evidence)
    {
      var locs := InstallLocations(system, home, env);
      if system == Darwin {
        evidence := if "/Applications/Warp.app" in fs then Some("/Applications/Warp.app") else None;
        assert evidence.Some? ==> locs[0] == evidence.value;
      } else if system == Windows {
        var official := locs[0];
        if official in fs {
          evidence := Some(official);
          assert locs[0] == official;
        } else {
          evidence := FirstExisting(locs[1..]);
          FirstHitBehindMiss(fs, locs, evidence);
        }
      } else if system == Linux {
        var binary := host.which("warp", fs);
        if binary.Some? {
          evidence := binary;
        } else {
          evidence := FirstExisting(locs);
        }
      } else {
        evidence := None;
      }
      appExists := evidence.Some?;
    }

    /** `run`: refuses on Windows without administrator rights and on an
        unsupported system, before anything is deleted; otherwise resets the
        platform's identity data, checks the installation, and reports
        success whatever was deleted or found. */
    method Run() returns (ok: bool, ghost removed: seq<Target>)
      requires Valid()
      modifies this
      ensures Valid() && requests == old(requests) + removed
      ensures ok <==> system != Other && (system == Windows ==> admin)
      ensures !ok ==> removed == [] && fs == old(fs) && resetCount == old(resetCount)
      ensures system == Darwin ==> removed == LibraryTargets(system, home)
      ensures system == Linux ==> removed == LinuxResetTargets(system, home, env, uid)
      ensures system == Windows ==> forall t :: t in removed ==>
        WindowsDataTarget(system, home, env, t) || TempTarget(host, system, env, t)
    {
      removed := [];
      if system == Windows && !admin {
        return false, removed;
      }
      // processes are stopped here
      if system == Darwin {
        ResetMacosIdentity();
        removed := LibraryTargets(system, home);
      } else if system == Windows {
        ghost var data, temp := ResetWindowsIdentity();
        LogAppend(old(requests), data, temp);
        removed := data + temp;
      } else if system == Linux {
        ResetLinuxIdentity();
        removed := LinuxResetTargets(system, home, env, uid);
      } else {
        return false, removed;
      }
      var appStillThere, _ := VerifyAppStillInstalled();
      return true, removed;
    }
  }
}
