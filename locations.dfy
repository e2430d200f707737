/** Where the two tools look: the environment-or-default base directories
    of each platform and the candidate paths derived from them. */
module Locations {
  import opened Strings
  import opened Paths
  import opened Files

  /** `Path(os.environ.get(name, home / rel))` for one XDG base directory. */
  function XdgBase(sys: System, env: Env, home: string, name: string, rel: string): string
  {
    EnvPath(sys, env, name, Join(sys, home, rel))
  }

  /** A leaf under an XDG base: under the variable's value when it is set,
      under the home default otherwise. */
  lemma XdgLeaf(sys: System, env: Env, home: string, name: string, rel: string, leaf: string)
    ensures name in env ==> Join(sys, XdgBase(sys, env, home, name, rel), leaf) == Join(sys, env[name], leaf)
    ensures name !in env ==> Join(sys, XdgBase(sys, env, home, name, rel), leaf) == Join(sys, Join(sys, home, rel), leaf)
  {
    NativeIdempotent(sys, EnvOr(env, name, Join(sys, home, rel)));
  }

  /** The `warp` and `Warp` candidates under an XDG base, which is the
      variable's value verbatim when it is set and the home default
      otherwise. */
  lemma XdgPair(sys: System, env: Env, home: string, name: string, rel: string, lower: Target, upper: Target)
    requires lower == Pattern(Join(sys, XdgBase(sys, env, home, name, rel), "warp"))
    requires upper == Pattern(Join(sys, XdgBase(sys, env, home, name, rel), "Warp"))
    ensures var base := if name in env then env[name] else Join(sys, home, rel);
      lower == Pattern(Join(sys, base, "warp")) && upper == Pattern(Join(sys, base, "Warp"))
  {
    XdgLeaf(sys, env, home, name, rel, "warp");
    XdgLeaf(sys, env, home, name, rel, "Warp");
  }

  /** `f"/run/user/{uid}/warp"`. */
  function RuntimePath(uid: nat): string
  {
    "/run/user/" + NatToString(uid) + "/warp"
  }

  /** `f"/tmp/warp-{os.getenv('USER', '*')}"`: a glob over every user's
      directory when USER is unset. */
  function TempSessionPath(env: Env): (r: string)
    ensures "USER" !in env ==> HasMagic(r)
  {
    var r := "/tmp/warp-" + EnvOr(env, "USER", "*");
    assert "USER" !in env ==> r[10] == '*';
    r
  }

  /** The seven `~/Library` folders the macOS tools clear. */
  const MacLibraryFolders: seq<string> := [
    "Application Support", "Preferences", "Caches", "Logs", "WebKit",
    "Saved Application State", "HTTPStorages"
  ]

  /** `str(home / "Library/<folder>/<name>")`. */
  function LibraryGlob(sys: System, home: string, folder: string, name: string): string
  {
    Join(sys, home, "Library/" + folder + "/" + name)
  }

  /** The Library globs both tools hand to `safe_remove` on macOS: a
      `*warp*` and a `*Warp*` glob in each Library folder, in folder order. */
  function LibraryTargets(sys: System, home: string): (ts: seq<Target>)
    ensures |ts| == 2 * |MacLibraryFolders|
  {
    seq(2 * |MacLibraryFolders|, i requires 0 <= i < 2 * |MacLibraryFolders| =>
      Pattern(LibraryGlob(sys, home, MacLibraryFolders[i / 2], if i % 2 == 0 then "*warp*" else "*Warp*")))
  }

  /** The list pairs up with the folders: entries `2k` and `2k + 1` are the
      lower- and upper-case globs of folder `k`. */
  lemma LibraryTargetPairs(sys: System, home: string)
    ensures var ts := LibraryTargets(sys, home);
      forall k :: 0 <= k < |MacLibraryFolders| ==>
        ts[2 * k] == Pattern(LibraryGlob(sys, home, MacLibraryFolders[k], "*warp*"))
        && ts[2 * k + 1] == Pattern(LibraryGlob(sys, home, MacLibraryFolders[k], "*Warp*"))
  {
    forall k | 0 <= k < |MacLibraryFolders| {
      LibraryTargetPair(sys, home, k);
    }
  }

  lemma LibraryTargetPair(sys: System, home: string, k: int)
    requires 0 <= k < |MacLibraryFolders|
    ensures var ts := LibraryTargets(sys, home);
      && ts[2 * k] == Pattern(LibraryGlob(sys, home, MacLibraryFolders[k], "*warp*"))
      && ts[2 * k + 1] == Pattern(LibraryGlob(sys, home, MacLibraryFolders[k], "*Warp*"))
  {
    assert (2 * k) / 2 == k && (2 * k) % 2 == 0;
    assert (2 * k + 1) / 2 == k && (2 * k + 1) % 2 == 1;
  }


  /** Joining a name pattern that ends in `*` gives a wildcard pattern that
      ends in it too. */
  lemma GlobLeaf(sys: System, base: string, name: string)
    requires name != [] && name[|name| - 1] == '*'
    ensures var g := Join(sys, base, name); g != [] && g[|g| - 1] == '*' && HasMagic(g)
  {
    var g := Join(sys, base, name);
    assert Native(sys, name)[|name| - 1] == '*';
    assert g[|g| - 1] in "*?[";
  }

  /** Every Library target is a wildcard pattern, so none of them is the
      application bundle `/Applications/Warp.app`. */
  lemma LibraryTargetsAreGlobs(sys: System, home: string)
    ensures forall t :: t in LibraryTargets(sys, home) ==> t.Pattern? && HasMagic(t.pattern)
    ensures Pattern("/Applications/Warp.app") !in LibraryTargets(sys, home)
  {
    var ts := LibraryTargets(sys, home);
    forall t | t in ts ensures t.Pattern? && HasMagic(t.pattern) && t != Pattern("/Applications/Warp.app") {
      var i :| 0 <= i < |ts| && ts[i] == t;
      LibraryTargetIsGlob(sys, home, i);
    }
  }

  lemma LibraryTargetIsGlob(sys: System, home: string, i: int)
    requires 0 <= i < 2 * |MacLibraryFolders|
    ensures var t := LibraryTargets(sys, home)[i];
      t.Pattern? && HasMagic(t.pattern) && t != Pattern("/Applications/Warp.app")
  {
    var app := "/Applications/Warp.app";
    var name := if i % 2 == 0 then "*warp*" else "*Warp*";
    var rel := "Library/" + MacLibraryFolders[i / 2] + "/" + name;
    assert rel[|rel| - 1] == '*';
    GlobLeaf(sys, home, rel);
    assert app[|app| - 1] == 'p';
  }

  /** `Path(os.environ.get('LOCALAPPDATA', str(home / 'AppData/Local')))`. */
  function LocalAppData(sys: System, home: string, env: Env): string
  {
    EnvPath(sys, env, "LOCALAPPDATA", Join(sys, home, "AppData/Local"))
  }

  /** `Path(os.environ.get('APPDATA', str(home / 'AppData/Roaming')))`. */
  function RoamingAppData(sys: System, home: string, env: Env): string
  {
    EnvPath(sys, env, "APPDATA", Join(sys, home, "AppData/Roaming"))
  }

  /** `Path(os.environ.get('TEMP', 'C:/Windows/Temp'))`. */
  function TempDir(sys: System, env: Env): string
  {
    EnvPath(sys, env, "TEMP", "C:/Windows/Temp")
  }

  /** `Path(os.environ.get('PROGRAMFILES', 'C:/Program Files'))`. */
  function ProgramFiles(sys: System, env: Env): string
  {
    EnvPath(sys, env, "PROGRAMFILES", "C:/Program Files")
  }

  /** `Path(os.environ.get('PROGRAMFILES(X86)', 'C:/Program Files (x86)'))`. */
  function ProgramFilesX86(sys: System, env: Env): string
  {
    EnvPath(sys, env, "PROGRAMFILES(X86)", "C:/Program Files (x86)")
  }

  /** A leaf under each Windows base directory: under the variable's value
      when it is set, under the default otherwise. */
  lemma WindowsBaseLeaf(sys: System, home: string, env: Env, leaf: string)
    ensures Join(sys, LocalAppData(sys, home, env), leaf) ==
      Join(sys, if "LOCALAPPDATA" in env then env["LOCALAPPDATA"] else Join(sys, home, "AppData/Local"), leaf)
    ensures Join(sys, RoamingAppData(sys, home, env), leaf) ==
      Join(sys, if "APPDATA" in env then env["APPDATA"] else Join(sys, home, "AppData/Roaming"), leaf)
    ensures Join(sys, TempDir(sys, env), leaf) ==
      Join(sys, if "TEMP" in env then env["TEMP"] else "C:/Windows/Temp", leaf)
    ensures Join(sys, ProgramFiles(sys, env), leaf) ==
      Join(sys, if "PROGRAMFILES" in env then env["PROGRAMFILES"] else "C:/Program Files", leaf)
    ensures Join(sys, ProgramFilesX86(sys, env), leaf) ==
      Join(sys, if "PROGRAMFILES(X86)" in env then env["PROGRAMFILES(X86)"] else "C:/Program Files (x86)", leaf)
  {
    JoinNative(sys, EnvOr(env, "LOCALAPPDATA", Join(sys, home, "AppData/Local")), leaf);
    JoinNative(sys, EnvOr(env, "APPDATA", Join(sys, home, "AppData/Roaming")), leaf);
    JoinNative(sys, EnvOr(env, "TEMP", "C:/Windows/Temp"), leaf);
    JoinNative(sys, EnvOr(env, "PROGRAMFILES", "C:/Program Files"), leaf);
    JoinNative(sys, EnvOr(env, "PROGRAMFILES(X86)", "C:/Program Files (x86)"), leaf);
  }
}
