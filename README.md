# warp-bypass: a Dafny model of the two cleanup tools

The repository ships two Python scripts that delete Warp terminal data.

- `warp_id_reset.py` (class `WarpIdentityReset`) clears the data that identifies
  a machine to Warp and keeps the application installed.
- `warp_remover.py` (class `WarpRemover`) removes the application together with
  all of its data.

Both tools use one mechanism. Each works out a platform-specific list of
candidate paths and hands each candidate to `safe_remove`. That call expands
the candidate to concrete entries and deletes them one by one. A failure on
one entry never stops the batch, and every entry handled without an exception
adds one to the tool's counter. The identity reset also holds back every path
in which one of seven installation markers occurs, in any case. On Windows it
additionally keeps the application's own files and downloaded installers.

## How the model is built

- `strings.dfy` (`Strings`): ASCII `str.lower`, the substring test `sub in s`,
  `str.endswith`, and the decimal rendering of a uid.
- `paths.dfy` (`Paths`): the platform, the environment as a map,
  `str(Path(...))`, where Windows writes every `/` as `\`, path joining,
  `os.environ.get(name, default)`, `Path.name`, `Path.suffix`, and the
  case-blind equality of `WindowsPath`.
- `files.dfy` (`Files`): the filesystem as a `map<string, Kind>`, where
  removing a directory removes every entry at or below it. It also holds the
  `Host` oracles for the library calls whose semantics the model leaves open
  (wildcard `glob.glob`, `Path.glob`, `shutil.which`, and which removals
  raise which exception).
  - A `safe_remove` argument is a `Target`: a `str` is a `Pattern`, a `Path`
    object is a `Literal`.
  - A pattern without wildcards is expanded exactly: it yields itself iff the
    entry exists.
- `deletion.dfy` (`Deletion`): the shared mechanism as functions.
  - `Attempt` handles one path.
  - `Batch` is the loop over the expanded paths.
  - `RemoveTarget` is one `safe_remove` call.
  - `Sweep` is a run of calls.
  - `Mode` says which tool runs the batch: only the identity reset filters
    and globs recursively.
  - The lemmas here are the counter rule, error isolation and what the
    protection filter guarantees.
- `locations.dfy` (`Locations`): the path derivations that both tools share.
  These are the XDG bases, the Windows folders, the runtime and temp paths,
  and the macOS Library globs.
- `idreset.dfy` (`IdReset`), with the class `IdentityResetTool`.
- `remover.dfy` (`Remover`), with the class `WarpRemover`.

Each class has the system, home directory, environment, uid and `Host` as
constants. Its fields are the filesystem and the counter. A ghost log
`requests` records every argument handed to `safe_remove`. `Valid()` states
that the filesystem and the counter are exactly what a `Sweep` of that log
produces from the initial filesystem.

- The loops of `safe_remove`, of the Windows data paths and of the
  verification routines are `while`/`for` loops, each proved against those
  functions.
- The straight-line `reset_*`/`remove_*` methods become an ordered target list
  plus a loop over it. Lemmas state the order and content of each list.

Behaviour that follows the code rather than the stated design intent:

- The marker `local\warp\warp.exe` does not occur in the official executable
  path `LOCALAPPDATA\warp\Warp\Warp.exe`. Lower-cased, that path reads
  `...\local\warp\warp\warp.exe`. On Windows the executable is protected by
  the name skip-list of the `iterdir` loop, not by the marker table. This is
  read off the marker text; no lemma states it.
- On Windows, the guard of the fourth data path in `reset_windows_identity`
  is `warp_old_local != warp_local.parent`. It compares `LOCALAPPDATA\Warp`
  with `LOCALAPPDATA\warp`. `PureWindowsPath` compares without regard to
  case, so the guard is always false and the block never runs. The method
  keeps the guard (`SamePath`); `OldLocalBlockNeverRunsOnWindows` proves that
  it is false.
- In the remover, `safe_remove` does not catch an exception raised by
  `glob.glob`. Such an error passes through `run` and `main`, which call
  it without a `try`, so the script ends with a traceback and `run` never
  returns. This is `Completion.Raised`, and `Chain` is the run of calls that
  stops at the first one.
- The leftover count of `verify_removal` counts entries below
  overlapping search roots once per root.

## Model

| member | source | states |
|---|---|---|
| Strings.Lower | warp_id_reset.py:77 | `lower()` keeps the length and lower-cases each ASCII letter in place |
| Strings.ContainsIff | warp_id_reset.py:89 | the scan `protected in path_lower` succeeds iff the marker occurs at some position |
| Strings.NatToStringRoundTrip | warp_id_reset.py:470 | the decimal uid in `/run/user/{uid}/warp` reads back as the same number, so distinct uids give distinct paths |
| Paths.Native | warp_id_reset.py:477-478 | `str(Path(s))` keeps the length, and on Windows no `/` is left |
| Paths.NativeIdempotent | warp_id_reset.py:477-478 | converting an already converted path changes nothing |
| Paths.JoinSiblingsApart | warp_id_reset.py:512-513 | two different separator-free names joined to one base never lie at or below each other |
| Paths.Name | warp_id_reset.py:495 | `Path.name` holds no separator, ends the path, and is preceded by a separator unless it is the whole path |
| Paths.NameOfChild | warp_id_reset.py:493-495 | the name of a direct child is the component after its parent |
| Paths.LastDot | warp_id_reset.py:547 | the index of the last `.`, or -1 when there is none |
| Paths.Suffix | warp_id_reset.py:547 | `Path.suffix` is empty or a dot-led ending with no further dot, shorter than the name |
| Paths.SuffixOfExtension | warp_id_reset.py:547 | conversely a dot-led extension after a non-empty stem is the suffix |
| Files.LiteralExpansion | warp_id_reset.py:66-73 | a candidate without wildcards expands like a `Path`: never an error, and to itself iff it exists |
| Files.RemoveTreeLaws | warp_id_reset.py:94-95 | `rmtree` removes the entry itself and adds nothing; removing the same tree again changes nothing; two trees give the same result in either order |
| Locations.XdgLeaf | warp_id_reset.py:435-461 | a leaf joined under an XDG base is under the variable's value when set, otherwise under the home default |
| Locations.XdgPair | warp_id_reset.py:444-445 | the `warp`/`Warp` candidates under an XDG base, in the same two cases |
| Locations.TempSessionPath | warp_id_reset.py:471 | when USER is unset the session path is a wildcard pattern over every user's directory |
| Locations.WindowsBaseLeaf | warp_id_reset.py:477-478 | a leaf under LOCALAPPDATA, APPDATA, TEMP, PROGRAMFILES or PROGRAMFILES(X86) lies under the variable's value when it is set and under that variable's default otherwise |
| Locations.LibraryTargets | warp_id_reset.py:386-417 | the macOS reset makes fourteen calls |
| Locations.LibraryTargetPairs | warp_id_reset.py:386-417 | calls 2k and 2k+1 are the `*warp*` and `*Warp*` globs of the k-th Library folder, in folder order |
| Locations.LibraryTargetsAreGlobs | warp_id_reset.py:380-417 | every macOS reset candidate is a wildcard pattern, and none is `/Applications/Warp.app` |
| Locations.GlobLeaf | warp_remover.py:229-244 | joining a name that ends in `*` gives a wildcard pattern |
| Deletion.ContainsAnyIff | warp_id_reset.py:89 | `any(...)` over the marker table holds iff some marker occurs |
| Deletion.ContainsAnyPrefix | warp_id_reset.py:89 | a marker occurring in a path still occurs when the path is extended |
| Deletion.Batch | warp_id_reset.py:75 | the loop produces one outcome per expanded path |
| Deletion.OutcomeRule | warp_id_reset.py:77-106 | a path is skipped iff the filter holds it back; a failure carries the exception the host raises for that very path |
| Deletion.CounterRule | warp_id_reset.py:93-100 | counted, failed and filtered paths add up to the expanded paths, so the counter grows by exactly the paths that were neither held back nor failed (an entry that is neither file nor directory counts too) |
| Deletion.FullRemovalSkipsNothing | warp_remover.py:70-78 | the remover's loop skips no path |
| Deletion.BatchAppend | warp_id_reset.py:75 | the loop over `a + b` is the loop over `a` followed by the loop over `b` on what is left |
| Deletion.IsolatedFailure | warp_id_reset.py:101-106 | a skipped or failing path changes nothing, and the rest of the batch runs as if it were absent |
| Deletion.BatchOnlyRemoves | warp_id_reset.py:93-100 | a batch only removes entries, and what is left keeps its kind |
| Deletion.RemovedOnlyBelowAttempted | warp_id_reset.py:88-100 | every removed entry lies at or below an expanded path that the filter let through and whose removal did not fail |
| Deletion.ProtectionInherited | warp_id_reset.py:77-91 | everything below a protected path is protected too |
| Deletion.ProtectedEntrySurvives | warp_id_reset.py:76-91 | an entry that only protected expanded paths cover survives the batch unchanged |
| Deletion.LiteralRemovalIdempotent | warp_id_reset.py:73-100 | removing an existing path removes it and counts one; a second call finds nothing and changes nothing |
| Deletion.KeepsOutside | warp_id_reset.py:66-100 | a call on a wildcard-free path keeps every entry that lies outside that path's tree |
| Deletion.SweepAppend | warp_id_reset.py:444-471 | consecutive runs of `safe_remove` calls compose |
| Deletion.SweepMonotone | warp_id_reset.py:64-106 | over any run of calls the counter never decreases and the filesystem only loses entries |
| IdReset.LinuxResetTargets | warp_id_reset.py:430-471 | the Linux reset makes eleven calls with a uid and ten without |
| IdReset.LinuxFixedTargets | warp_id_reset.py:446-471 | `~/.warp` is third; the runtime path is tenth when a uid exists; the temp session pattern is last |
| IdReset.LinuxConfigTargets | warp_id_reset.py:435-445 | the first two calls are `warp`/`Warp` under XDG_CONFIG_HOME verbatim, else `~/.config` |
| IdReset.LinuxDataTargets | warp_id_reset.py:436-451 | calls four and five are `warp`/`Warp` under XDG_DATA_HOME, else `~/.local/share` |
| IdReset.LinuxCacheTargets | warp_id_reset.py:437-456 | calls six and seven are `warp`/`Warp` under XDG_CACHE_HOME, else `~/.cache` |
| IdReset.LinuxStateTargets | warp_id_reset.py:438-461 | calls eight and nine are the state `warp` directory and its `logs`, with no `Warp` variant |
| IdReset.OldLocalBlockNeverRunsOnWindows | warp_id_reset.py:522-524 | on Windows `LOCALAPPDATA\Warp` equals `LOCALAPPDATA\warp` as paths, so the fourth data path's guard is false |
| IdReset.AllLegacyMembers | warp_id_reset.py:512-515 | the recursive "all legacy subfolders" fact gives membership for every collected target |
| IdReset.InstallLocations | warp_id_reset.py:596-633 | the locations checked, in order: only the app bundle on macOS; on Windows the official executable, then `Warp\Warp.exe` under LOCALAPPDATA and under the two program-files directories, each variable taken when set and its default otherwise; on Linux `/opt/Warp`, `/usr/local/bin/warp`, `/usr/bin/warp`, `~/.local/bin/warp`; none elsewhere |
| IdReset.WindowsDataTargets | warp_id_reset.py:487-529 | whatever the four data paths collect is a Windows data location |
| IdReset.WindowsDataKeepsAppFiles | warp_id_reset.py:487-529 | a Windows data location directly inside `LOCALAPPDATA\warp\Warp` never has an app file's name, whatever the environment: the settings and legacy entries all end in other names |
| IdReset.IdentityResetTool.constructor | warp_id_reset.py:55-58 | a new tool has a zero counter, an empty log and the given state |
| IdReset.IdentityResetTool.RemoveExpanded | warp_id_reset.py:75-106 | the loop over the expanded paths leaves exactly the state `Batch` describes, and the counter grows by its gain |
| IdReset.IdentityResetTool.SafeRemove | warp_id_reset.py:64-106 | one call logs its argument and leaves exactly the state `RemoveTarget` describes; a glob error removes and counts nothing |
| IdReset.IdentityResetTool.SafeRemoveAll | warp_id_reset.py:444-471 | calls in order give the `Sweep` of the list from the old state |
| IdReset.IdentityResetTool.ResetMacosIdentity | warp_id_reset.py:376-417 | the fourteen Library globs are processed in order and nothing else |
| IdReset.IdentityResetTool.ResetLinuxIdentity | warp_id_reset.py:430-471 | the Linux candidates are processed in order and nothing else |
| IdReset.IdentityResetTool.CleanOfficialLocalData | warp_id_reset.py:487-499 | every entry handed over is a direct child of `LOCALAPPDATA\warp\Warp` whose name is not an app file; every such child is handed over, and none twice; nothing happens when the directory is missing |
| IdReset.IdentityResetTool.CleanLegacySubfolders | warp_id_reset.py:512-515 | only legacy data subfolders of the base are handed over; when none of their paths holds a wildcard, every one that existed at the start is handed over |
| IdReset.LegacySiblings | warp_id_reset.py:512-513 | two different legacy subfolders of one base never lie at or below each other |
| IdReset.LaterLegacySurvive | warp_id_reset.py:512-515 | removing the k-th legacy subfolder keeps every later one that existed |
| IdReset.IdentityResetTool.CleanLegacyOne | warp_id_reset.py:513-515 | the subfolder is handed over iff it exists, and without wildcards the later subfolders stay in place |
| IdReset.IdentityResetTool.CleanTempSessions | warp_id_reset.py:531-548 | every item handed over is one that `Path(TEMP).glob` yielded for one of the four session patterns, and none whose lower-cased suffix is `.exe`, `.msi` or `.zip` |
| IdReset.IdentityResetTool.RemoveIfPresent | warp_id_reset.py:503-505 | the path is handed over iff it exists |
| IdReset.IdentityResetTool.CleanLegacyIfPresent | warp_id_reset.py:509-515 | the legacy loop runs only when the base exists and hands over only its data subfolders, and without wildcards all of those that exist |
| IdReset.IdentityResetTool.CleanWindowsData | warp_id_reset.py:477-529 | everything handed over by the four data paths is a Windows data location |
| IdReset.IdentityResetTool.ResetWindowsIdentity | warp_id_reset.py:473-548 | without the registry and browser steps: the data locations come first, then only non-installer TEMP glob matches; no data target directly inside `LOCALAPPDATA\warp\Warp` carries an app file's name |
| IdReset.IdentityResetTool.FirstExisting | warp_id_reset.py:615-620 | the result is the first existing location, or none when no location exists |
| IdReset.IdentityResetTool.VerifyAppStillInstalled | warp_id_reset.py:579-646 | true iff the application is found: the PATH binary on Linux, otherwise the first existing location in the platform's order, stopping at the first hit |
| IdReset.IdentityResetTool.Run | warp_id_reset.py:656-702 | succeeds iff the system is supported and, on Windows, it runs as administrator; a refusal deletes nothing; otherwise it processes the platform's candidates (on Windows, apart from the browser-profile calls that are not modelled, only data locations and non-installer TEMP glob matches) and succeeds whatever was found |
| Remover.MacRemovalTargets | warp_remover.py:102-143 | the macOS removal makes seventeen calls |
| Remover.MacRemovalExtendsReset | warp_remover.py:106-143 | the app bundle first, then the identity reset's fourteen Library globs, then the two Downloads globs |
| Remover.LinuxRemovalTargets | warp_remover.py:156-202 | the Linux removal makes sixteen calls with a uid and fifteen without |
| Remover.LinuxRemovalInstallFirst | warp_remover.py:160-165 | the four install locations come first |
| Remover.LinuxRemovalConfig | warp_remover.py:169-176 | calls five and six are `warp`/`Warp` under XDG_CONFIG_HOME verbatim, else `~/.config` |
| Remover.LinuxRemovalData | warp_remover.py:170-181 | calls eight and nine are `warp`/`Warp` under XDG_DATA_HOME, else `~/.local/share` |
| Remover.LinuxRemovalCache | warp_remover.py:171-185 | calls ten and eleven are `warp`/`Warp` under XDG_CACHE_HOME, else `~/.cache` |
| Remover.LinuxRemovalState | warp_remover.py:172-188 | call twelve is `warp` under XDG_STATE_HOME, else `~/.local/state` |
| Remover.LinuxRemovalFixed | warp_remover.py:177-202 | `~/.warp` is seventh; the runtime path comes after the desktop entries only with a uid; the temp path is last |
| Remover.WarpGlobsAreGlobs | warp_remover.py:229-244 | the `*warp*`/`*Warp*` candidates of a folder are wildcard patterns |
| Remover.WindowsRemovalTargets | warp_remover.py:210-244 | the Windows removal makes ten calls |
| Remover.WindowsRemovalEntries | warp_remover.py:215-244 | the ten calls with each base resolved: `Warp` under PROGRAMFILES and PROGRAMFILES(X86), then `*warp*`/`*Warp*` under LOCALAPPDATA, APPDATA, TEMP and `~/Downloads`, each variable taken when set and its default otherwise |
| Remover.WindowsRemovalShape | warp_remover.py:215-244 | the two install roots are `Path` objects, so their expansion cannot raise; the other eight calls are wildcard globs |
| Remover.SearchRoots | warp_remover.py:274-299 | two roots on macOS, three on Windows, ten on Linux, none elsewhere |
| Remover.LinuxRootsIgnoreEnvironment | warp_remover.py:287-299 | the Linux roots are home defaults, independent of the XDG variables |
| Remover.LeftoversShrink | warp_remover.py:302-308 | removing entries never adds a leftover under any root |
| Remover.LeftoversAfterRemoveTree | warp_remover.py:302-308 | after `rmtree(p)` a root's leftovers are exactly its earlier leftovers that do not lie at or below `p` |
| Remover.WalkNested | warp_remover.py:305 | a walk that reaches a directory reaches everything below it that the walk from it reaches |
| Remover.NestedLeftovers | warp_remover.py:302-308 | the leftovers of a nested root are leftovers of the outer root too |
| Remover.NestedRootCountedTwice | warp_remover.py:302-308 | with a nested root, the total is at least twice the nested root's leftovers |
| Remover.LinuxApplicationsCountedTwice | warp_remover.py:290-297 | entries under `~/.local/share/applications` are counted twice |
| Remover.LeftoverCountAtLeast | warp_remover.py:302-308 | each root's leftovers are part of the total |
| Remover.LeftoverCountTwo | warp_remover.py:302-308 | two distinct roots both add their leftovers to the total |
| Remover.Chain | warp_remover.py:63-68 | a run makes at most one call per candidate; all of them unless one raises, and at least one when one raises |
| Remover.ChainIsSweep | warp_remover.py:63-80 | the calls a run makes leave exactly the state of the shared `Sweep` over them |
| Remover.ChainStopped | warp_remover.py:66 | once a call has raised, the later candidates are never attempted |
| Remover.ChainStopsAtRaise | warp_remover.py:66 | the call that ended a run is one whose glob raised on the state the earlier calls left |
| Remover.ChainNoEarlierRaise | warp_remover.py:66 | no earlier call of the run raised |
| Remover.ChainWithoutRaise | warp_remover.py:63-80 | a run in which nothing raises makes every call and is the sweep |
| Remover.WarpRemover.constructor | warp_remover.py:54-57 | a new remover has a zero counter, an empty log and the given state |
| Remover.WarpRemover.RemoveExpanded | warp_remover.py:70-80 | every expanded path is attempted with no filter, leaving exactly the state `Batch` describes |
| Remover.WarpRemover.SafeRemove | warp_remover.py:63-80 | one call leaves the state `RemoveTarget` describes, and reports a raise iff the glob of that pattern raised |
| Remover.WarpRemover.SafeRemoveAll | warp_remover.py:102-244 | the candidates are processed in order until one raises: the log grows by exactly the calls `Chain` makes, the state is the one it leaves, and the result is raised iff the run was |
| Remover.WarpRemover.RemoveMacosWarp | warp_remover.py:102-143 | the macOS candidates, in that sense |
| Remover.WarpRemover.RemoveLinuxWarp | warp_remover.py:156-202 | the Linux candidates, in that sense |
| Remover.WarpRemover.RemoveWindowsWarp | warp_remover.py:210-244 | the Windows candidates, in that sense |
| Remover.WarpRemover.CountLeftovers | warp_remover.py:303-311 | the count for one root is the number of its leftovers |
| Remover.WarpRemover.VerifyRemoval | warp_remover.py:269-313 | the result is the per-root total of leftovers |
| Remover.WarpRemover.Run | warp_remover.py:315-354 | an unsupported system changes nothing and fails; otherwise the platform's candidates are processed until a glob raises; the run succeeds iff nothing raised; on success the remaining count is the leftover total, whatever its value |

## Left out

- Process termination (`kill_warp_processes`, `kill_browser_processes`, `time.sleep`): these only issue operating-system commands. They are a comment in each `Run`.
- The macOS Launch Services call (`lsregister`): a foreign system call.
- The Windows registry cleanup of the identity reset (`delete_registry_key_recursive`, warp_id_reset.py:108-148 and 553-571): the registry is not modelled. That function adds one to `reset_count` for every key it deletes, so on Windows the source's counter can exceed the model's `resetCount`.
- The remover's registry loop (`winreg.DeleteKeyEx`, warp_remover.py:246-267): the registry is not modelled; this loop touches no file and does not change `removed_count`.
- `kill_browser_processes`, `get_browser_data_paths` and `clean_browser_data` (warp_id_reset.py:150-354), called at the end of `reset_windows_identity`: the `safe_remove` calls on browser-profile storage, the entries they delete and the counts they add are not in the model. `ResetWindowsIdentity` and the Windows branch of `Run` describe the Windows reset without them.
- `is_admin`, which uses ctypes: it is the `admin` constructor parameter. `Path.home()` and `platform.system()` are parameters too. `os.getuid()` is the `uid` option: absent when the platform has no `getuid`.
- Messages, the banner, `main`, the remover's confirmation prompt and the `description` argument of `safe_remove`: output only.
- Wildcard matching of `glob.glob` and `Path.glob`, when `glob.glob` raises, and `shutil.which`: oracles of `Host`, not reimplementations of fnmatch.
- A failing `rmtree` that removes part of a tree before raising: a failing removal is modelled as changing nothing.
- Listing errors inside `os.walk`: the walk reaches exactly the entries whose directories exist as directories.
- Symbolic links, and case-insensitive filesystems when looking entries up: the model's filesystem is a case-sensitive map.
- Path normalisation beyond the Windows `/` to `\` rewrite (duplicate separators, trailing separators, `..`): paths are joined as text. An empty base is handled as `pathlib` does (`Path('') / 'warp'` is `warp`), but a variable set to the empty string gives the text `''` for `str(Path(''))`, where Python gives `.`; this matters only for a search root or TEMP directory given that way.
- The `iterdir` of Path 1 when `LOCALAPPDATA\warp\Warp` is a file: Python raises `NotADirectoryError` there, while the model lists no children.
- The order of `iterdir`: the model takes the children in any order.
- Exceptions other than glob errors and the removal errors caught in `safe_remove`.
- Concurrency, and the filesystem changing behind the tool's back.
- IdReset.IdentityResetTool.CleanLegacySubfolders: states that every existing subfolder is handed over only when none of the seven subfolder paths holds a wildcard character; otherwise `glob.glob` takes them as patterns, whose matches the model leaves open.
- IdReset.IdentityResetTool.CleanLegacyIfPresent: the same condition for its completeness clause.
- IdReset.IdentityResetTool.ResetWindowsIdentity: states that the data list holds only data locations and the temp list only non-installer items; it does not give the exact lists, and does not state that every existing data location or TEMP match is handed over.
- IdReset.IdentityResetTool.CleanTempSessions: states that every item handed over is a non-installer match of a session pattern on some filesystem, not that it is the filesystem left by the earlier patterns, and not that every non-installer match is handed over.
- IdReset.IdentityResetTool.CleanWindowsData: states that everything handed over is a data location, not that each data location that exists is handed over. Each path states its own completeness (`CleanOfficialLocalData` for Path 1, `RemoveIfPresent` for Path 2 and the roaming legacy directory, `CleanLegacyIfPresent` without wildcards for Paths 3 and 4), but this is not lifted to the four paths together, because each later path runs on the filesystem an earlier one changed.
- The Windows promise that `Warp.exe` survives the reset: the data half never hands over an app-file child of `LOCALAPPDATA\warp\Warp` (`ResetWindowsIdentity`), but `Path(TEMP).glob` is an oracle, so the model cannot rule out that a TEMP match lies there.
- `str.lower` is full Unicode in Python, while `Lower` only maps ASCII letters. None of the markers, names and suffixes the tools compare against holds a non-ASCII letter, but a path with a non-ASCII capital that lower-cases to ASCII (such as the Kelvin sign) is compared differently.
- IdReset.IdentityResetTool.Run: on Windows, states that only data locations and non-installer temp items are handed over, not the exact list.
- linux_support_analysis.py and test_linux_support.py are not part of this model. The first is a reporting script; the second checks module attributes and documentation text.
