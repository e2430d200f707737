/** The filesystem the tools act on, the library calls they make on it, and
    the oracles that stand for the parts of those calls whose semantics are
    not modelled (wildcard matching, `shutil.which`, which removals fail). */
module Files {
  import opened Strings
  import opened Paths

  /** What `os.path.isdir` / `os.path.isfile` tell apart; `Special` is an
      entry that is neither (a socket, a device). */
  datatype Kind = File | Dir | Special

  /** Every existing entry, by its full path. */
  type Fs = map<string, Kind>

  /** The exceptions the removal calls raise, all caught by both tools:
      `PermissionError`, `FileNotFoundError` and any other `OSError`. */
  datatype ErrorTag = PermissionDenied | NotFound | OsError

  datatype Option<T> = None | Some(value: T)

  /** The outside world beyond the entry table.
      - `glob(pattern, recursive, fs)`: what `glob.glob` returns for a
        pattern that holds a wildcard;
      - `globRaises(pattern, fs)`: `glob.glob` raises for that pattern;
      - `pathGlob(dir, pattern, fs)`: the entries `Path(dir).glob(pattern)`
        yields;
      - `which(name, fs)`: `shutil.which(name)`;
      - `failing`: the entries whose removal (`shutil.rmtree` or
        `os.remove`) raises, and with which exception. */
  datatype Host = Host(
    glob: (string, bool, Fs) -> seq<string>,
    globRaises: (string, Fs) -> bool,
    pathGlob: (string, string, Fs) -> seq<string>,
    which: (string, Fs) -> Option<string>,
    failing: map<string, ErrorTag>)

  /** The argument of `safe_remove`: a `str` is a glob pattern, a `Path`
      object is taken literally. */
  datatype Target = Pattern(pattern: string) | Literal(path: string)

  /** The list of concrete paths a target stands for, or the exception the
      expansion raised. */
  datatype Expansion = Expanded(paths: seq<string>) | ExpansionFailed

  /** `glob.has_magic`: the text holds one of `*`, `?`, `[`. */
  predicate HasMagic(s: string)
  {
    exists i :: 0 <= i < |s| && s[i] in "*?["
  }

  /** Expansion of a `safe_remove` argument. A `Path` yields itself iff it
      exists. A string without wildcards behaves the same way (glob then
      only tests that the path exists); a string with wildcards is answered
      by the glob oracle, which may also raise. */
  function Expand(host: Host, fs: Fs, t: Target, recursive: bool): Expansion
  {
    match t
    case Literal(p) => Expanded(if p in fs then [p] else [])
    case Pattern(p) =>
      if !HasMagic(p) then Expanded(if p in fs then [p] else [])
      else if host.globRaises(p, fs) then ExpansionFailed
      else Expanded(host.glob(p, recursive, fs))
  }

  /** A literal target never makes the expansion fail, and it expands to
      itself exactly when the entry exists. */
  lemma LiteralExpansion(host: Host, fs: Fs, p: string, recursive: bool)
    requires !HasMagic(p)
    ensures Expand(host, fs, Pattern(p), recursive) == Expand(host, fs, Literal(p), recursive)
    ensures Expand(host, fs, Literal(p), recursive).Expanded?
    ensures p in fs <==> Expand(host, fs, Literal(p), recursive).paths == [p]
    ensures p !in fs <==> Expand(host, fs, Literal(p), recursive).paths == []
  {
  }

  /** `shutil.rmtree(p)`: the entry and everything below it go. */
  function RemoveTree(fs: Fs, sep: char, p: string): Fs
  {
    map q | q in fs && !Under(sep, q, p) :: fs[q]
  }

  /** `rmtree` takes the entry itself away and adds nothing; removing the
      same tree again changes nothing, and two trees can be removed in
      either order. */
  lemma RemoveTreeLaws(fs: Fs, sep: char, p: string, p': string)
    ensures var r := RemoveTree(fs, sep, p);
      && p !in r && r.Keys <= fs.Keys
      && RemoveTree(r, sep, p) == r
      && RemoveTree(RemoveTree(fs, sep, p'), sep, p) == RemoveTree(r, sep, p')
  {
    assert Under(sep, p, p);
  }

  /** The direct children `Path(dir).iterdir()` lists. */
  function Children(fs: Fs, sep: char, dir: string): set<string>
  {
    set q | q in fs && IsChildOf(sep, q, dir)
  }

  /** `os.walk(root)` reaches `q`: `root` is a directory, `q` lies strictly
      below it, and every directory between them exists as a directory (the
      walk descends only into directories, and a listing it cannot make is
      skipped silently). */
  predicate Walked(fs: Fs, sep: char, root: string, q: string)
  {
    && root in fs && fs[root] == Dir
    && |root| < |q| && q[..|root|] == root && q[|root|] == sep
    && forall j :: |root| < j < |q| && q[j] == sep ==> q[..j] in fs && fs[q[..j]] == Dir
  }
}
