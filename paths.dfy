/** Platform identity and the string side of `pathlib`: separators, joining,
    environment lookup-or-default, the last component of a path and its
    extension. */
module Paths {
  import opened Strings

  /** What `platform.system()` reports; anything else is `Other`. */
  datatype System = Darwin | Windows | Linux | Other

  /** The process environment as `os.environ` shows it (on Windows its keys
      are upper-case, so lookups of `LOCALAPPDATA` or `PROGRAMFILES(X86)`
      match whatever case the variable was set with). */
  type Env = map<string, string>

  /** The separator `str(Path(...))` uses on the platform. */
  function Sep(sys: System): char
  {
    if sys == Windows then '\\' else '/'
  }

  /** `str(Path(s))`: on Windows every '/' is written as '\'; elsewhere the
      text is kept. */
  function Native(sys: System, s: string): (r: string)
    ensures |r| == |s|
    ensures sys == Windows ==> '/' !in r
  {
    if sys != Windows then s
    else seq(|s|, i requires 0 <= i < |s| => if s[i] == '/' then '\\' else s[i])
  }

  /** Every character other than '/' is kept in place. */
  lemma NativeKeeps(sys: System, s: string, i: int)
    requires 0 <= i < |s| && s[i] != '/'
    ensures Native(sys, s)[i] == s[i]
  {
  }

  /** Normalising twice changes nothing more. */
  lemma NativeIdempotent(sys: System, s: string)
    ensures Native(sys, Native(sys, s)) == Native(sys, s)
  {
  }

  /** `str(Path(base) / rel)`. An empty base is the current directory,
      which `pathlib` drops from the joined text. */
  function Join(sys: System, base: string, rel: string): string
  {
    if base == [] then Native(sys, rel) else Native(sys, base) + [Sep(sys)] + Native(sys, rel)
  }

  /** Two different separator-free names joined to the same base are
      siblings: neither lies at or below the other. */
  lemma JoinSiblingsApart(sys: System, base: string, a: string, b: string)
    requires a != b && '/' !in a && '/' !in b && Sep(sys) !in a && Sep(sys) !in b
    ensures !Under(Sep(sys), Join(sys, base, a), Join(sys, base, b))
  {
    NativePlain(sys, a);
    NativePlain(sys, b);
    var front := if base == [] then [] else Native(sys, base) + [Sep(sys)];
    var q, p := Join(sys, base, a), Join(sys, base, b);
    assert q == front + a && p == front + b;
    assert q[|front|..] == a && p[|front|..] == b;
  }

  /** A text with no '/' is its own native form. */
  lemma NativePlain(sys: System, s: string)
    requires '/' !in s
    ensures Native(sys, s) == s
  {
    forall i | 0 <= i < |s| ensures Native(sys, s)[i] == s[i] {
      NativeKeeps(sys, s, i);
    }
  }

  /** Joining onto a base already in native form gives the same text as
      joining onto the base as written. */
  lemma JoinNative(sys: System, base: string, rel: string)
    ensures Join(sys, Native(sys, base), rel) == Join(sys, base, rel)
  {
    NativeIdempotent(sys, base);
  }

  /** Off Windows, joining twice is joining the two parts with '/'. */
  lemma JoinJoin(sys: System, base: string, a: string, b: string)
    requires sys != Windows && a != []
    ensures Join(sys, Join(sys, base, a), b) == Join(sys, base, a + "/" + b)
  {
    if base != [] {
      assert Join(sys, Join(sys, base, a), b) == base + "/" + (a + "/" + b);
    }
  }

  /** `os.environ.get(name, default)`. */
  function EnvOr(env: Env, name: string, default: string): string
  {
    if name in env then env[name] else default
  }

  /** `str(Path(os.environ.get(name, default)))`: the variable's value is
      used verbatim when it is set, whether or not it names a directory. */
  function EnvPath(sys: System, env: Env, name: string, default: string): string
  {
    Native(sys, EnvOr(env, name, default))
  }

  /** `q` is `p` itself or lies somewhere below it. */
  predicate Under(sep: char, q: string, p: string)
  {
    q == p || (|p| < |q| && q[..|p|] == p && q[|p|] == sep)
  }

  /** `q` is a direct child of `dir`: `dir`, a separator, then one
      non-empty component. */
  predicate IsChildOf(sep: char, q: string, dir: string)
  {
    |dir| + 1 < |q| && q[..|dir|] == dir && q[|dir|] == sep && sep !in q[|dir| + 1..]
  }

  /** The last component of a path (`os.path.basename`, `Path.name`): the
      longest tail of `p` that holds no separator. */
  function Name(sep: char, p: string): (r: string)
    ensures sep !in r
    ensures EndsWith(p, r)
    ensures |r| < |p| ==> p[|p| - |r| - 1] == sep
  {
    if p == [] then []
    else if p[|p| - 1] == sep then []
    else Name(sep, p[..|p| - 1]) + [p[|p| - 1]]
  }

  /** The name of a direct child is the component after its parent. */
  lemma NameOfChild(sep: char, q: string, dir: string)
    requires IsChildOf(sep, q, dir)
    ensures Name(sep, q) == q[|dir| + 1..]
  {
    var r := Name(sep, q);
    assert r == q[|q| - |r|..];
  }

  /** The name of a joined path is the separator-free leaf that was
      joined on, whatever the base. */
  lemma NameOfJoin(sys: System, base: string, leaf: string)
    requires leaf != [] && '/' !in leaf && Sep(sys) !in leaf
    ensures Name(Sep(sys), Join(sys, base, leaf)) == leaf
  {
    NativePlain(sys, leaf);
    if base == [] {
      NameOfPlain(Sep(sys), leaf);
    } else {
      var dir := Native(sys, base);
      var q := Join(sys, base, leaf);
      assert q == dir + [Sep(sys)] + leaf;
      assert q[..|dir|] == dir && q[|dir| + 1..] == leaf;
      NameOfChild(Sep(sys), q, dir);
    }
  }

  /** A text without separators is its own name. */
  lemma {:induction false} NameOfPlain(sep: char, p: string)
    requires sep !in p
    ensures Name(sep, p) == p
    decreases |p|
  {
    if p != [] {
      var front := p[..|p| - 1];
      assert p[|p| - 1] in p;
      assert sep !in front by {
        forall i | 0 <= i < |front| ensures front[i] != sep { assert front[i] == p[i]; }
      }
      NameOfPlain(sep, front);
      assert p == front + [p[|p| - 1]];
    }
  }

  /** Index of the last '.' in `s`, or -1 (`str.rfind('.')`). */
  function LastDot(s: string): (r: int)
    ensures -1 <= r < |s|
    ensures r >= 0 ==> s[r] == '.'
    ensures forall j :: r < j < |s| ==> s[j] != '.'
  {
    if s == [] then -1
    else if s[|s| - 1] == '.' then |s| - 1
    else LastDot(s[..|s| - 1])
  }

  /** `PurePath.suffix` of a name: from its last '.' on, provided that dot
      is neither the first nor the last character; otherwise empty. */
  function Suffix(name: string): (r: string)
    ensures r == [] || (2 <= |r| < |name| && r[0] == '.' && '.' !in r[1..] && EndsWith(name, r))
  {
    var i := LastDot(name);
    if 0 < i < |name| - 1 then name[i..] else []
  }

  /** Conversely, a dot-led extension after a non-empty stem is the suffix. */
  lemma SuffixOfExtension(stem: string, ext: string)
    requires |stem| > 0 && |ext| >= 2 && ext[0] == '.' && '.' !in ext[1..]
    ensures Suffix(stem + ext) == ext
  {
    var s := stem + ext;
    var i := LastDot(s);
    assert s[|stem|] == '.';
    assert i == |stem|;
    assert s[i..] == ext;
  }

  /** Equality of two `WindowsPath` values: pathlib compares them without
      regard to case. */
  predicate WindowsPathEq(a: string, b: string)
  {
    Lower(a) == Lower(b)
  }
}
