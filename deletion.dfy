/** The batch mechanism both tools share (`safe_remove` in warp_id_reset.py
    and in warp_remover.py): expand a target to concrete paths, optionally
    skip protected installation paths, and remove each remaining path on its
    own, so that a failure on one path neither changes anything nor stops
    the next one. The functions here are the specification the two classes'
    loops are proved against. */
module Deletion {
  import opened Strings
  import opened Paths
  import opened Files

  /** Which tool runs the batch. The identity reset filters protected paths
      and globs recursively; the full remover does neither. */
  datatype Mode = IdentityReset | FullRemoval

  /** What happened to one concrete path. */
  datatype Outcome = Skipped | Deleted(kind: Kind) | NeitherFileNorDir | Failed(error: ErrorTag)

  /** The increment follows the if/elif inside the `try`, so every path
      whose handling raised nothing counts, including one that was neither a
      file nor a directory. */
  predicate Counted(o: Outcome)
  {
    o.Deleted? || o.NeitherFileNorDir?
  }

  /** The identity reset's table of installation markers, lower-case. */
  const ProtectedMarkers: seq<string> := [
    "program files\\warp\\warp.exe",
    "program files (x86)\\warp\\warp.exe",
    "local\\warp\\warp.exe",
    "/applications/warp.app/contents/macos/warp",
    "/opt/warp",
    "/usr/bin/warp",
    "/usr/local/bin/warp"
  ]

  /** Some marker of `markers` occurs in `s`. */
  predicate ContainsAny(s: string, markers: seq<string>)
  {
    markers != [] && (Contains(s, markers[0]) || ContainsAny(s, markers[1..]))
  }

  /** A marker occurs anywhere in the lower-cased path. */
  predicate IsProtected(p: string)
  {
    ContainsAny(Lower(p), ProtectedMarkers)
  }

  /** The scan over the markers finds one exactly when one of them occurs. */
  lemma {:induction false} ContainsAnyIff(s: string, markers: seq<string>)
    ensures ContainsAny(s, markers) <==> exists i :: 0 <= i < |markers| && Contains(s, markers[i])
    decreases |markers|
  {
    if markers != [] {
      ContainsAnyIff(s, markers[1..]);
      if exists i :: 0 <= i < |markers| && Contains(s, markers[i]) {
        var i :| 0 <= i < |markers| && Contains(s, markers[i]);
        if i > 0 {
          assert markers[1..][i - 1] == markers[i];
        }
      }
      if ContainsAny(s, markers[1..]) {
        var i :| 0 <= i < |markers[1..]| && Contains(s, markers[1..][i]);
        assert markers[i + 1] == markers[1..][i];
      }
    }
  }

  /** A marker that occurs in a text occurs in every extension of it. */
  lemma {:induction false} ContainsAnyPrefix(s: string, t: string, markers: seq<string>)
    requires ContainsAny(s, markers)
    ensures ContainsAny(s + t, markers)
    decreases |markers|
  {
    if Contains(s, markers[0]) {
      ContainsPrefix(s, t, markers[0]);
    } else {
      ContainsAnyPrefix(s, t, markers[1..]);
    }
  }

  /** The protection filter runs in the identity reset only. */
  predicate Filtered(mode: Mode, p: string)
  {
    mode == IdentityReset && IsProtected(p)
  }

  datatype Step = Step(fs: Fs, outcome: Outcome)

  /** One iteration of the loop over expanded paths. */
  function Attempt(host: Host, sep: char, mode: Mode, fs: Fs, p: string): Step
  {
    if Filtered(mode, p) then Step(fs, Skipped)
    else if p in fs && fs[p] == Dir then
      if p in host.failing then Step(fs, Failed(host.failing[p]))
      else Step(RemoveTree(fs, sep, p), Deleted(Dir))
    else if p in fs && fs[p] == File then
      if p in host.failing then Step(fs, Failed(host.failing[p]))
      else Step(fs - {p}, Deleted(File))
    else Step(fs, NeitherFileNorDir)
  }

  datatype BatchResult = BatchResult(fs: Fs, outcomes: seq<Outcome>)

  /** The whole loop over the expanded paths, in order: one outcome per
      path. */
  function Batch(host: Host, sep: char, mode: Mode, fs: Fs, paths: seq<string>): (r: BatchResult)
    ensures |r.outcomes| == |paths|
    decreases |paths|
  {
    if paths == [] then BatchResult(fs, [])
    else
      var prior := Batch(host, sep, mode, fs, paths[..|paths| - 1]);
      var s := Attempt(host, sep, mode, prior.fs, paths[|paths| - 1]);
      BatchResult(s.fs, prior.outcomes + [s.outcome])
  }

  /** How much a batch adds to the tool's counter. */
  function Gain(os: seq<Outcome>): nat
  {
    if os == [] then 0 else Gain(os[..|os| - 1]) + (if Counted(os[|os| - 1]) then 1 else 0)
  }

  /** Appending one outcome adds its own contribution. */
  lemma GainSnoc(os: seq<Outcome>, o: Outcome)
    ensures Gain(os + [o]) == Gain(os) + (if Counted(o) then 1 else 0)
  {
    assert (os + [o])[..|os|] == os;
  }

  /** Number of failed outcomes. */
  function Failures(os: seq<Outcome>): nat
  {
    if os == [] then 0 else Failures(os[..|os| - 1]) + (if os[|os| - 1].Failed? then 1 else 0)
  }

  /** Number of paths the protection filter holds back. */
  function FilteredCount(mode: Mode, paths: seq<string>): nat
  {
    if paths == [] then 0
    else FilteredCount(mode, paths[..|paths| - 1]) + (if Filtered(mode, paths[|paths| - 1]) then 1 else 0)
  }

  /** The last step of a batch. */
  lemma BatchLast(host: Host, sep: char, mode: Mode, fs: Fs, paths: seq<string>)
    requires paths != []
    ensures var r := Batch(host, sep, mode, fs, paths);
      var prior := Batch(host, sep, mode, fs, paths[..|paths| - 1]);
      && r.outcomes[..|paths| - 1] == prior.outcomes
      && r.outcomes[|paths| - 1] == Attempt(host, sep, mode, prior.fs, paths[|paths| - 1]).outcome
  {
  }

  /** One more path: the batch over a longer prefix is one more attempt on
      what the shorter prefix left. */
  lemma BatchStep(host: Host, sep: char, mode: Mode, fs: Fs, paths: seq<string>, i: int)
    requires 0 <= i < |paths|
    ensures var prior := Batch(host, sep, mode, fs, paths[..i]);
      var s := Attempt(host, sep, mode, prior.fs, paths[i]);
      Batch(host, sep, mode, fs, paths[..i + 1]) == BatchResult(s.fs, prior.outcomes + [s.outcome])
  {
    assert paths[..i + 1][..i] == paths[..i];
  }

  /** A path is skipped iff the protection filter holds it back, and a
      failure is the failure the host reports for that very path. */
  lemma {:induction false} OutcomeRule(host: Host, sep: char, mode: Mode, fs: Fs, paths: seq<string>, i: int)
    requires 0 <= i < |paths|
    ensures var o := Batch(host, sep, mode, fs, paths).outcomes[i];
      && (o == Skipped <==> Filtered(mode, paths[i]))
      && (o.Failed? ==> paths[i] in host.failing && o.error == host.failing[paths[i]])
    decreases |paths|
  {
    BatchLast(host, sep, mode, fs, paths);
    var init := paths[..|paths| - 1];
    if i < |paths| - 1 {
      OutcomeRule(host, sep, mode, fs, init, i);
      assert init[i] == paths[i];
    }
  }

  /** The counter rule: of the expanded paths, exactly those that were
      neither held back by the filter nor failed are counted. */
  lemma {:induction false} CounterRule(host: Host, sep: char, mode: Mode, fs: Fs, paths: seq<string>)
    ensures var r := Batch(host, sep, mode, fs, paths);
      Gain(r.outcomes) + Failures(r.outcomes) + FilteredCount(mode, paths) == |paths|
    decreases |paths|
  {
    if paths != [] {
      var init := paths[..|paths| - 1];
      CounterRule(host, sep, mode, fs, init);
      BatchLast(host, sep, mode, fs, paths);
      OutcomeRule(host, sep, mode, fs, paths, |paths| - 1);
    }
  }

  /** The full remover has no filter: nothing is ever skipped. */
  lemma FullRemovalSkipsNothing(host: Host, sep: char, fs: Fs, paths: seq<string>)
    ensures forall i :: 0 <= i < |paths| ==> Batch(host, sep, FullRemoval, fs, paths).outcomes[i] != Skipped
  {
    forall i | 0 <= i < |paths| {
      OutcomeRule(host, sep, FullRemoval, fs, paths, i);
    }
  }

  /** Running a batch of `a + b` is running `a`, then `b` on what is left. */
  lemma {:induction false} BatchAppend(host: Host, sep: char, mode: Mode, fs: Fs, a: seq<string>, b: seq<string>)
    ensures var ra := Batch(host, sep, mode, fs, a);
      var rb := Batch(host, sep, mode, ra.fs, b);
      Batch(host, sep, mode, fs, a + b) == BatchResult(rb.fs, ra.outcomes + rb.outcomes)
    decreases |b|
  {
    if b == [] {
      assert a + b == a;
    } else {
      var b' := b[..|b| - 1];
      BatchAppend(host, sep, mode, fs, a, b');
      assert (a + b)[..|a + b| - 1] == a + b';
      assert (a + b)[|a + b| - 1] == b[|b| - 1];
    }
  }

  /** Error isolation: a path that is skipped or whose removal fails changes
      nothing, and the rest of the batch runs exactly as if it had not been
      there. */
  lemma IsolatedFailure(host: Host, sep: char, mode: Mode, fs: Fs, p: string, rest: seq<string>)
    requires Attempt(host, sep, mode, fs, p).outcome.Failed? || Attempt(host, sep, mode, fs, p).outcome == Skipped
    ensures var rr := Batch(host, sep, mode, fs, rest);
      Batch(host, sep, mode, fs, [p] + rest)
        == BatchResult(rr.fs, [Attempt(host, sep, mode, fs, p).outcome] + rr.outcomes)
  {
    var s := Attempt(host, sep, mode, fs, p);
    assert s.fs == fs;
    assert Batch(host, sep, mode, fs, [p]) == BatchResult(fs, [s.outcome]) by {
      assert [p][..0] == [];
    }
    BatchAppend(host, sep, mode, fs, [p], rest);
  }

  /** A batch only removes entries: whatever is left was there before and
      has the same kind. */
  lemma {:induction false} BatchOnlyRemoves(host: Host, sep: char, mode: Mode, fs: Fs, paths: seq<string>)
    ensures var r := Batch(host, sep, mode, fs, paths);
      forall q :: q in r.fs ==> q in fs && r.fs[q] == fs[q]
    decreases |paths|
  {
    if paths != [] {
      BatchOnlyRemoves(host, sep, mode, fs, paths[..|paths| - 1]);
    }
  }

  /** Every entry a batch removes lies at or below one of its paths that the
      filter let through and whose removal did not fail. */
  lemma {:induction false} RemovedOnlyBelowAttempted(host: Host, sep: char, mode: Mode, fs: Fs, paths: seq<string>, q: string)
    requires q in fs && q !in Batch(host, sep, mode, fs, paths).fs
    ensures exists i :: 0 <= i < |paths| && Under(sep, q, paths[i]) && !Filtered(mode, paths[i]) && paths[i] !in host.failing
    decreases |paths|
  {
    var init := paths[..|paths| - 1];
    var last := paths[|paths| - 1];
    var prior := Batch(host, sep, mode, fs, init);
    if q !in prior.fs {
      RemovedOnlyBelowAttempted(host, sep, mode, fs, init, q);
      var i :| 0 <= i < |init| && Under(sep, q, init[i]) && !Filtered(mode, init[i]) && init[i] !in host.failing;
      assert paths[i] == init[i];
    } else {
      assert Under(sep, q, last) && !Filtered(mode, last) && last !in host.failing;
      assert paths[|paths| - 1] == last;
    }
  }

  /** Protection is inherited: whatever lies below a protected path is
      protected too, because its lower-cased text starts with the parent's. */
  lemma ProtectionInherited(sep: char, q: string, p: string)
    requires Under(sep, q, p) && IsProtected(p)
    ensures IsProtected(q)
  {
    if q != p {
      assert q == p + q[|p|..];
      LowerAppend(p, q[|p|..]);
      ContainsAnyPrefix(Lower(p), Lower(q[|p|..]), ProtectedMarkers);
    }
  }

  /** The identity reset's guarantee: an existing entry that no unprotected
      expanded path covers survives the batch unchanged; in particular a
      protected expanded path survives unless an unprotected one above it
      was removed. */
  lemma ProtectedEntrySurvives(host: Host, sep: char, fs: Fs, paths: seq<string>, q: string)
    requires q in fs
    requires forall i :: 0 <= i < |paths| && Under(sep, q, paths[i]) ==> IsProtected(paths[i])
    ensures var r := Batch(host, sep, IdentityReset, fs, paths); q in r.fs && r.fs[q] == fs[q]
  {
    var r := Batch(host, sep, IdentityReset, fs, paths);
    if q !in r.fs {
      RemovedOnlyBelowAttempted(host, sep, IdentityReset, fs, paths, q);
    }
    BatchOnlyRemoves(host, sep, IdentityReset, fs, paths);
  }

  datatype Removal = Removal(fs: Fs, gain: nat, raised: bool)

  /** One `safe_remove` call: expand, then run the batch. A failing
      expansion removes nothing and counts nothing; `raised` records that it
      happened (the identity reset catches it, the remover lets it
      propagate). */
  function RemoveTarget(host: Host, sep: char, mode: Mode, fs: Fs, t: Target): Removal
  {
    match Expand(host, fs, t, mode == IdentityReset)
    case ExpansionFailed => Removal(fs, 0, true)
    case Expanded(paths) =>
      var b := Batch(host, sep, mode, fs, paths);
      Removal(b.fs, Gain(b.outcomes), false)
  }

  /** Deleting a literal path twice: the first call removes the file or
      directory and counts it, the second finds nothing and changes nothing
      (it does not report a missing path, it simply has no path to try). */
  lemma LiteralRemovalIdempotent(host: Host, sep: char, mode: Mode, fs: Fs, p: string)
    requires p in fs && fs[p] in {File, Dir} && p !in host.failing && !Filtered(mode, p)
    ensures var first := RemoveTarget(host, sep, mode, fs, Literal(p));
      && first == Removal(first.fs, 1, false) && p !in first.fs
      && RemoveTarget(host, sep, mode, first.fs, Literal(p)) == Removal(first.fs, 0, false)
  {
    var b := Batch(host, sep, mode, fs, [p]);
    assert [p][..|[p]| - 1] == [];
    assert Batch(host, sep, mode, fs, []) == BatchResult(fs, []);
    assert Under(sep, p, p);
    assert b.outcomes == [Attempt(host, sep, mode, fs, p).outcome];
    assert b.outcomes[..0] == [];
    assert Gain(b.outcomes) == 1;
    assert p !in b.fs;
  }

  /** A call on a path without wildcards touches nothing outside that
      path's own tree. */
  lemma KeepsOutside(host: Host, sep: char, mode: Mode, fs: Fs, p: string, q: string)
    requires !HasMagic(p) && q in fs && !Under(sep, q, p)
    ensures q in RemoveTarget(host, sep, mode, fs, Pattern(p)).fs
  {
    var paths := if p in fs then [p] else [];
    assert Expand(host, fs, Pattern(p), mode == IdentityReset) == Expanded(paths);
    if q !in Batch(host, sep, mode, fs, paths).fs {
      RemovedOnlyBelowAttempted(host, sep, mode, fs, paths, q);
    }
  }

  datatype Tally = Tally(fs: Fs, count: nat)

  /** A run of `safe_remove` calls from a given filesystem and counter. */
  function Sweep(host: Host, sep: char, mode: Mode, fs: Fs, count: nat, ts: seq<Target>): Tally
    decreases |ts|
  {
    if ts == [] then Tally(fs, count)
    else
      var prior := Sweep(host, sep, mode, fs, count, ts[..|ts| - 1]);
      var r := RemoveTarget(host, sep, mode, prior.fs, ts[|ts| - 1]);
      Tally(r.fs, prior.count + r.gain)
  }

  /** Sweeps compose: the calls of `a + b` from a state are the calls of `b`
      from the state the calls of `a` leave. */
  lemma {:induction false} SweepAppend(host: Host, sep: char, mode: Mode, fs: Fs, count: nat, a: seq<Target>, b: seq<Target>)
    ensures var ta := Sweep(host, sep, mode, fs, count, a);
      Sweep(host, sep, mode, fs, count, a + b) == Sweep(host, sep, mode, ta.fs, ta.count, b)
    decreases |b|
  {
    if b == [] {
      assert a + b == a;
    } else {
      var b' := b[..|b| - 1];
      SweepAppend(host, sep, mode, fs, count, a, b');
      assert (a + b)[..|a + b| - 1] == a + b';
      assert (a + b)[|a + b| - 1] == b[|b| - 1];
    }
  }

  /** Extending a log by two pieces in turn extends it by their
      concatenation. */
  lemma LogAppend(log: seq<Target>, a: seq<Target>, b: seq<Target>)
    ensures log + a + b == log + (a + b)
  {
  }

  /** A prefix one longer is the prefix and the next element. */
  lemma PrefixSnoc(ts: seq<Target>, k: int)
    requires 0 <= k < |ts|
    ensures ts[..k] + [ts[k]] == ts[..k + 1]
  {
  }

  /** Over any run of calls the counter never goes down and the
      filesystem only loses entries. */
  lemma {:induction false} SweepMonotone(host: Host, sep: char, mode: Mode, fs: Fs, count: nat, ts: seq<Target>)
    ensures var t := Sweep(host, sep, mode, fs, count, ts);
      t.count >= count && forall q :: q in t.fs ==> q in fs && t.fs[q] == fs[q]
    decreases |ts|
  {
    if ts != [] {
      var prior := Sweep(host, sep, mode, fs, count, ts[..|ts| - 1]);
      SweepMonotone(host, sep, mode, fs, count, ts[..|ts| - 1]);
      match Expand(host, prior.fs, ts[|ts| - 1], mode == IdentityReset)
      case ExpansionFailed =>
      case Expanded(paths) => BatchOnlyRemoves(host, sep, mode, prior.fs, paths);
    }
  }
}
