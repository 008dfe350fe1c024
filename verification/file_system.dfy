/** Playing a plan of filesystem calls against the paths that already exist:
    `Files.createDirectory` throws when its path exists, and `Files.copy` with
    `REPLACE_EXISTING` replaces whatever (empty) entry is at its target. Each
    call's paths first go through `Paths.get`, on a system whose separator is
    the single character `c`. */
module FileSystem {
  import opened NameDecoder
  import opened FanOut

  // ---------------------------------------------------------------------------
  // Paths.get
  // ---------------------------------------------------------------------------

  /** Runs of the separator character shrink to one; nothing else changes. */
  function Collapse(c: char, p: string): (r: string)
    ensures |r| <= |p|
    ensures |p| > 0 ==> |r| > 0 && r[0] == p[0] && r[|r| - 1] == p[|p| - 1]
  {
    if |p| <= 1 then p
    else if p[0] == c && p[1] == c then Collapse(c, p[1..])
    else [p[0]] + Collapse(c, p[1..])
  }

  /** No two separators side by side. */
  predicate NoDoubleSeparator(c: char, r: string)
  {
    forall i :: 0 <= i < |r| - 1 ==> !(r[i] == c && r[i + 1] == c)
  }

  lemma {:induction false} CollapseNoDoubles(c: char, p: string)
    ensures NoDoubleSeparator(c, Collapse(c, p))
    decreases |p|
  {
    if |p| > 1 {
      CollapseNoDoubles(c, p[1..]);
      var rest := Collapse(c, p[1..]);
      if !(p[0] == c && p[1] == c) {
        var r := [p[0]] + rest;
        assert rest[0] == p[1];
        forall i | 0 <= i < |r| - 1
          ensures !(r[i] == c && r[i + 1] == c)
        {
          if i > 0 {
            assert r[i] == rest[i - 1] && r[i + 1] == rest[i];
          }
        }
      }
    }
  }

  /** The string of `Paths.get(p)` on a system whose separator is `c`: doubled
      separators collapse and a trailing one is dropped, except from the root. */
  function Normalize(c: char, p: string): (r: string)
    ensures |r| <= |p|
  {
    var q := Collapse(c, p);
    if |q| > 1 && q[|q| - 1] == c then q[..|q| - 1] else q
  }

  /** A normalised path has no doubled separator, and no trailing one unless it
      is the root. */
  lemma NormalizeShape(c: char, p: string)
    ensures NoDoubleSeparator(c, Normalize(c, p))
    ensures |Normalize(c, p)| > 1 ==> Normalize(c, p)[|Normalize(c, p)| - 1] != c
  {
    CollapseNoDoubles(c, p);
    var q := Collapse(c, p);
    if |q| > 1 && q[|q| - 1] == c {
      var r := q[..|q| - 1];
      assert forall i :: 0 <= i < |r| ==> r[i] == q[i];
    }
  }

  /** Appending one character to a non-empty path: it is swallowed by a
      separator run exactly when both it and the path's last character are the
      separator. */
  lemma {:induction false} CollapseSnoc(c: char, p: string, x: char)
    requires |p| > 0
    ensures Collapse(c, p + [x]) == if p[|p| - 1] == c && x == c then Collapse(c, p) else Collapse(c, p) + [x]
    decreases |p|
  {
    var px := p + [x];
    if |p| == 1 {
      assert px[1..] == [x];
    } else {
      assert px[0] == p[0] && px[1] == p[1];
      assert px[1..] == p[1..] + [x];
      CollapseSnoc(c, p[1..], x);
      if !(p[0] == c && p[1] == c) {
        assert Collapse(c, px) == [p[0]] + Collapse(c, p[1..] + [x]);
      }
    }
  }

  /** Line 89 joins `OUT_PARENT`, the separator and a key that starts with the
      separator itself; `Paths.get` drops the doubled separator again, so the
      key made only of the separator names `OUT_PARENT` once more. */
  lemma NormalizeDoubledSeparator(c: char, p: string)
    requires |p| > 0
    ensures Normalize(c, p + [c] + [c]) == Normalize(c, p)
  {
    CollapseSnoc(c, p, c);
    CollapseSnoc(c, p + [c], c);
  }

  /** A call with its paths as `Paths.get` writes them. */
  function Resolve(c: char, a: Action): Action
  {
    match a
    case CreateDirectory(p) => CreateDirectory(Normalize(c, p))
    case CopyFile(s, t) => CopyFile(Normalize(c, s), Normalize(c, t))
  }

  /** A plan with every call's paths as `Paths.get` writes them. */
  function ResolvePlan(c: char, actions: seq<Action>): (r: seq<Action>)
    ensures |r| == |actions|
    ensures forall i :: 0 <= i < |actions| ==> r[i] == Resolve(c, actions[i])
  {
    seq(|actions|, i requires 0 <= i < |actions| => Resolve(c, actions[i]))
  }

  // ---------------------------------------------------------------------------
  // Performing a plan
  // ---------------------------------------------------------------------------

  /** The path a call leaves behind. */
  function Made(a: Action): string
  {
    match a
    case CreateDirectory(p) => p
    case CopyFile(_, t) => t
  }

  /** The paths a sequence of calls leaves behind. */
  function MadeBy(actions: seq<Action>): (r: set<string>)
    ensures forall i :: 0 <= i < |actions| ==> Made(actions[i]) in r
    ensures forall p :: p in r ==> exists i :: 0 <= i < |actions| && Made(actions[i]) == p
  {
    if |actions| == 0 then {}
    else
      var rest := MadeBy(actions[1..]);
      assert forall i :: 1 <= i < |actions| ==> actions[i] == actions[1..][i - 1];
      {Made(actions[0])} + rest
  }

  /** Call `k` creates a directory whose path already exists by then. */
  predicate Clashes(existing: set<string>, actions: seq<Action>, k: int)
  {
    0 <= k < |actions| && actions[k].CreateDirectory? && actions[k].path in existing + MadeBy(actions[..k])
  }

  /** How far a plan gets: the number of calls that complete, and whether the
      next one throws `FileAlreadyExistsException`. */
  datatype Performed = Performed(done: nat, failed: bool)

  /** The calls in order until the first that throws. */
  function Perform(existing: set<string>, actions: seq<Action>): (r: Performed)
    ensures r.done <= |actions|
    ensures !r.failed ==> r.done == |actions|
    decreases |actions|
  {
    if |actions| == 0 then Performed(0, false)
    else if actions[0].CreateDirectory? && actions[0].path in existing then Performed(0, true)
    else
      var rest := Perform(existing + {Made(actions[0])}, actions[1..]);
      Performed(rest.done + 1, rest.failed)
  }

  /** One call further into the plan, the paths made so far have grown by the
      first call's path. */
  lemma ClashesShift(existing: set<string>, actions: seq<Action>, k: nat)
    requires 0 < |actions|
    ensures Clashes(existing, actions, k + 1) <==> Clashes(existing + {Made(actions[0])}, actions[1..], k)
  {
    if k + 1 < |actions| {
      assert actions[..k + 1] == [actions[0]] + actions[1..][..k];
      assert MadeBy(actions[..k + 1]) == {Made(actions[0])} + MadeBy(actions[1..][..k]);
    }
  }

  /** A plan that throws does so at a clash. */
  lemma {:induction false} PerformFailsAtClash(existing: set<string>, actions: seq<Action>)
    requires Perform(existing, actions).failed
    ensures Clashes(existing, actions, Perform(existing, actions).done)
    decreases |actions|
  {
    assert actions[..0] == [];
    if !(actions[0].CreateDirectory? && actions[0].path in existing) {
      var next := existing + {Made(actions[0])};
      PerformFailsAtClash(next, actions[1..]);
      ClashesShift(existing, actions, Perform(next, actions[1..]).done);
    }
  }

  /** Every call a plan completes is free of clashes. */
  lemma {:induction false} PerformPassesNoClash(existing: set<string>, actions: seq<Action>, k: nat)
    requires k < Perform(existing, actions).done
    ensures !Clashes(existing, actions, k)
    decreases |actions|
  {
    assert actions[..0] == [];
    if k > 0 {
      var next := existing + {Made(actions[0])};
      PerformPassesNoClash(next, actions[1..], k - 1);
      ClashesShift(existing, actions, k - 1);
    }
  }

  /** A plan throws exactly at its first clash, and runs to the end when it has
      none. */
  lemma PerformStopsAtFirstClash(existing: set<string>, actions: seq<Action>)
    ensures Perform(existing, actions).failed <==> exists k :: Clashes(existing, actions, k)
    ensures Perform(existing, actions).failed ==> Clashes(existing, actions, Perform(existing, actions).done)
    ensures forall k :: 0 <= k < Perform(existing, actions).done ==> !Clashes(existing, actions, k)
  {
    var r := Perform(existing, actions);
    forall k | 0 <= k < r.done
      ensures !Clashes(existing, actions, k)
    {
      PerformPassesNoClash(existing, actions, k);
    }
    if r.failed {
      PerformFailsAtClash(existing, actions);
    }
  }

  /** Creating a directory where an earlier call already made a path (created
      a directory or copied a file) throws. */
  lemma RecreateClashes(existing: set<string>, actions: seq<Action>, i: nat, j: nat)
    requires i < j < |actions| && actions[j].CreateDirectory? && Made(actions[i]) == actions[j].path
    ensures Perform(existing, actions).failed
  {
    assert actions[..j][i] == actions[i];
    assert Clashes(existing, actions, j);
    PerformStopsAtFirstClash(existing, actions);
  }

  // ---------------------------------------------------------------------------
  // The program's plan, performed
  // ---------------------------------------------------------------------------

  /** Two files of one student whose names decode to the same stem (an original
      and a re-submitted copy, say) share a destination: the second round's
      `createDirectory` finds the first round's copy there and throws, whatever
      existed before the run. */
  lemma RunClashesOnSharedDestination(c: char, outParent: string, files: seq<string>, i: nat, k: nat, existing: set<string>)
    requires StudentKeys([c], files).Some? && !Run([c], outParent, files).aborted
    requires i < k < |files|
    requires SearchKey([c], files[i]) == SearchKey([c], files[k])
    requires ParseJavaSrcFileName(files[i]) == ParseJavaSrcFileName(files[k])
    ensures Perform(existing, ResolvePlan(c, Run([c], outParent, files).actions)).failed
  {
    var pre, dst, post := RunPlanAround([c], outParent, files, i, k);
    var idx :| 0 <= idx < |pre| && pre[idx] == CopyFile(files[i], dst);
    ResolvedRecreateClashes(c, existing, pre + [CreateDirectory(dst)] + post, idx, |pre|);
  }

  /** `RecreateClashes` once `Paths.get` has resolved the plan's paths. */
  lemma ResolvedRecreateClashes(c: char, existing: set<string>, actions: seq<Action>, i: nat, j: nat)
    requires i < j < |actions| && actions[j].CreateDirectory?
    requires Normalize(c, Made(actions[i])) == Normalize(c, actions[j].path)
    ensures Perform(existing, ResolvePlan(c, actions)).failed
  {
    var resolved := ResolvePlan(c, actions);
    assert Made(resolved[i]) == Normalize(c, Made(actions[i]));
    RecreateClashes(existing, resolved, i, j);
  }

  /** A file whose name has its first `_` right after a separator (`/s/_a_b_C.java`)
      has the bare separator as its student key. Line 89 then asks for
      `OUT_PARENT` followed by two separators, which `Paths.get` turns back into
      `OUT_PARENT`, created at line 71: the run throws there. */
  lemma RunClashesOnBareSeparatorKey(c: char, outParent: string, files: seq<string>, i: nat, existing: set<string>)
    requires StudentKeys([c], files).Some? && i < |files|
    requires StudentKeys([c], files).value[i] == [c]
    requires |outParent| > 0
    ensures Perform(existing, ResolvePlan(c, Run([c], outParent, files).actions)).failed
  {
    var j := RunCreatesKeyDirectory([c], outParent, files, i);
    assert [c] + [c] == [c, c];
    NormalizeDoubledSeparator(c, outParent);
    ResolvedRecreateClashes(c, existing, Run([c], outParent, files).actions, 0, j);
  }
}
