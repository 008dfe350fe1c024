/** The fan-out of `makeOutDirStudents` and `makeSubFolders`: one output
    directory per author key, then one copy per file into the first output
    directory whose path contains that file's key. Filesystem calls are returned
    as a plan of `Action`s instead of being performed. */
module FanOut {
  import opened Wrappers
  import opened JavaStrings
  import opened NameDecoder

  /** A filesystem call the program makes, in the order it makes it. */
  datatype Action = CreateDirectory(path: string) | CopyFile(source: string, target: string)

  /** The calls made, and whether an exception from the name parsing (the
      `substring` calls of lines 80–82 and 144) ended the run after them.
      Exceptions of the filesystem calls themselves are found by playing the
      plan (`FileSystem.Perform`). */
  datatype Outcome = Outcome(actions: seq<Action>, aborted: bool)

  predicate NoDuplicates<T(==)>(xs: seq<T>)
  {
    forall i, j :: 0 <= i < j < |xs| ==> xs[i] != xs[j]
  }

  /** `s` ends with `t`. */
  predicate IsSuffix(t: string, s: string)
  {
    |t| <= |s| && s[|s| - |t|..] == t
  }

  /** An occurrence inside a suffix is an occurrence in the whole string. */
  lemma OccursAtSuffix(s: string, t: string, i: nat, k: int)
    requires i <= |s|
    ensures OccursAt(s[i..], t, k) <==> k >= 0 && OccursAt(s, t, i + k)
  {
    if 0 <= k && k + |t| <= |s| - i {
      assert s[i..][k..k + |t|] == s[i + k..i + k + |t|];
    }
  }

  /** A string contains each of its suffixes. */
  lemma ContainsSuffix(s: string, t: string)
    requires IsSuffix(t, s)
    ensures Contains(s, t)
  {
    assert OccursAt(s, t, |s| - |t|);
  }

  // ---------------------------------------------------------------------------
  // makeOutDirStudents

  /** Lines 80–82: the key a file contributes to the list of student
      directories: its author prefix from the last separator on. The cut is
      `substring(i, …)`, so the key starts with the separator, and it throws
      when the prefix has no separator at all (i = -1). */
  function StudentKey(sep: Separator, p: string): (r: Option<string>)
    ensures r.Some? <==> '_' in p && Contains(ParseStudentsName(p).value, sep)
    ensures r.Some? ==> '_' !in r.value && OccursAt(r.value, sep, 0)
  {
    var student :- ParseStudentsName(p);
    var i := LastIndexOfPathSep(sep, student);
    if i < 0 then None
    else
      var key := student[i..];
      assert OccursAt(key, sep, 0) by {
        OccursAtSuffix(student, sep, i, 0);
      }
      Some(key)
  }

  /** The student key is the author prefix from its last separator on: a
      suffix that starts with the separator and holds no later one. */
  lemma StudentKeyIsLastComponent(sep: Separator, p: string)
    requires StudentKey(sep, p).Some?
    ensures var author := ParseStudentsName(p).value; var key := StudentKey(sep, p).value;
      && IsSuffix(key, author)
      && forall k :: 0 < k ==> !OccursAt(key, sep, k)
  {
    var student := ParseStudentsName(p).value;
    var i := LastIndexOfPathSep(sep, student);
    forall k | 0 < k
      ensures !OccursAt(student[i..], sep, k)
    {
      OccursAtSuffix(student, sep, i, k);
    }
  }

  /** The keys of all files, in order; throws (`None`) as soon as one file has
      no key. */
  function StudentKeys(sep: Separator, files: seq<string>): (r: Option<seq<string>>)
    ensures r.Some? <==> forall i :: 0 <= i < |files| ==> StudentKey(sep, files[i]).Some?
    ensures r.Some? ==> |r.value| == |files|
    ensures r.Some? ==> forall i :: 0 <= i < |files| ==> StudentKey(sep, files[i]) == Some(r.value[i])
  {
    if |files| == 0 then Some([])
    else
      var key :- StudentKey(sep, files[0]);
      var rest :- StudentKeys(sep, files[1..]);
      Some([key] + rest)
  }

  /** The first loop of `makeOutDirStudents` (lines 79–86): each key is appended
      unless it is already listed. `Dedup(xs[..k])` is the list after k rounds. */
  function Dedup<T(==,!new)>(xs: seq<T>): (r: seq<T>)
    ensures NoDuplicates(r)
    ensures forall x :: x in r <==> x in xs
    ensures |r| <= |xs|
  {
    if |xs| == 0 then []
    else
      var d := Dedup(xs[..|xs| - 1]);
      if xs[|xs| - 1] in d then d else d + [xs[|xs| - 1]]
  }

  /** The position of the first occurrence of `x`. */
  function FirstIndex<T(==)>(xs: seq<T>, x: T): (r: nat)
    requires x in xs
    ensures r < |xs| && xs[r] == x
    ensures forall j :: 0 <= j < r ==> xs[j] != x
  {
    if xs[0] == x then 0 else 1 + FirstIndex(xs[1..], x)
  }

  /** Appending leaves first occurrences where they were. */
  lemma FirstIndexAppend<T>(xs: seq<T>, y: T, x: T)
    requires x in xs
    ensures FirstIndex(xs + [y], x) == FirstIndex(xs, x)
  {
    var b := FirstIndex(xs, x);
    assert (xs + [y])[b] == x;
  }

  /** Keys seen before the last round keep their first position. */
  lemma FirstIndexBeforeLast<T>(xs: seq<T>, y: T)
    requires |xs| > 0 && y in xs[..|xs| - 1]
    ensures FirstIndex(xs, y) == FirstIndex(xs[..|xs| - 1], y) < |xs| - 1
  {
    assert xs == xs[..|xs| - 1] + [xs[|xs| - 1]];
    FirstIndexAppend(xs[..|xs| - 1], xs[|xs| - 1], y);
  }

  /** One pair of STUDENT_DIRS after a round that appended `last`, given the
      order `d` had after the earlier rounds `pre`. */
  lemma OrderAfterRound<T>(pre: seq<T>, last: T, d: seq<T>, a: nat, b: nat)
    requires forall i :: 0 <= i < |d| ==> d[i] in pre
    requires forall a, b :: 0 <= a < b < |d| ==> FirstIndex(pre, d[a]) < FirstIndex(pre, d[b])
    requires last !in pre
    requires a < b < |d| + 1
    ensures FirstIndex(pre + [last], (d + [last])[a]) < FirstIndex(pre + [last], (d + [last])[b])
  {
    var r := d + [last];
    assert r[a] == d[a];
    FirstIndexAppend(pre, last, d[a]);
    if b < |d| {
      assert r[b] == d[b];
      FirstIndexAppend(pre, last, d[b]);
      assert FirstIndex(pre, d[a]) < FirstIndex(pre, d[b]);
    } else {
      assert FirstIndex(pre + [last], last) == |pre|;
    }
  }

  /** The same when the round appended nothing. */
  lemma OrderAfterRepeat<T>(pre: seq<T>, last: T, d: seq<T>, a: nat, b: nat)
    requires forall i :: 0 <= i < |d| ==> d[i] in pre
    requires forall a, b :: 0 <= a < b < |d| ==> FirstIndex(pre, d[a]) < FirstIndex(pre, d[b])
    requires a < b < |d|
    ensures FirstIndex(pre + [last], d[a]) < FirstIndex(pre + [last], d[b])
  {
    FirstIndexAppend(pre, last, d[a]);
    FirstIndexAppend(pre, last, d[b]);
    assert FirstIndex(pre, d[a]) < FirstIndex(pre, d[b]);
  }

  /** `OrderAfterRound` for every pair. */
  lemma OrderAfterRoundAll<T>(pre: seq<T>, last: T, d: seq<T>)
    requires forall i :: 0 <= i < |d| ==> d[i] in pre
    requires forall a, b :: 0 <= a < b < |d| ==> FirstIndex(pre, d[a]) < FirstIndex(pre, d[b])
    requires last !in pre
    ensures forall a, b :: 0 <= a < b < |d| + 1 ==>
      FirstIndex(pre + [last], (d + [last])[a]) < FirstIndex(pre + [last], (d + [last])[b])
  {
    forall a, b | 0 <= a < b < |d| + 1
      ensures FirstIndex(pre + [last], (d + [last])[a]) < FirstIndex(pre + [last], (d + [last])[b])
    {
      OrderAfterRound(pre, last, d, a, b);
    }
  }

  /** `OrderAfterRepeat` for every pair. */
  lemma OrderAfterRepeatAll<T>(pre: seq<T>, last: T, d: seq<T>)
    requires forall i :: 0 <= i < |d| ==> d[i] in pre
    requires forall a, b :: 0 <= a < b < |d| ==> FirstIndex(pre, d[a]) < FirstIndex(pre, d[b])
    ensures forall a, b :: 0 <= a < b < |d| ==> FirstIndex(pre + [last], d[a]) < FirstIndex(pre + [last], d[b])
  {
    forall a, b | 0 <= a < b < |d|
      ensures FirstIndex(pre + [last], d[a]) < FirstIndex(pre + [last], d[b])
    {
      OrderAfterRepeat(pre, last, d, a, b);
    }
  }

  /** The order of STUDENT_DIRS after the earlier rounds survives one more round. */
  lemma DedupOrderStep<T(!new)>(pre: seq<T>, last: T)
    requires forall a, b :: 0 <= a < b < |Dedup(pre)| ==> FirstIndex(pre, Dedup(pre)[a]) < FirstIndex(pre, Dedup(pre)[b])
    ensures var xs := pre + [last];
      forall a, b :: 0 <= a < b < |Dedup(xs)| ==> FirstIndex(xs, Dedup(xs)[a]) < FirstIndex(xs, Dedup(xs)[b])
  {
    var xs := pre + [last];
    assert xs[..|xs| - 1] == pre;
    var d := Dedup(pre);
    if last in d {
      assert Dedup(xs) == d;
      OrderAfterRepeatAll(pre, last, d);
    } else {
      assert Dedup(xs) == d + [last];
      OrderAfterRoundAll(pre, last, d);
    }
  }

  /** STUDENT_DIRS lists the keys in order of first appearance. */
  lemma {:induction false} DedupFirstSeenOrder<T(!new)>(xs: seq<T>)
    ensures forall a, b :: 0 <= a < b < |Dedup(xs)| ==> FirstIndex(xs, Dedup(xs)[a]) < FirstIndex(xs, Dedup(xs)[b])
  {
    if |xs| > 0 {
      var pre := xs[..|xs| - 1];
      assert xs == pre + [xs[|xs| - 1]];
      DedupFirstSeenOrder(pre);
      DedupOrderStep(pre, xs[|xs| - 1]);
    }
  }

  /** The key of the first file is the first student directory. */
  lemma DedupStartsWithFirst<T(!new)>(xs: seq<T>)
    requires |xs| > 0
    ensures |Dedup(xs)| > 0 && Dedup(xs)[0] == xs[0]
  {
    var r := Dedup(xs);
    assert xs[0] in r;
    DedupFirstSeenOrder(xs);
    var b :| 0 <= b < |r| && r[b] == xs[0];
    assert FirstIndex(xs, xs[0]) == 0;
  }

  /** The second loop of `makeOutDirStudents` (lines 87–92): one output directory
      per key, in the same order, named `outParent + sep + key`. */
  function ResultDirs(outParent: string, sep: Separator, keys: seq<string>): (r: seq<string>)
    ensures |r| == |keys|
    ensures forall i :: 0 <= i < |keys| ==> r[i] == outParent + sep + keys[i]
  {
    seq(|keys|, i requires 0 <= i < |keys| => outParent + sep + keys[i])
  }

  /** Distinct keys give distinct directories: each is created exactly once. */
  lemma ResultDirsDistinct(outParent: string, sep: Separator, keys: seq<string>)
    requires NoDuplicates(keys)
    ensures NoDuplicates(ResultDirs(outParent, sep, keys))
  {
    var r := ResultDirs(outParent, sep, keys);
    var n := |outParent| + |sep|;
    forall i, j | 0 <= i < j < |r|
      ensures r[i] != r[j]
    {
      assert r[i][n..] == keys[i];
      assert r[j][n..] == keys[j];
    }
  }

  /** One `createDirectory` call per path, in order. */
  function CreateAll(dirs: seq<string>): (r: seq<Action>)
    ensures |r| == |dirs|
    ensures forall i :: 0 <= i < |dirs| ==> r[i] == CreateDirectory(dirs[i])
  {
    seq(|dirs|, i requires 0 <= i < |dirs| => CreateDirectory(dirs[i]))
  }

  // ---------------------------------------------------------------------------
  // makeSubFolders

  /** Lines 138–139: the key `makeSubFolders` searches for: the author prefix
      after its last separator (`i + 1`), so it holds no separator at all. */
  function SearchKey(sep: Separator, p: string): (r: Option<string>)
    ensures r.Some? <==> '_' in p
    ensures r.Some? ==> '_' !in r.value && !Contains(r.value, sep)
  {
    var student :- ParseStudentsName(p);
    var i := LastIndexOfPathSep(sep, student);
    var key := student[i + 1..];
    assert forall k :: !OccursAt(key, sep, k) by {
      forall k
        ensures !OccursAt(key, sep, k)
      {
        OccursAtSuffix(student, sep, i + 1, k);
      }
    }
    Some(key)
  }

  /** The search key is what follows the author prefix's last separator: the
      whole prefix when it has none, and otherwise a suffix whose preceding
      character starts a separator. */
  lemma SearchKeyIsLastComponent(sep: Separator, p: string)
    requires '_' in p
    ensures var author := ParseStudentsName(p).value; var key := SearchKey(sep, p).value;
      && IsSuffix(key, author)
      && (!Contains(author, sep) ==> key == author)
      && (Contains(author, sep) ==> |key| < |author| && OccursAt(author, sep, |author| - |key| - 1))
  {
  }

  /** The two cuts differ by exactly the separator's first character. */
  lemma StudentKeyKeepsSeparator(sep: Separator, p: string)
    requires StudentKey(sep, p).Some?
    ensures SearchKey(sep, p).Some?
    ensures StudentKey(sep, p).value == [sep[0]] + SearchKey(sep, p).value
  {
    var student := ParseStudentsName(p).value;
    var i := LastIndexOfPathSep(sep, student);
    assert student[i..] == [student[i]] + student[i + 1..];
    assert student[i..i + |sep|] == sep;
  }

  /** `dirs[i]` is the first directory whose path contains `key`. */
  predicate FirstContaining(dirs: seq<string>, key: string, i: int)
  {
    0 <= i < |dirs| && Contains(dirs[i], key) && forall j :: 0 <= j < i ==> !Contains(dirs[j], key)
  }

  /** The scan of lines 140–143 from position `from` on. */
  function RouteFrom(dirs: seq<string>, key: string, from: nat): (r: Option<nat>)
    requires from <= |dirs|
    ensures r.Some? ==> from <= r.value < |dirs| && Contains(dirs[r.value], key)
    ensures r.Some? ==> forall j :: from <= j < r.value ==> !Contains(dirs[j], key)
    ensures r.None? ==> forall j :: from <= j < |dirs| ==> !Contains(dirs[j], key)
    decreases |dirs| - from
  {
    if from == |dirs| then None
    else if Contains(dirs[from], key) then Some(from)
    else RouteFrom(dirs, key, from + 1)
  }

  /** Lines 140–143: the index of the first result directory whose path
      contains the key, if any. */
  function Route(dirs: seq<string>, key: string): (r: Option<nat>)
    ensures r.Some? ==> FirstContaining(dirs, key, r.value)
    ensures r.None? <==> forall j :: 0 <= j < |dirs| ==> !Contains(dirs[j], key)
  {
    RouteFrom(dirs, key, 0)
  }

  /** The destination path of line 145: the student directory, the separator,
      the stem, and the five characters of the `.java` extension. */
  function Destination(dir: string, sep: Separator, stem: string): (r: string)
    ensures |r| == |dir| + |sep| + |stem| + 5
    ensures r[..|dir|] == dir && r[|dir|..|dir| + |sep|] == sep
    ensures r[|dir| + |sep|..|dir| + |sep| + |stem|] == stem
    ensures r[|dir| + |sep| + |stem|..] == ".java"
  {
    dir + sep + stem + ".java"
  }

  /** Lines 146–148: a directory is created at the destination path, then the
      file is copied over it, the one copy the round makes. */
  function CopyInto(p: string, dst: string): (r: seq<Action>)
    ensures |r| == 2 && CopyCount(r) == 1
    ensures r[0] == CreateDirectory(dst) && CopyFile(p, dst) in r[1..]
  {
    var r := [CreateDirectory(dst), CopyFile(p, dst)];
    assert r[1..][1..] == [];
    assert CopyCount(r[1..][1..]) == 0;
    r
  }

  /** One round of the loop of `makeSubFolders` (lines 138–150): `None` when its
      name parsing throws, otherwise the calls it makes. It copies the file at most once. */
  function FileStep(sep: Separator, dirs: seq<string>, p: string): (r: Option<seq<Action>>)
    ensures r.Some? ==> CopyCount(r.value) <= 1
  {
    var key :- SearchKey(sep, p);
    match Route(dirs, key)
    case None => Some([])
    case Some(i) =>
      var stem :- ParseJavaSrcFileName(p);
      var dst := Destination(dirs[i], sep, stem);
      Some(CopyInto(p, dst))
  }

  /** A round's name parsing throws exactly when the name has no `_`, or when a directory
      matches but the name has no stem; it does nothing exactly when no directory
      matches; otherwise it copies into the first matching directory. */
  lemma FileStepRouting(sep: Separator, dirs: seq<string>, p: string)
    ensures var r := FileStep(sep, dirs, p);
      r.None? <==> SearchKey(sep, p).None?
                   || (Route(dirs, SearchKey(sep, p).value).Some? && ParseJavaSrcFileName(p).None?)
    ensures FileStep(sep, dirs, p) == Some([]) <==>
      SearchKey(sep, p).Some? && Route(dirs, SearchKey(sep, p).value).None?
    ensures var r := FileStep(sep, dirs, p);
      r.Some? && r.value != [] ==>
        exists i :: FirstContaining(dirs, SearchKey(sep, p).value, i)
                 && r.value == CopyInto(p, Destination(dirs[i], sep, ParseJavaSrcFileName(p).value))
  {
  }

  /** Number of copy calls in a plan. */
  function CopyCount(actions: seq<Action>): nat
  {
    if |actions| == 0 then 0
    else (if actions[0].CopyFile? then 1 else 0) + CopyCount(actions[1..])
  }

  lemma {:induction false} CopyCountAppend(a: seq<Action>, b: seq<Action>)
    ensures CopyCount(a + b) == CopyCount(a) + CopyCount(b)
    decreases |a|
  {
    if |a| == 0 {
      assert a + b == b;
    } else {
      assert (a + b)[1..] == a[1..] + b;
      CopyCountAppend(a[1..], b);
    }
  }

  /** The loop of `makeSubFolders` (lines 137–151) for a given round: each
      file's calls in turn, stopping at the first round that throws. */
  function Rounds(round: string -> Option<seq<Action>>, files: seq<string>): (r: Outcome)
    ensures r.aborted <==> exists i :: 0 <= i < |files| && round(files[i]).None?
  {
    if |files| == 0 then Outcome([], false)
    else
      match round(files[0])
      case None => Outcome([], true)
      case Some(step) =>
        var rest := Rounds(round, files[1..]);
        assert forall i :: 1 <= i < |files| ==> files[i] == files[1..][i - 1];
        Outcome(step + rest.actions, rest.aborted)
  }

  /** Once a round throws, no later file is looked at: an aborted plan is the
      plan of the rounds before the first file whose round throws. */
  lemma {:induction false} RoundsStopAtFirstThrow(round: string -> Option<seq<Action>>, files: seq<string>, k: nat)
    requires k < |files| && round(files[k]).None?
    requires forall i :: 0 <= i < k ==> round(files[i]).Some?
    ensures Rounds(round, files) == Outcome(Rounds(round, files[..k]).actions, true)
    decreases k
  {
    if k > 0 {
      var tail := files[1..];
      assert forall i :: 1 <= i < |files| ==> files[i] == tail[i - 1];
      assert files[..k][1..] == tail[..k - 1];
      RoundsStopAtFirstThrow(round, tail, k - 1);
    }
  }

  /** Rounds that copy at most once give at most one copy per file. */
  lemma {:induction false} RoundsCopyBound(round: string -> Option<seq<Action>>, files: seq<string>)
    requires forall i :: 0 <= i < |files| && round(files[i]).Some? ==> CopyCount(round(files[i]).value) <= 1
    ensures CopyCount(Rounds(round, files).actions) <= |files|
  {
    if |files| > 0 && round(files[0]).Some? {
      assert forall i :: 1 <= i < |files| ==> files[i] == files[1..][i - 1];
      RoundsCopyBound(round, files[1..]);
      CopyCountAppend(round(files[0]).value, Rounds(round, files[1..]).actions);
    }
  }

  /** Rounds that each copy once give exactly one copy per file. */
  lemma {:induction false} RoundsCopyExact(round: string -> Option<seq<Action>>, files: seq<string>)
    requires forall i :: 0 <= i < |files| ==> round(files[i]).Some? && CopyCount(round(files[i]).value) == 1
    ensures CopyCount(Rounds(round, files).actions) == |files|
  {
    if |files| > 0 {
      assert forall i :: 1 <= i < |files| ==> files[i] == files[1..][i - 1];
      RoundsCopyExact(round, files[1..]);
      CopyCountAppend(round(files[0]).value, Rounds(round, files[1..]).actions);
    }
  }

  /** Without a throw, the plan is the calls of the rounds before file `k`,
      then those of file `k`, then those after it. */
  lemma {:induction false} RoundsAround(round: string -> Option<seq<Action>>, files: seq<string>, k: nat)
    requires k < |files| && !Rounds(round, files).aborted
    ensures round(files[k]).Some?
    ensures !Rounds(round, files[..k]).aborted
    ensures Rounds(round, files).actions
      == Rounds(round, files[..k]).actions + round(files[k]).value + Rounds(round, files[k + 1..]).actions
  {
    var tail := files[1..];
    assert forall i :: 1 <= i < |files| ==> files[i] == tail[i - 1];
    if k == 0 {
      assert files[..0] == [];
      assert files[1..] == files[k + 1..];
    } else {
      RoundsAround(round, tail, k - 1);
      assert files[..k][1..] == tail[..k - 1];
      assert tail[k..] == files[k + 1..];
      assert files[..k][0] == files[0];
      var head := round(files[0]).value;
      assert Rounds(round, files[..k]).actions == head + Rounds(round, tail[..k - 1]).actions;
      assert Rounds(round, files).actions == head + Rounds(round, tail).actions;
    }
  }

  /** Every call in the plan comes from the round of some listed file. */
  lemma {:induction false} RoundsSound(round: string -> Option<seq<Action>>, files: seq<string>)
    ensures forall a :: a in Rounds(round, files).actions ==>
      exists i :: 0 <= i < |files| && round(files[i]).Some? && a in round(files[i]).value
  {
    if |files| > 0 && round(files[0]).Some? {
      assert forall i :: 1 <= i < |files| ==> files[i] == files[1..][i - 1];
      RoundsSound(round, files[1..]);
    }
  }

  /** When no round throws, every call of every round is in the plan. */
  lemma {:induction false} RoundsComplete(round: string -> Option<seq<Action>>, files: seq<string>)
    requires !Rounds(round, files).aborted
    ensures forall i, a :: 0 <= i < |files| && a in round(files[i]).value ==> a in Rounds(round, files).actions
  {
    if |files| > 0 {
      assert forall i :: 1 <= i < |files| ==> files[i] == files[1..][i - 1];
      RoundsComplete(round, files[1..]);
    }
  }

  /** The loop of `makeSubFolders` over the listed files. */
  function SubFolders(sep: Separator, dirs: seq<string>, files: seq<string>): (r: Outcome)
    ensures r.aborted <==> exists i :: 0 <= i < |files| && FileStep(sep, dirs, files[i]).None?
  {
    Rounds(p => FileStep(sep, dirs, p), files)
  }

  /** The first file whose round throws ends `makeSubFolders`: the calls made
      are those of the files before it, and no file after it is copied. */
  lemma SubFoldersStopAtFirstThrow(sep: Separator, dirs: seq<string>, files: seq<string>, k: nat)
    requires k < |files| && FileStep(sep, dirs, files[k]).None?
    requires forall i :: 0 <= i < k ==> FileStep(sep, dirs, files[i]).Some?
    ensures SubFolders(sep, dirs, files) == Outcome(SubFolders(sep, dirs, files[..k]).actions, true)
  {
    RoundsStopAtFirstThrow(p => FileStep(sep, dirs, p), files, k);
  }

  /** `makeSubFolders` copies at most once per listed file. */
  lemma SubFoldersCopyBound(sep: Separator, dirs: seq<string>, files: seq<string>)
    ensures CopyCount(SubFolders(sep, dirs, files).actions) <= |files|
  {
    RoundsCopyBound(p => FileStep(sep, dirs, p), files);
  }

  // ---------------------------------------------------------------------------
  // The whole run

  /** `makeOutDir`'s directory creation, then `makeOutDirStudents` and
      `makeSubFolders` over the listed files (lines 52–54). The output directory
      is always created first; a file without a key aborts the run right after. */
  function Run(sep: Separator, outParent: string, files: seq<string>): (r: Outcome)
    ensures |r.actions| >= 1 && r.actions[0] == CreateDirectory(outParent)
    ensures StudentKeys(sep, files).None? ==> r == Outcome([CreateDirectory(outParent)], true)
  {
    match StudentKeys(sep, files)
    case None => Outcome([CreateDirectory(outParent)], true)
    case Some(keys) =>
      var dirs := ResultDirs(outParent, sep, Dedup(keys));
      var sub := SubFolders(sep, dirs, files);
      Outcome([CreateDirectory(outParent)] + CreateAll(dirs) + sub.actions, sub.aborted)
  }

  /** A run copies at most once per listed file: the directory creations before
      `makeSubFolders` copy nothing. */
  lemma RunCopyBound(sep: Separator, outParent: string, files: seq<string>)
    ensures CopyCount(Run(sep, outParent, files).actions) <= |files|
  {
    if StudentKeys(sep, files).Some? {
      var dirs := StudentDirs(sep, outParent, files);
      var head := [CreateDirectory(outParent)] + CreateAll(dirs);
      SubFoldersCopyBound(sep, dirs, files);
      CopyCountAppend(head, SubFolders(sep, dirs, files).actions);
      CreationsCopyNothing(outParent, dirs, CopyFile("", ""));
    }
  }

  /** A plan of directory creations copies nothing. */
  lemma {:induction false} CreatesCopyNothing(actions: seq<Action>)
    requires forall i :: 0 <= i < |actions| ==> actions[i].CreateDirectory?
    ensures CopyCount(actions) == 0
  {
    if |actions| > 0 {
      CreatesCopyNothing(actions[1..]);
    }
  }

  /** The creations before `makeSubFolders` hold no copy. */
  lemma CreationsCopyNothing(outParent: string, dirs: seq<string>, a: Action)
    requires a.CopyFile?
    ensures a !in [CreateDirectory(outParent)] + CreateAll(dirs)
    ensures CopyCount([CreateDirectory(outParent)] + CreateAll(dirs)) == 0
  {
    CreatesCopyNothing([CreateDirectory(outParent)] + CreateAll(dirs));
  }

  /** The result directories of a run whose files all have keys. */
  function StudentDirs(sep: Separator, outParent: string, files: seq<string>): seq<string>
    requires StudentKeys(sep, files).Some?
  {
    ResultDirs(outParent, sep, Dedup(StudentKeys(sep, files).value))
  }

  /** The result directories are the keys' directories, each exactly once,
      the first key's first. */
  lemma ResultDirsOfDedup(outParent: string, sep: Separator, keys: seq<string>)
    ensures NoDuplicates(ResultDirs(outParent, sep, Dedup(keys)))
    ensures forall d :: d in ResultDirs(outParent, sep, Dedup(keys)) <==>
      exists i :: 0 <= i < |keys| && d == outParent + sep + keys[i]
    ensures |keys| > 0 ==> ResultDirs(outParent, sep, Dedup(keys))[0] == outParent + sep + keys[0]
  {
    var u := Dedup(keys);
    var dirs := ResultDirs(outParent, sep, u);
    ResultDirsDistinct(outParent, sep, u);
    forall d
      ensures d in dirs <==> exists i :: 0 <= i < |keys| && d == outParent + sep + keys[i]
    {
      if d in dirs {
        var j :| 0 <= j < |dirs| && dirs[j] == d;
        assert u[j] in keys;
        var i :| 0 <= i < |keys| && keys[i] == u[j];
      }
      if exists i :: 0 <= i < |keys| && d == outParent + sep + keys[i] {
        var i :| 0 <= i < |keys| && d == outParent + sep + keys[i];
        assert keys[i] in u;
        var j :| 0 <= j < |u| && u[j] == keys[i];
        assert dirs[j] == d;
      }
    }
    if |keys| > 0 {
      DedupStartsWithFirst(keys);
    }
  }

  /** `makeOutDirStudents` creates, right after the output directory, one
      directory per distinct author key, each exactly once, the first file's
      author first. */
  lemma RunCreatesOneDirectoryPerAuthor(sep: Separator, outParent: string, files: seq<string>)
    requires StudentKeys(sep, files).Some?
    ensures var dirs := StudentDirs(sep, outParent, files);
      var r := Run(sep, outParent, files);
      |r.actions| >= 1 + |dirs| && r.actions[1..1 + |dirs|] == CreateAll(dirs)
    ensures NoDuplicates(StudentDirs(sep, outParent, files))
    ensures forall d :: d in StudentDirs(sep, outParent, files) <==>
      exists i :: 0 <= i < |files| && d == outParent + sep + StudentKeys(sep, files).value[i]
    ensures |files| > 0 ==>
      StudentDirs(sep, outParent, files)[0] == outParent + sep + StudentKeys(sep, files).value[0]
  {
    var dirs := StudentDirs(sep, outParent, files);
    var head := [CreateDirectory(outParent)] + CreateAll(dirs);
    assert Run(sep, outParent, files).actions[..|head|] == head;
    ResultDirsOfDedup(outParent, sep, StudentKeys(sep, files).value);
  }

  /** Among the creations of line 91 is the directory of each file's author,
      after the output directory itself. */
  lemma RunCreatesKeyDirectory(sep: Separator, outParent: string, files: seq<string>, i: nat) returns (j: nat)
    requires StudentKeys(sep, files).Some? && i < |files|
    ensures 0 < j < |Run(sep, outParent, files).actions|
    ensures Run(sep, outParent, files).actions[j] == CreateDirectory(outParent + sep + StudentKeys(sep, files).value[i])
  {
    var dirs := StudentDirs(sep, outParent, files);
    var actions := Run(sep, outParent, files).actions;
    var keys := StudentKeys(sep, files).value;
    assert keys[i] in Dedup(keys);
    var k :| 0 <= k < |Dedup(keys)| && Dedup(keys)[k] == keys[i];
    assert dirs[k] == outParent + sep + keys[i];
    RunCreatesOneDirectoryPerAuthor(sep, outParent, files);
    assert actions[1 + k] == actions[1..1 + |dirs|][k];
    j := 1 + k;
  }

  /** The directory created for a file's own author contains the key
      `makeSubFolders` searches for, so the search never comes back empty. */
  lemma RunRoutesEveryFile(sep: Separator, outParent: string, files: seq<string>, i: nat)
    requires StudentKeys(sep, files).Some? && i < |files|
    ensures SearchKey(sep, files[i]).Some?
    ensures Route(StudentDirs(sep, outParent, files), SearchKey(sep, files[i]).value).Some?
    ensures forall k :: 0 <= k < |StudentDirs(sep, outParent, files)|
                     && StudentDirs(sep, outParent, files)[k] == outParent + sep + StudentKeys(sep, files).value[i]
                     ==> Route(StudentDirs(sep, outParent, files), SearchKey(sep, files[i]).value).value <= k
  {
    var keys := StudentKeys(sep, files).value;
    var dirs := StudentDirs(sep, outParent, files);
    StudentKeyKeepsSeparator(sep, files[i]);
    var key := SearchKey(sep, files[i]).value;
    assert keys[i] in Dedup(keys);
    var j :| 0 <= j < |Dedup(keys)| && Dedup(keys)[j] == keys[i];
    assert dirs[j] == outParent + sep + keys[i];
    KeyInOwnDirectory(outParent, sep, keys[i], key);
    forall k | 0 <= k < |dirs| && dirs[k] == outParent + sep + keys[i]
      ensures Route(dirs, key).Some? && Route(dirs, key).value <= k
    {
      RouteAtMost(dirs, key, k);
    }
  }

  /** The scan stops at the latest at any directory that holds the key. */
  lemma RouteAtMost(dirs: seq<string>, key: string, k: nat)
    requires k < |dirs| && Contains(dirs[k], key)
    ensures Route(dirs, key).Some? && Route(dirs, key).value <= k
  {
  }

  /** A student directory holds the separator-free key of its own author. */
  lemma KeyInOwnDirectory(outParent: string, sep: Separator, studentKey: string, key: string)
    requires studentKey == [sep[0]] + key
    ensures Contains(outParent + sep + studentKey, key)
  {
    var pre := outParent + sep + [sep[0]];
    assert outParent + sep + studentKey == pre + key;
    assert (pre + key)[|pre|..] == key;
    ContainsSuffix(pre + key, key);
  }

  /** With every key present, a round's name parsing throws exactly when the
      file name has no stem. */
  lemma RunRoundThrows(sep: Separator, outParent: string, files: seq<string>, i: nat)
    requires StudentKeys(sep, files).Some? && i < |files|
    ensures FileStep(sep, StudentDirs(sep, outParent, files), files[i]).None? <==>
      ParseJavaSrcFileName(files[i]).None?
  {
    RunRoutesEveryFile(sep, outParent, files, i);
    FileStepRouting(sep, StudentDirs(sep, outParent, files), files[i]);
  }

  /** The plan aborts on a name-parsing exception exactly when some file has no
      key, or every file has one and some file name has no stem. Exceptions of
      the filesystem calls are found by `FileSystem.Perform`. */
  lemma RunAborts(sep: Separator, outParent: string, files: seq<string>)
    ensures StudentKeys(sep, files).None? ==> Run(sep, outParent, files).aborted
    ensures StudentKeys(sep, files).Some? ==>
      (Run(sep, outParent, files).aborted <==>
       exists i :: 0 <= i < |files| && ParseJavaSrcFileName(files[i]).None?)
  {
    if StudentKeys(sep, files).Some? {
      forall i | 0 <= i < |files|
        ensures FileStep(sep, StudentDirs(sep, outParent, files), files[i]).None? <==>
          ParseJavaSrcFileName(files[i]).None?
      {
        RunRoundThrows(sep, outParent, files, i);
      }
    }
  }

  /** Every copy `makeSubFolders` makes takes a listed file into the first
      directory containing its search key, under its decoded stem. */
  lemma SubFoldersCopiesAreRouted(sep: Separator, dirs: seq<string>, files: seq<string>, a: Action)
    requires a in SubFolders(sep, dirs, files).actions && a.CopyFile?
    ensures exists i, j :: 0 <= i < |files| && CopiedInto(sep, dirs, files[i], j, a)
  {
    var round := p => FileStep(sep, dirs, p);
    RoundsSound(round, files);
    var i :| 0 <= i < |files| && round(files[i]).Some? && a in round(files[i]).value;
    FileStepCopies(sep, dirs, files[i], a);
  }

  /** A copy made by one round goes to the first directory containing the
      file's search key. */
  lemma FileStepCopies(sep: Separator, dirs: seq<string>, p: string, a: Action)
    requires FileStep(sep, dirs, p).Some? && a in FileStep(sep, dirs, p).value && a.CopyFile?
    ensures exists j :: CopiedInto(sep, dirs, p, j, a)
  {
    FileStepRouting(sep, dirs, p);
    var j :| FirstContaining(dirs, SearchKey(sep, p).value, j)
      && FileStep(sep, dirs, p).value == CopyInto(p, Destination(dirs[j], sep, ParseJavaSrcFileName(p).value));
    assert CopiedInto(sep, dirs, p, j, a);
  }

  /** `a` copies `p` into `dirs[j]`, the first directory containing its search
      key, under its decoded stem. */
  predicate CopiedInto(sep: Separator, dirs: seq<string>, p: string, j: int, a: Action)
  {
    && SearchKey(sep, p).Some?
    && FirstContaining(dirs, SearchKey(sep, p).value, j)
    && ParseJavaSrcFileName(p).Some?
    && a == CopyFile(p, Destination(dirs[j], sep, ParseJavaSrcFileName(p).value))
  }

  /** Every copy in the plan of a run takes a listed file into the first result
      directory containing its search key, under its decoded stem. */
  lemma RunCopiesAreRouted(sep: Separator, outParent: string, files: seq<string>, a: Action)
    requires StudentKeys(sep, files).Some?
    requires a in Run(sep, outParent, files).actions && a.CopyFile?
    ensures exists i, j :: 0 <= i < |files| && CopiedInto(sep, StudentDirs(sep, outParent, files), files[i], j, a)
  {
    var dirs := StudentDirs(sep, outParent, files);
    assert a in SubFolders(sep, dirs, files).actions by {
      var head := [CreateDirectory(outParent)] + CreateAll(dirs);
      assert Run(sep, outParent, files).actions == head + SubFolders(sep, dirs, files).actions;
      CreationsCopyNothing(outParent, dirs, a);
    }
    SubFoldersCopiesAreRouted(sep, dirs, files, a);
  }

  /** No silent skip: when the run completes, every listed file is copied into
      the first result directory containing its search key. */
  lemma RunCopiesEveryFile(sep: Separator, outParent: string, files: seq<string>, i: nat)
    requires StudentKeys(sep, files).Some? && !Run(sep, outParent, files).aborted
    requires i < |files|
    ensures SearchKey(sep, files[i]).Some? && ParseJavaSrcFileName(files[i]).Some?
    ensures exists j, a :: (CopiedInto(sep, StudentDirs(sep, outParent, files), files[i], j, a)
      && a in Run(sep, outParent, files).actions)
  {
    var dirs := StudentDirs(sep, outParent, files);
    var round := p => FileStep(sep, dirs, p);
    RunRoutesEveryFile(sep, outParent, files, i);
    FileStepRouting(sep, dirs, files[i]);
    assert round(files[i]).Some?;
    var j :| FirstContaining(dirs, SearchKey(sep, files[i]).value, j)
      && FileStep(sep, dirs, files[i]).value == CopyInto(files[i], Destination(dirs[j], sep, ParseJavaSrcFileName(files[i]).value));
    var a := CopyFile(files[i], Destination(dirs[j], sep, ParseJavaSrcFileName(files[i]).value));
    RoundsComplete(round, files);
    assert a in round(files[i]).value;
    assert CopiedInto(sep, dirs, files[i], j, a);
  }

  /** A completed run copies every listed file exactly once. */
  lemma RunCopiesEachFileOnce(sep: Separator, outParent: string, files: seq<string>)
    requires StudentKeys(sep, files).Some? && !Run(sep, outParent, files).aborted
    ensures CopyCount(Run(sep, outParent, files).actions) == |files|
  {
    var dirs := StudentDirs(sep, outParent, files);
    var round := p => FileStep(sep, dirs, p);
    forall i | 0 <= i < |files|
      ensures round(files[i]).Some? && CopyCount(round(files[i]).value) == 1
    {
      RoundCopiesOnce(sep, outParent, files, i);
    }
    RoundsCopyExact(round, files);
    var head := [CreateDirectory(outParent)] + CreateAll(dirs);
    CreationsCopyNothing(outParent, dirs, CopyFile("", ""));
    CopyCountAppend(head, Rounds(round, files).actions);
  }

  /** In a completed run each round copies exactly once. */
  lemma RoundCopiesOnce(sep: Separator, outParent: string, files: seq<string>, i: nat)
    requires StudentKeys(sep, files).Some? && !Run(sep, outParent, files).aborted
    requires i < |files|
    ensures FileStep(sep, StudentDirs(sep, outParent, files), files[i]).Some?
    ensures CopyCount(FileStep(sep, StudentDirs(sep, outParent, files), files[i]).value) == 1
  {
    var dirs := StudentDirs(sep, outParent, files);
    RunRoutesEveryFile(sep, outParent, files, i);
    FileStepRouting(sep, dirs, files[i]);
    var j :| FirstContaining(dirs, SearchKey(sep, files[i]).value, j)
      && FileStep(sep, dirs, files[i]).value == CopyInto(files[i], Destination(dirs[j], sep, ParseJavaSrcFileName(files[i]).value));
  }

  /** Without a throw, `makeSubFolders` makes the calls of the files before
      file `k`, then those of file `k`, then those after it. */
  lemma SubFoldersAround(sep: Separator, dirs: seq<string>, files: seq<string>, k: nat)
    requires k < |files| && !SubFolders(sep, dirs, files).aborted
    ensures FileStep(sep, dirs, files[k]).Some? && !SubFolders(sep, dirs, files[..k]).aborted
    ensures SubFolders(sep, dirs, files).actions
      == SubFolders(sep, dirs, files[..k]).actions + FileStep(sep, dirs, files[k]).value
         + SubFolders(sep, dirs, files[k + 1..]).actions
  {
    RoundsAround(p => FileStep(sep, dirs, p), files, k);
  }

  /** Two files with the same search key and the same decoded stem are copied
      to the same destination, and a round for each creates it first. */
  lemma SameKeyAndStemSameTarget(sep: Separator, dirs: seq<string>, p: string, q: string)
    requires SearchKey(sep, p).Some? && SearchKey(sep, p) == SearchKey(sep, q)
    requires ParseJavaSrcFileName(p).Some? && ParseJavaSrcFileName(p) == ParseJavaSrcFileName(q)
    requires Route(dirs, SearchKey(sep, p).value).Some?
    ensures var dst := Destination(dirs[Route(dirs, SearchKey(sep, p).value).value], sep, ParseJavaSrcFileName(p).value);
      && FileStep(sep, dirs, p) == Some(CopyInto(p, dst))
      && FileStep(sep, dirs, q) == Some(CopyInto(q, dst))
  {
  }

  /** Two calls spliced between a prefix and a suffix. */
  lemma SeqSplice<T>(pre: seq<T>, x: T, y: T, post: seq<T>)
    ensures pre + [x, y] + post == pre + [x] + ([y] + post)
  {
  }

  /** A call between two parts, moved into the regrouped sequence. */
  lemma SeqRegroup<T>(head: seq<T>, pre: seq<T>, x: T, post: seq<T>)
    ensures head + (pre + [x] + post) == (head + pre) + [x] + post
  {
  }

  /** When no round throws, the calls of round `i` are all in the plan. */
  lemma SubFoldersComplete(sep: Separator, dirs: seq<string>, files: seq<string>, i: nat, a: Action)
    requires i < |files| && !SubFolders(sep, dirs, files).aborted
    requires FileStep(sep, dirs, files[i]).Some? && a in FileStep(sep, dirs, files[i]).value
    ensures a in SubFolders(sep, dirs, files).actions
  {
    RoundsComplete(p => FileStep(sep, dirs, p), files);
  }

  /** When no round throws, a later file with the same search key and stem as
      an earlier one starts its round by creating the directory the earlier
      one was copied to. */
  lemma SubFoldersRecreate(sep: Separator, dirs: seq<string>, files: seq<string>, i: nat, k: nat)
    returns (before: seq<Action>, dst: string, after: seq<Action>)
    requires i < k < |files| && !SubFolders(sep, dirs, files).aborted
    requires SearchKey(sep, files[i]).Some? && SearchKey(sep, files[i]) == SearchKey(sep, files[k])
    requires ParseJavaSrcFileName(files[i]).Some? && ParseJavaSrcFileName(files[i]) == ParseJavaSrcFileName(files[k])
    requires Route(dirs, SearchKey(sep, files[i]).value).Some?
    ensures CopyFile(files[i], dst) in before
    ensures SubFolders(sep, dirs, files).actions == before + [CreateDirectory(dst)] + after
  {
    SameKeyAndStemSameTarget(sep, dirs, files[i], files[k]);
    dst := Destination(dirs[Route(dirs, SearchKey(sep, files[i]).value).value], sep, ParseJavaSrcFileName(files[i]).value);
    SubFoldersAround(sep, dirs, files, k);
    before := SubFolders(sep, dirs, files[..k]).actions;
    var rest := SubFolders(sep, dirs, files[k + 1..]).actions;
    after := [CopyFile(files[k], dst)] + rest;
    SeqSplice(before, CreateDirectory(dst), CopyFile(files[k], dst), rest);
    assert files[..k][i] == files[i];
    SubFoldersComplete(sep, dirs, files[..k], i, CopyFile(files[i], dst));
  }

  /** The same at the level of the whole plan: the directories of the students
      come first, then the rounds. */
  lemma RunPlanAround(sep: Separator, outParent: string, files: seq<string>, i: nat, k: nat)
    returns (pre: seq<Action>, dst: string, post: seq<Action>)
    requires StudentKeys(sep, files).Some? && !Run(sep, outParent, files).aborted
    requires i < k < |files|
    requires SearchKey(sep, files[i]) == SearchKey(sep, files[k])
    requires ParseJavaSrcFileName(files[i]) == ParseJavaSrcFileName(files[k])
    ensures CopyFile(files[i], dst) in pre
    ensures Run(sep, outParent, files).actions == pre + [CreateDirectory(dst)] + post
  {
    var dirs := StudentDirs(sep, outParent, files);
    var head := [CreateDirectory(outParent)] + CreateAll(dirs);
    assert Run(sep, outParent, files) == Outcome(head + SubFolders(sep, dirs, files).actions, SubFolders(sep, dirs, files).aborted);
    RunRoutesEveryFile(sep, outParent, files, i);
    RunRoundThrows(sep, outParent, files, i);
    var before, after;
    before, dst, after := SubFoldersRecreate(sep, dirs, files, i, k);
    pre := head + before;
    post := after;
    SeqRegroup(head, before, CreateDirectory(dst), after);
  }

  /** The search picks the first directory containing the key, so a key that
      also occurs in the first author's directory path (or in the output path
      itself) sends the file there, whoever its author is. */
  lemma RunFirstDirectoryCaptures(sep: Separator, outParent: string, files: seq<string>, i: nat)
    requires StudentKeys(sep, files).Some? && i < |files|
    requires Contains(outParent + sep + StudentKey(sep, files[0]).value, SearchKey(sep, files[i]).value)
    ensures Route(StudentDirs(sep, outParent, files), SearchKey(sep, files[i]).value) == Some(0)
  {
    ResultDirsOfDedup(outParent, sep, StudentKeys(sep, files).value);
  }
}
