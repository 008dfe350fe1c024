/** `listFiles`: the stack-driven walk over the submission directory that
    collects every regular file whose name matches the glob, reading at most
    `depth` directories when a positive depth is given. The filesystem is a
    finite tree of entries; the glob is the predicate `matches`, applied to
    every entry a directory stream yields, directories included. */
module TreeWalker {
  import opened Wrappers

  /** What a directory stream can yield: a regular file, a directory with its
      entries in stream order, or anything else (neither `isDirectory` nor
      `isFile` holds). */
  datatype Entry =
    | File(path: string)
    | Directory(path: string, entries: seq<Entry>)
    | Other(path: string)

  /** The matching regular files below directory `e`: its own, and
      recursively those of its matching directories. */
  function Files(e: Entry, matches: string -> bool): multiset<string>
    decreases e, 1
  {
    match e
    case Directory(_, es) => FilesIn(es, matches)
    case _ => multiset{}
  }

  /** What one directory's entries contribute to `Files`. */
  function FilesIn(es: seq<Entry>, matches: string -> bool): multiset<string>
    decreases es, 0
  {
    if |es| == 0 then multiset{}
    else
      var here :=
        if !matches(es[0].path) then multiset{}
        else match es[0]
          case File(p) => multiset{p}
          case Directory(_, _) => Files(es[0], matches)
          case Other(_) => multiset{};
      here + FilesIn(es[1..], matches)
  }

  /** The directories a complete walk from `e` reads: `e` itself and
      recursively its matching directories. */
  function DirCount(e: Entry, matches: string -> bool): (n: nat)
    ensures e.Directory? <==> n >= 1
    decreases e, 1
  {
    match e
    case Directory(_, es) => 1 + DirCountIn(es, matches)
    case _ => 0
  }

  /** What one directory's entries contribute to `DirCount`. */
  function DirCountIn(es: seq<Entry>, matches: string -> bool): nat
    decreases es, 0
  {
    if |es| == 0 then 0
    else
      (if matches(es[0].path) && es[0].Directory? then DirCount(es[0], matches) else 0)
      + DirCountIn(es[1..], matches)
  }

  /** The files still to be collected from the directories on a stack. */
  function FilesOnStack(stack: seq<Entry>, matches: string -> bool): multiset<string>
  {
    if |stack| == 0 then multiset{}
    else Files(stack[0], matches) + FilesOnStack(stack[1..], matches)
  }

  /** The directories still to be read from a stack. */
  function DirCountOnStack(stack: seq<Entry>, matches: string -> bool): nat
  {
    if |stack| == 0 then 0
    else DirCount(stack[0], matches) + DirCountOnStack(stack[1..], matches)
  }

  /** The matching regular files among a directory's entries, in stream order
      (lines 113–116, `isFile`). */
  function FilesHere(es: seq<Entry>, matches: string -> bool): (r: seq<string>)
    ensures forall i :: 0 <= i < |r| ==> matches(r[i])
  {
    if |es| == 0 then []
    else (if matches(es[0].path) && es[0].File? then [es[0].path] else []) + FilesHere(es[1..], matches)
  }

  /** The matching directories among a directory's entries, in stream order
      (lines 113–114, `isDirectory`). */
  function DirsHere(es: seq<Entry>, matches: string -> bool): (r: seq<Entry>)
    ensures forall i :: 0 <= i < |r| ==> r[i].Directory?
  {
    if |es| == 0 then []
    else (if matches(es[0].path) && es[0].Directory? then [es[0]] else []) + DirsHere(es[1..], matches)
  }

  /** The files of a stack split over concatenation. */
  lemma {:induction false} FilesOnStackAppend(a: seq<Entry>, b: seq<Entry>, matches: string -> bool)
    ensures FilesOnStack(a + b, matches) == FilesOnStack(a, matches) + FilesOnStack(b, matches)
  {
    if |a| == 0 {
      assert a + b == b;
    } else {
      assert (a + b)[1..] == a[1..] + b;
      FilesOnStackAppend(a[1..], b, matches);
    }
  }

  /** The directory count of a stack splits over concatenation. */
  lemma {:induction false} DirCountOnStackAppend(a: seq<Entry>, b: seq<Entry>, matches: string -> bool)
    ensures DirCountOnStack(a + b, matches) == DirCountOnStack(a, matches) + DirCountOnStack(b, matches)
  {
    if |a| == 0 {
      assert a + b == b;
    } else {
      assert (a + b)[1..] == a[1..] + b;
      DirCountOnStackAppend(a[1..], b, matches);
    }
  }

  /** Reading one directory's entries collects its matching files now and
      leaves the files below its matching directories for later. */
  lemma {:induction false} FilesInSplit(es: seq<Entry>, matches: string -> bool)
    ensures FilesIn(es, matches) == multiset(FilesHere(es, matches)) + FilesOnStack(DirsHere(es, matches), matches)
  {
    if |es| > 0 {
      FilesInSplit(es[1..], matches);
      var d := if matches(es[0].path) && es[0].Directory? then [es[0]] else [];
      FilesOnStackAppend(d, DirsHere(es[1..], matches), matches);
      var f := if matches(es[0].path) && es[0].File? then [es[0].path] else [];
      assert multiset(f + FilesHere(es[1..], matches)) == multiset(f) + multiset(FilesHere(es[1..], matches));
    }
  }

  /** The directories below one directory's entries are those below its
      matching directories. */
  lemma {:induction false} DirCountInSplit(es: seq<Entry>, matches: string -> bool)
    ensures DirCountIn(es, matches) == DirCountOnStack(DirsHere(es, matches), matches)
  {
    if |es| > 0 {
      DirCountInSplit(es[1..], matches);
      var d := if matches(es[0].path) && es[0].Directory? then [es[0]] else [];
      DirCountOnStackAppend(d, DirsHere(es[1..], matches), matches);
    }
  }

  /** Every directory on the stack is still to be read. */
  lemma {:induction false} DirCountOnStackAtLeast(stack: seq<Entry>, matches: string -> bool)
    requires forall i :: 0 <= i < |stack| ==> stack[i].Directory?
    ensures DirCountOnStack(stack, matches) >= |stack|
  {
    if |stack| > 0 {
      DirCountOnStackAtLeast(stack[1..], matches);
    }
  }

  /** Every collected path matches the glob. */
  lemma {:induction false} FilesMatch(e: Entry, matches: string -> bool, x: string)
    requires x in Files(e, matches)
    ensures matches(x)
    decreases e, 1
  {
    if e.Directory? {
      FilesInMatch(e.entries, matches, x);
    }
  }

  lemma {:induction false} FilesInMatch(es: seq<Entry>, matches: string -> bool, x: string)
    requires x in FilesIn(es, matches)
    ensures matches(x)
    decreases es, 0
  {
    if |es| > 0 {
      if x in FilesIn(es[1..], matches) {
        FilesInMatch(es[1..], matches, x);
      } else if matches(es[0].path) && es[0].Directory? {
        FilesMatch(es[0], matches, x);
      }
    }
  }

  /** Lines 103–123. `None` when the target is not a directory
      (`newDirectoryStream` throws). Otherwise the walk reads every directory
      of the tree, or only the first `depth` of them when `depth` is positive
      and smaller; it collects matching files only, exactly those of the tree
      when it reads every directory and a part of them when it stops early. */
  method ListFiles(root: Entry, depth: int, matches: string -> bool) returns (r: Option<seq<string>>, rounds: nat)
    ensures r.None? <==> !root.Directory?
    ensures r.Some? ==> multiset(r.value) <= Files(root, matches)
    ensures r.Some? ==> forall i :: 0 <= i < |r.value| ==> matches(r.value[i])
    ensures r.Some? ==> rounds == if 1 <= depth < DirCount(root, matches) then depth else DirCount(root, matches)
    ensures r.Some? && (depth < 1 || DirCount(root, matches) <= depth) ==> multiset(r.value) == Files(root, matches)
    ensures r.Some? && depth == 1 ==> r.value == FilesHere(root.entries, matches)
  {
    if !root.Directory? {
      return None, 0;
    }
    var result: seq<string> := [];
    var stack: seq<Entry> := [root];
    rounds := 0;
    WalkStart(root, matches);
    while |stack| > 0
      invariant Walking(root, matches, result, stack, rounds)
      invariant depth >= 1 ==> rounds < depth
      invariant rounds == 0 ==> result == [] && stack == [root]
      decreases DirCountOnStack(stack, matches)
    {
      var top := stack[|stack| - 1];
      WalkRound(root, matches, result, stack, rounds);
      result := result + FilesHere(top.entries, matches);
      stack := stack[..|stack| - 1] + DirsHere(top.entries, matches);
      rounds := rounds + 1;
      if rounds == depth {
        break;
      }
    }
    WalkExit(root, depth, matches, result, stack, rounds);
    r := Some(result);
  }

  /** The loop invariant of `listFiles`: the stack holds directories only, and
      what has been collected and read plus what the stack still holds is
      everything of the tree. */
  predicate Walking(root: Entry, matches: string -> bool, result: seq<string>, stack: seq<Entry>, rounds: nat)
  {
    && (forall i :: 0 <= i < |stack| ==> stack[i].Directory?)
    && multiset(result) + FilesOnStack(stack, matches) == Files(root, matches)
    && rounds + DirCountOnStack(stack, matches) == DirCount(root, matches)
  }

  /** Before the first round only the target is on the stack. */
  lemma WalkStart(root: Entry, matches: string -> bool)
    requires root.Directory?
    ensures Walking(root, matches, [], [root], 0)
  {
    assert [root][1..] == [];
  }

  /** A round keeps the invariant and reads one directory off the count. */
  lemma WalkRound(root: Entry, matches: string -> bool, result: seq<string>, stack: seq<Entry>, rounds: nat)
    requires Walking(root, matches, result, stack, rounds) && |stack| > 0
    ensures var top := stack[|stack| - 1];
      var next := stack[..|stack| - 1] + DirsHere(top.entries, matches);
      && Walking(root, matches, result + FilesHere(top.entries, matches), next, rounds + 1)
      && DirCountOnStack(next, matches) < DirCountOnStack(stack, matches)
  {
    var top := stack[|stack| - 1];
    var next := stack[..|stack| - 1] + DirsHere(top.entries, matches);
    PopStep(stack, matches);
    assert multiset(result + FilesHere(top.entries, matches)) == multiset(result) + multiset(FilesHere(top.entries, matches));
  }

  /** Where the walk stands when the loop ends, with the stack empty or the
      round limit reached. */
  lemma WalkExit(root: Entry, depth: int, matches: string -> bool, result: seq<string>, stack: seq<Entry>, rounds: nat)
    requires Walking(root, matches, result, stack, rounds)
    requires |stack| == 0 || 1 <= rounds == depth
    requires depth >= 1 ==> rounds <= depth
    ensures multiset(result) <= Files(root, matches)
    ensures forall i :: 0 <= i < |result| ==> matches(result[i])
    ensures rounds == if 1 <= depth < DirCount(root, matches) then depth else DirCount(root, matches)
    ensures depth < 1 || DirCount(root, matches) <= depth ==> multiset(result) == Files(root, matches)
  {
    DirCountOnStackAtLeast(stack, matches);
    if |stack| == 0 {
      assert DirCountOnStack(stack, matches) == 0 && FilesOnStack(stack, matches) == multiset{};
    }
    CollectedMatch(root, matches, result);
  }

  /** Anything collected from a tree matches the glob. */
  lemma CollectedMatch(root: Entry, matches: string -> bool, result: seq<string>)
    requires multiset(result) <= Files(root, matches)
    ensures forall i :: 0 <= i < |result| ==> matches(result[i])
  {
    forall i | 0 <= i < |result|
      ensures matches(result[i])
    {
      assert result[i] in multiset(result);
      FilesMatch(root, matches, result[i]);
    }
  }

  /** One round of the loop: the popped directory is read, its matching files
      are collected and its matching directories pushed. */
  lemma PopStep(stack: seq<Entry>, matches: string -> bool)
    requires |stack| > 0 && stack[|stack| - 1].Directory?
    ensures var top := stack[|stack| - 1]; var next := stack[..|stack| - 1] + DirsHere(top.entries, matches);
      && FilesOnStack(stack, matches) == multiset(FilesHere(top.entries, matches)) + FilesOnStack(next, matches)
      && DirCountOnStack(stack, matches) == 1 + DirCountOnStack(next, matches)
  {
    var top := stack[|stack| - 1];
    var below := stack[..|stack| - 1];
    assert stack == below + [top];
    FilesOnStackAppend(below, [top], matches);
    DirCountOnStackAppend(below, [top], matches);
    FilesInSplit(top.entries, matches);
    DirCountInSplit(top.entries, matches);
    FilesOnStackAppend(below, DirsHere(top.entries, matches), matches);
    DirCountOnStackAppend(below, DirsHere(top.entries, matches), matches);
  }
}
