/** The whole program (`main`, lines 48–55): parse the arguments, walk the
    target directory, create the output directory next to the submissions and
    fan the collected files out into one folder per student. */
module Pipeline {
  import opened Wrappers
  import opened JavaStrings
  import opened NameDecoder
  import opened FanOut
  import opened TreeWalker
  import opened Arguments

  /** How a run ends: the usage message, the walk throwing because the target
      is not a directory, or the plan of filesystem calls over the files the
      walk collected. */
  datatype Execution =
    | ShowUsage
    | WalkFailed
    | Ran(files: seq<string>, plan: Outcome)

  /** `makeOutDir` (lines 57–72) once the walk has succeeded: the target is a
      directory, so the output directory is made inside it. */
  function OutParent(sep: Separator, target: string, outputName: string): (p: string)
    ensures |p| == |target| + |sep| + |outputName|
    ensures p[..|target|] == target && p[|target|..|target| + |sep|] == sep && p[|target| + |sep|..] == outputName
  {
    target + sep + outputName
  }

  /** `main`. The environment is given: `cwd` for the `user.dir` property,
      `sep` for `file.separator`, `parseInt` for `Integer.valueOf`, `lookup`
      for what the filesystem holds at a path and `matches` for the glob
      `*.{java}`. */
  method Execute(cwd: string, sep: Separator, args: seq<string>, parseInt: string -> Option<int>,
                 lookup: string -> Entry, matches: string -> bool) returns (e: Execution)
    ensures e.ShowUsage? <==> ParseArgs(DefaultConfig(cwd), args, parseInt).Usage?
    ensures e.WalkFailed? <==>
      ParseArgs(DefaultConfig(cwd), args, parseInt).Configured?
      && !lookup(ParseArgs(DefaultConfig(cwd), args, parseInt).config.target).Directory?
    ensures e.Ran? ==>
      var cfg := ParseArgs(DefaultConfig(cwd), args, parseInt).config;
      && multiset(e.files) <= Files(lookup(cfg.target), matches)
      && ((cfg.depth < 1 || DirCount(lookup(cfg.target), matches) <= cfg.depth) ==>
            multiset(e.files) == Files(lookup(cfg.target), matches))
      && (cfg.depth == 1 ==> e.files == FilesHere(lookup(cfg.target).entries, matches))
      && e.plan == Run(sep, OutParent(sep, cfg.target, cfg.outputName), e.files)
  {
    var parsed := ParseArgs(DefaultConfig(cwd), args, parseInt);
    if parsed.Usage? {
      return ShowUsage;
    }
    var cfg := parsed.config;
    var listed, _ := ListFiles(lookup(cfg.target), cfg.depth, matches);
    if listed.None? {
      return WalkFailed;
    }
    var files := listed.value;
    e := Ran(files, Run(sep, OutParent(sep, cfg.target, cfg.outputName), files));
  }
}
