/** `parseArgs`: the command line sets the target directory, the round limit of
    the walk and the name of the output folder, falling through from the last
    argument to the first. */
module Arguments {
  import opened Wrappers
  import opened JavaStrings

  /** The three settings of a run. */
  datatype Config = Config(target: string, depth: int, outputName: string)

  /** Lines 33–36: the working directory, no round limit (-1) and
      "AllStudents". */
  function DefaultConfig(cwd: string): (c: Config)
    ensures c.target == cwd && c.depth < 1
    ensures c.outputName == "AllStudents"
  {
    Config(cwd, -1, "AllStudents")
  }

  /** Either the settings to run with, or the usage message and exit
      (`printUsage`, lines 269–274). */
  datatype ArgsResult = Configured(config: Config) | Usage

  /** Lines 290–325. No arguments keep the defaults; one to three set, in
      fall-through order, the output folder name (third), the round limit
      (second, through `parseInt`, which stands for `Integer.valueOf`) and the
      target with every `"` removed (first); more than three, or a second
      argument that is not a number, print the usage and exit. */
  function ParseArgs(cfg: Config, args: seq<string>, parseInt: string -> Option<int>): (r: ArgsResult)
    ensures r.Usage? <==> |args| > 3 || (2 <= |args| && parseInt(args[1]).None?)
    ensures r.Configured? ==> r.config.target == if |args| == 0 then cfg.target else RemoveAll(args[0], '"')
    ensures r.Configured? ==> r.config.depth == if |args| >= 2 then parseInt(args[1]).value else cfg.depth
    ensures r.Configured? ==> r.config.outputName == if |args| == 3 then args[2] else cfg.outputName
  {
    if |args| == 0 then Configured(cfg)
    else if |args| > 3 then Usage
    else
      var named := if |args| == 3 then cfg.(outputName := args[2]) else cfg;
      if |args| >= 2 && parseInt(args[1]).None? then Usage
      else
        var limited := if |args| >= 2 then named.(depth := parseInt(args[1]).value) else named;
        Configured(limited.(target := RemoveAll(args[0], '"')))
  }

  /** A target given on the command line never keeps a quote. */
  lemma ParseArgsUnquotes(cfg: Config, args: seq<string>, parseInt: string -> Option<int>)
    requires |args| >= 1 && ParseArgs(cfg, args, parseInt).Configured?
    ensures '"' !in ParseArgs(cfg, args, parseInt).config.target
    ensures '"' !in args[0] ==> ParseArgs(cfg, args, parseInt).config.target == args[0]
  {
  }

  /** Without a usable second argument the walk has no round limit, unless the
      defaults set one. */
  lemma ParseArgsDefaultDepth(cwd: string, args: seq<string>, parseInt: string -> Option<int>)
    requires |args| <= 1
    ensures ParseArgs(DefaultConfig(cwd), args, parseInt).Configured?
    ensures ParseArgs(DefaultConfig(cwd), args, parseInt).config.depth < 1
    ensures ParseArgs(DefaultConfig(cwd), args, parseInt).config.outputName == "AllStudents"
  {
  }
}
