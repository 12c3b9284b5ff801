/**
 * The command-line reader: one left-to-right pass over the arguments that fills a Config,
 * stops early on `--` (after taking the next argument as the file path) and on help, and
 * rejects options it does not know.
 */
module Cli {
  import opened Prelude

  datatype DecoderMode = Simple | Stat | Detail

  datatype OutputMode = Quiet | Normal | Verbose

  /**
   * The options read; each is absent unless an argument set it. The accessors `file_path`,
   * `decoder_mode` and `output_mode` are the field destructors.
   */
  datatype Config = Config(
    filePath: Option<string>,
    decoderMode: Option<DecoderMode>,
    outputMode: Option<OutputMode>)

  /** Config::default: nothing set. */
  const DEFAULT: Config := Config(None, None, None)

  datatype Error = Unknown(arg: string)

  /** The argument after which the next one is the file path, whatever it looks like. */
  const ESCAPE: string := "--"

  predicate IsOption(arg: string) {
    |arg| > 0 && arg[0] == '-'
  }

  predicate IsHelp(arg: string) {
    arg == "-h" || arg == "--help"
  }

  /** The decoder mode an argument selects, if it is a mode flag. */
  function ModeFlag(arg: string): Option<DecoderMode> {
    if arg == "-s" || arg == "--stats" then Some(Stat)
    else if arg == "-d" || arg == "--details" then Some(Detail)
    else None
  }

  /** The output mode an argument selects, if it is an output flag. */
  function OutputFlag(arg: string): Option<OutputMode> {
    if arg == "-v" || arg == "--verbose" then Some(Verbose)
    else if arg == "-q" || arg == "--quiet" then Some(Quiet)
    else None
  }

  /** The file path an argument gives: any non-empty argument that does not start with '-'. */
  function PathArg(arg: string): Option<string> {
    if arg != "" && arg[0] != '-' then Some(arg) else None
  }

  /** An argument after which the reader carries on: a path, an empty argument or a known flag. */
  predicate Passes(arg: string) {
    !IsOption(arg) || ModeFlag(arg).Some? || OutputFlag(arg).Some?
  }

  /** read_args as recursion over the arguments not yet read. */
  function Run(config: Config, args: seq<string>): Result<Option<Config>, Error>
    decreases |args|
  {
    if args == [] then Ok(Some(config))
    else
      var arg := args[0];
      if arg == "" then Run(config, args[1..])
      else if !IsOption(arg) then Run(config.(filePath := Some(arg)), args[1..])
      else if ModeFlag(arg).Some? then Run(config.(decoderMode := ModeFlag(arg)), args[1..])
      else if OutputFlag(arg).Some? then Run(config.(outputMode := OutputFlag(arg)), args[1..])
      else if arg == ESCAPE then Ok(Some(if |args| > 1 then config.(filePath := Some(args[1])) else config))
      else if IsHelp(arg) then Ok(None)
      else Err(Unknown(arg))
  }

  /** The outcome of read_args on `args`. */
  function Parse(args: seq<string>): Result<Option<Config>, Error> {
    Run(DEFAULT, args)
  }

  /**
   * read_args: the arguments in order; an empty one is skipped, a plain one sets the file path,
   * the flags set their mode, `--` makes the next argument the file path and ends the pass,
   * help ends it with no config, and any other option is an error naming it.
   */
  method ReadArgs(args: seq<string>) returns (r: Result<Option<Config>, Error>)
    ensures r == Parse(args)
  {
    var config := DEFAULT;
    var escape := false;
    for i := 0 to |args|
      invariant !escape ==> Run(config, args[i..]) == Parse(args)
      invariant escape ==> 0 < i && args[i - 1] == ESCAPE
      invariant escape ==> Parse(args) == Ok(Some(if i < |args| then config.(filePath := Some(args[i])) else config))
    {
      var arg := args[i];
      assert args[i..][1..] == args[i + 1..];
      if escape {
        config := config.(filePath := Some(arg));
        break;
      }
      if arg == "" {
        continue;
      }
      if arg[0] != '-' {
        config := config.(filePath := Some(arg));
        continue;
      }
      if arg == "-s" || arg == "--stats" {
        config := config.(decoderMode := Some(Stat));
      } else if arg == "-d" || arg == "--details" {
        config := config.(decoderMode := Some(Detail));
      } else if arg == "-v" || arg == "--verbose" {
        config := config.(outputMode := Some(Verbose));
      } else if arg == "-q" || arg == "--quiet" {
        config := config.(outputMode := Some(Quiet));
      } else if arg == "--" {
        escape := true;
      } else if arg == "-h" || arg == "--help" {
        return Ok(None);
      } else {
        return Err(Unknown(arg));
      }
    }
    return Ok(Some(config));
  }

  /** The later of two settings: `next` when it is set, otherwise `prev`. */
  function Latest<T>(prev: Option<T>, next: Option<T>): Option<T> {
    if next.Some? then next else prev
  }

  /** What the last argument that `pick` accepts gives, if any argument does. */
  function Last<T>(args: seq<string>, pick: string -> Option<T>): Option<T>
    decreases |args|
  {
    if args == [] then None
    else Latest(Last(args[..|args| - 1], pick), pick(args[|args| - 1]))
  }

  lemma {:induction false} LastCons<T>(arg: string, rest: seq<string>, pick: string -> Option<T>)
    ensures Last([arg] + rest, pick) == Latest(pick(arg), Last(rest, pick))
    decreases |rest|
  {
    if rest != [] {
      var init := rest[..|rest| - 1];
      LastCons(arg, init, pick);
      assert ([arg] + rest)[..|rest|] == [arg] + init;
    }
  }

  /** The config after `args` when the same settings came last. */
  function Settled(config: Config, args: seq<string>): Config {
    Config(
      Latest(config.filePath, Last(args, PathArg)),
      Latest(config.decoderMode, Last(args, ModeFlag)),
      Latest(config.outputMode, Last(args, OutputFlag)))
  }

  lemma SettledCons(config: Config, arg: string, rest: seq<string>)
    requires Passes(arg)
    ensures Settled(config, [arg] + rest)
         == Settled(Config(
              Latest(config.filePath, PathArg(arg)),
              Latest(config.decoderMode, ModeFlag(arg)),
              Latest(config.outputMode, OutputFlag(arg))), rest)
  {
    LastCons(arg, rest, PathArg);
    LastCons(arg, rest, ModeFlag);
    LastCons(arg, rest, OutputFlag);
  }

  /**
   * When no argument stops the reader, the file path, the decoder mode and the output mode
   * are each set by the last argument that sets them, and stay as they were otherwise.
   */
  lemma {:induction false} RunPassing(config: Config, args: seq<string>)
    requires forall k :: 0 <= k < |args| ==> Passes(args[k])
    ensures Run(config, args) == Ok(Some(Settled(config, args)))
    decreases |args|
  {
    if args != [] {
      var arg, rest := args[0], args[1..];
      assert args == [arg] + rest;
      SettledCons(config, arg, rest);
      RunPassing(Config(
        Latest(config.filePath, PathArg(arg)),
        Latest(config.decoderMode, ModeFlag(arg)),
        Latest(config.outputMode, OutputFlag(arg))), rest);
    }
  }

  /**
   * The first argument that is neither a path, an empty argument nor a known flag decides
   * the outcome: after `--` the next argument, if any, is the file path and nothing later is
   * read; help gives no config; anything else is an error naming that argument. The
   * arguments after it never matter.
   */
  lemma {:induction false} RunStops(config: Config, pre: seq<string>, arg: string, post: seq<string>)
    requires forall k :: 0 <= k < |pre| ==> Passes(pre[k])
    requires !Passes(arg)
    ensures var c := Settled(config, pre);
      Run(config, pre + [arg] + post)
        == if arg == ESCAPE then Ok(Some(if post == [] then c else c.(filePath := Some(post[0]))))
           else if IsHelp(arg) then Ok(None)
           else Err(Unknown(arg))
    decreases |pre|
  {
    if pre == [] {
      assert pre + [arg] + post == [arg] + post;
      assert Settled(config, pre) == config;
    } else {
      var a, rest := pre[0], pre[1..];
      assert pre == [a] + rest;
      assert pre + [arg] + post == [a] + (rest + [arg] + post);
      SettledCons(config, a, rest);
      RunStops(Config(
        Latest(config.filePath, PathArg(a)),
        Latest(config.decoderMode, ModeFlag(a)),
        Latest(config.outputMode, OutputFlag(a))), rest, arg, post);
    }
  }

  /**
   * An empty argument changes nothing, unless it directly follows `--` (where it becomes
   * the file path).
   */
  lemma {:induction false} EmptyArgSkipped(config: Config, pre: seq<string>, post: seq<string>)
    requires forall k :: 0 <= k < |pre| ==> Passes(pre[k])
    ensures Run(config, pre + [""] + post) == Run(config, pre + post)
    decreases |pre|
  {
    if pre == [] {
      assert pre + [""] + post == [""] + post;
      assert pre + post == post;
    } else {
      var a, rest := pre[0], pre[1..];
      assert pre + [""] + post == [a] + (rest + [""] + post);
      assert pre + post == [a] + (rest + post);
      if a == "" {
        EmptyArgSkipped(config, rest, post);
      } else if !IsOption(a) {
        EmptyArgSkipped(config.(filePath := Some(a)), rest, post);
      } else if ModeFlag(a).Some? {
        EmptyArgSkipped(config.(decoderMode := ModeFlag(a)), rest, post);
      } else {
        EmptyArgSkipped(config.(outputMode := OutputFlag(a)), rest, post);
      }
    }
  }

  /** No arguments: the default config. */
  lemma NoArgs()
    ensures Parse([]) == Ok(Some(DEFAULT))
  {
  }

  /**
   * The flags and paths before `--` are overridden by later ones, and the argument right
   * after `--` is the file path even though it starts with '-'; the `--verbose` after it is
   * never read.
   */
  lemma ArgsExample()
    ensures Parse(["--details", "--verbose", "--quiet", "/wrong/path", "", "--", "--/file/path", "--verbose"])
         == Ok(Some(Config(Some("--/file/path"), Some(Detail), Some(Quiet))))
  {
  }

  /** Help ends the pass before the unknown option after it is reached. */
  lemma HelpExample()
    ensures Parse(["--details", "foo", "-h", "--foo"]) == Ok(None)
  {
    var pre, post := ["--details", "foo"], ["--foo"];
    assert pre + ["-h"] + post == ["--details", "foo", "-h", "--foo"];
    RunStops(DEFAULT, pre, "-h", post);
  }

  /** An unknown option is an error that carries it. */
  lemma UnknownExample()
    ensures Parse(["--foo"]) == Err(Unknown("--foo"))
  {
    assert [] + ["--foo"] + [] == ["--foo"];
    RunStops(DEFAULT, [], "--foo", []);
  }
}
