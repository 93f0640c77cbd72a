/** One turn of exec_local_cmd_loop in 4-ShellP2/starter/dshlib.c: the
    single-command shell. It has no pipelines, so `|` is an ordinary
    argument, and its `cd` without an argument stays where it is. */
module ShellP2 {
  import opened Limits
  import opened Text
  import opened Tokenizer

  datatype Action =
    | Exit
    | WarnNoCommand
    | PipeLimit           // CMD_ERR_PIPE_LIMIT, for too many arguments
    | TooLong             // "command or arguments too long"
    | Silent              // argc == 0: nothing is printed
    | CdTooManyArgs
    | ChangeDir(path: string)
    | CdStay
    | Run(argv: seq<string>)

  /** How the loop reports each result of parse_cmd_line. */
  function Classify(r: ParseResult): (a: Action)
    ensures r.WarnNoCmds? <==> a == WarnNoCommand
    ensures r.ErrTooManyCommands? <==> a == PipeLimit
    ensures r.ErrCmdOrArgsTooBig? <==> a == TooLong
    ensures r.Parsed? <==> !(a in {WarnNoCommand, PipeLimit, TooLong})
  {
    match r
    case WarnNoCmds => WarnNoCommand
    case ErrTooManyCommands => PipeLimit
    case ErrCmdOrArgsTooBig => TooLong
    case Parsed(argv) =>
      if |argv| == 0 then Silent
      else if argv[0] == "cd" then
        if |argv| > 2 then CdTooManyArgs
        else if |argv| == 2 then ChangeDir(argv[1])
        else CdStay
      else Run(argv)
  }

  function LineAction(line: string): Action
  {
    var t := Trimmed(CutAtNewline(line));
    if t == [] then WarnNoCommand
    else if t == EXIT_CMD then Exit
    else Classify(ParseOutcome(t))
  }

  // ---------------------------------------------------------------------
  // Properties

  /** The no-command warning comes only from a blank line: parse_cmd_line
      never sees an empty command here, and the argc == 0 branch is dead. */
  lemma WarnIffBlank(line: string)
    ensures LineAction(line) == WarnNoCommand <==> AllSpace(CutAtNewline(line))
    ensures LineAction(line) != Silent
  {
    var t := Trimmed(CutAtNewline(line));
    TrimmedEmptyIff(CutAtNewline(line));
    TrimmedProperties(CutAtNewline(line));
    if t != [] {
      TokensNonEmpty(t);
    }
  }

  /** A command that runs is the tokens of the trimmed line within the
      argv limits, and is not `cd`. */
  lemma RunShape(line: string)
    requires LineAction(line).Run?
    ensures var argv := LineAction(line).argv;
            argv == Tokens(Trimmed(CutAtNewline(line))) &&
            1 <= |argv| <= CMD_ARGV_MAX - 1 && argv[0] != "cd" &&
            forall k :: 0 <= k < |argv| ==> |argv[k]| < ARG_MAX
  {
    TrimmedProperties(CutAtNewline(line));
  }

  /** The directory changes only for `cd <dir>`, with exactly one argument. */
  lemma ChangeDirShape(line: string)
    requires LineAction(line).ChangeDir?
    ensures Tokens(Trimmed(CutAtNewline(line))) == ["cd", LineAction(line).path]
  {
    TrimmedProperties(CutAtNewline(line));
    var argv := Tokens(Trimmed(CutAtNewline(line)));
    assert argv == [argv[0], argv[1]];
  }

  /** The directory changes to `path` exactly when the trimmed line, not
      the exit command, parses to `cd path`. */
  lemma ChangeDirIff(line: string, path: string)
    ensures var t := Trimmed(CutAtNewline(line));
            LineAction(line) == ChangeDir(path) <==>
              t != EXIT_CMD && ParseOutcome(t) == Parsed(["cd", path])
  {
    TrimmedProperties(CutAtNewline(line));
  }

  /** `cd` is refused as having too many arguments exactly when the line
      parses to `cd` with two or more arguments. */
  lemma CdTooManyArgsIff(line: string)
    ensures var t := Trimmed(CutAtNewline(line));
            var r := ParseOutcome(t);
            LineAction(line) == CdTooManyArgs <==>
              t != EXIT_CMD && r.Parsed? && |r.argv| > 2 && r.argv[0] == "cd"
  {
    TrimmedProperties(CutAtNewline(line));
  }

  /** Without pipelines a `|` between words is passed to the command as an
      argument of its own. */
  lemma PipeIsArgument(x: string, y: string)
    requires x != [] && y != [] && PlainWord(x) && PlainWord(y) && x != "cd"
    requires !IsSpace(x[0]) && !IsSpace(y[|y| - 1])
    requires '\n' !in x + " | " + y && x + " | " + y != EXIT_CMD
    requires CMD_ARGV_MAX >= 4 && |x| < ARG_MAX && |y| < ARG_MAX && 1 < ARG_MAX
    ensures LineAction(x + " | " + y) == Run([x, "|", y])
  {
    var s := x + " | " + y;
    var ws := [x, "|", y];
    assert s == JoinWith(ws, [1, 1]) by {
      assert Spaces(1) == " ";
      assert ws[1..][1..] == [y] && [1, 1][1..] == [1];
      assert JoinWith(ws[1..], [1, 1][1..]) == "|" + " " + y;
      assert JoinWith(ws, [1, 1]) == x + " " + ("|" + " " + y);
    }
    TokensOfPlainWords(ws, [1, 1]);
    assert CutAtNewline(s) == s by {
      RunLenAt(s, |s|, {'\n'});
    }
    TrimmedAt(s, 0, |s|);
    assert s[..0] == [] && s[|s|..] == [] && s[0..|s|] == s;
    assert !(exists k :: 0 <= k < |ws| && |ws[k]| >= ARG_MAX);
  }

  /** The loop body: newline cut, trim, blank and exit checks, parse, the
      error report, the built-in cd, and otherwise a command to fork. */
  method ProcessLine(line: string) returns (a: Action)
    requires NoNul(line) && |line| < SIZE_MAX
    ensures a == LineAction(line)
  {
    var cut := CutAtNewline(line);
    var lo, hi := TrimWhitespace(cut);
    var trimmed := cut[lo..hi];
    if |trimmed| == 0 {
      return WarnNoCommand;
    }
    if trimmed == EXIT_CMD {
      return Exit;
    }
    assert NoNul(trimmed) by {
      assert forall k :: 0 <= k < |trimmed| ==> trimmed[k] == line[lo + k];
    }
    TrimmedProperties(cut);
    var rc := ParseCmdLine(trimmed);
    if !rc.Parsed? {
      if rc.WarnNoCmds? {
        return WarnNoCommand;
      } else if rc.ErrTooManyCommands? {
        return PipeLimit;
      } else {
        return TooLong;
      }
    }
    var argv := rc.argv;
    if |argv| == 0 {
      return Silent;
    }
    if argv[0] == "cd" {
      if |argv| > 2 {
        return CdTooManyArgs;
      } else if |argv| == 2 {
        return ChangeDir(argv[1]);
      }
      return CdStay;
    }
    return Run(argv);
  }
}
