/** One turn of exec_local_cmd_loop in 6-RShell/starter/dshlib.c: what the
    shell does with a line it has read, and the parent's pipe bookkeeping
    while it forks the stages of a pipeline. */
module RShell {
  import opened Limits
  import opened Text
  import opened Tokenizer
  import opened Splitter

  datatype CdTarget = HomeDir | Dir(path: string)

  /** The outcome of one line. */
  datatype Action =
    | Exit
    | WarnNoCommand
    | SplitError                 // "command line too complex or too many commands"
    | ParseError(stage: nat)    // "failed to parse command <stage>"
    | CdInPipeline
    | CdTooManyArgs
    | ChangeDir(target: CdTarget)
    | RunPipeline(stages: seq<seq<string>>)

  datatype StagesParse = AllParsed(argvs: seq<seq<string>>) | FailedAt(index: nat)

  /** parse_cmd_line over the stages from `i` on, stopping at the first one
      that does not parse; `done` holds the argument vectors so far. */
  function ParseFrom(parts: seq<string>, i: nat, done: seq<seq<string>>): StagesParse
    decreases |parts| - i
  {
    if i >= |parts| then AllParsed(done)
    else
      match ParseOutcome(parts[i])
      case Parsed(argv) => ParseFrom(parts, i + 1, done + [argv])
      case _ => FailedAt(i)
  }

  function ParseStages(parts: seq<string>): StagesParse
  {
    ParseFrom(parts, 0, [])
  }

  /** Whether any stage, not only the first, runs `cd`. */
  predicate AnyCd(argvs: seq<seq<string>>)
  {
    exists j :: 0 <= j < |argvs| && |argvs[j]| > 0 && argvs[j][0] == "cd"
  }

  /** The cd rule: never inside a pipeline, at most one argument, and no
      argument means the home directory. */
  function CdAction(argvs: seq<seq<string>>): Action
  {
    if |argvs| != 1 then CdInPipeline
    else if |argvs[0]| > 2 then CdTooManyArgs
    else if |argvs[0]| == 2 then ChangeDir(Dir(argvs[0][1]))
    else ChangeDir(HomeDir)
  }

  /** What the shell does with one line read by fgets. */
  function LineAction(line: string): Action
  {
    var t := Trimmed(CutAtNewline(line));
    if t == [] then WarnNoCommand
    else if t == EXIT_CMD then Exit
    else
      match SplitOutcome(t, CMD_MAX)
      case None => SplitError
      case Some(parts) =>
        if parts == [] then WarnNoCommand
        else
          StagesAction(ParseStages(parts))
  }

  /** What the parsed stages lead to: the first parse error, the cd rule
      when any stage is `cd`, or the pipeline. */
  function StagesAction(p: StagesParse): Action
  {
    match p
    case FailedAt(i) => ParseError(i)
    case AllParsed(argvs) => if AnyCd(argvs) then CdAction(argvs) else RunPipeline(argvs)
  }

  // ---------------------------------------------------------------------
  // Properties of the line dispatch

  lemma {:induction false} ParseFromShape(parts: seq<string>, i: nat, done: seq<seq<string>>)
    requires i <= |parts| && |done| == i
    requires forall j :: 0 <= j < i ==> ParseOutcome(parts[j]) == Parsed(done[j])
    ensures ParseFrom(parts, i, done).AllParsed? ==>
              |ParseFrom(parts, i, done).argvs| == |parts| &&
              forall j :: 0 <= j < |parts| ==> ParseOutcome(parts[j]) == Parsed(ParseFrom(parts, i, done).argvs[j])
    ensures ParseFrom(parts, i, done).FailedAt? ==>
              i <= ParseFrom(parts, i, done).index < |parts| &&
              !ParseOutcome(parts[ParseFrom(parts, i, done).index]).Parsed? &&
              forall j :: 0 <= j < ParseFrom(parts, i, done).index ==> ParseOutcome(parts[j]).Parsed?
    decreases |parts| - i
  {
    if i < |parts| {
      match ParseOutcome(parts[i])
      case Parsed(argv) =>
        var d := done + [argv];
        ParseFromShape(parts, i + 1, d);
      case _ =>
    }
  }

  /** The stages parse all together, each to its own tokens, or the first
      one that fails is reported and all before it parsed. */
  lemma ParseStagesShape(parts: seq<string>)
    ensures ParseStages(parts).AllParsed? ==>
              |ParseStages(parts).argvs| == |parts| &&
              forall j :: 0 <= j < |parts| ==> ParseOutcome(parts[j]) == Parsed(ParseStages(parts).argvs[j])
    ensures ParseStages(parts).FailedAt? ==>
              ParseStages(parts).index < |parts| &&
              !ParseOutcome(parts[ParseStages(parts).index]).Parsed? &&
              forall j :: 0 <= j < ParseStages(parts).index ==> ParseOutcome(parts[j]).Parsed?
  {
    ParseFromShape(parts, 0, []);
  }

  /** The no-command warning is printed exactly for blank lines: a split
      that succeeds always has a stage. */
  lemma WarnIffBlank(line: string)
    ensures LineAction(line) == WarnNoCommand <==> AllSpace(CutAtNewline(line))
  {
    var t := Trimmed(CutAtNewline(line));
    TrimmedEmptyIff(CutAtNewline(line));
    if t != [] && t != EXIT_CMD && SplitOutcome(t, CMD_MAX).Some? {
      SplitShape(t, CMD_MAX);
    }
  }

  /** `exit` is recognised after trimming and only as the whole line. */
  lemma ExitIff(line: string)
    requires EXIT_CMD != []
    ensures LineAction(line) == Exit <==> Trimmed(CutAtNewline(line)) == EXIT_CMD
  {
  }

  /** A pipeline that runs has between one and CMD_MAX stages, each the
      tokens of one `|`-separated piece within the argv limits, and none
      of them is `cd`. */
  lemma RunShape(line: string)
    requires LineAction(line).RunPipeline?
    ensures SplitOutcome(Trimmed(CutAtNewline(line)), CMD_MAX).Some?
    ensures var parts := SplitOutcome(Trimmed(CutAtNewline(line)), CMD_MAX).value;
            var st := LineAction(line).stages;
            1 <= |st| == |parts| <= CMD_MAX &&
            forall j :: 0 <= j < |st| ==>
              st[j] == Tokens(Trimmed(parts[j])) &&
              1 <= |st[j]| <= CMD_ARGV_MAX - 1 &&
              st[j][0] != "cd" &&
              forall k :: 0 <= k < |st[j]| ==> |st[j][k]| < ARG_MAX
  {
    var t := Trimmed(CutAtNewline(line));
    RunStages(line);
    var parts := SplitOutcome(t, CMD_MAX).value;
    SplitShape(t, CMD_MAX);
    StagesShape(parts, LineAction(line).stages);
  }

  /** A line that runs is split, all its stages parse, and none is cd. */
  lemma RunStages(line: string)
    requires LineAction(line).RunPipeline?
    ensures var t := Trimmed(CutAtNewline(line));
            SplitOutcome(t, CMD_MAX).Some? &&
            ParseStages(SplitOutcome(t, CMD_MAX).value) == AllParsed(LineAction(line).stages) &&
            !AnyCd(LineAction(line).stages)
  {
  }

  lemma StagesShape(parts: seq<string>, st: seq<seq<string>>)
    requires ParseStages(parts) == AllParsed(st) && !AnyCd(st)
    ensures |st| == |parts|
    ensures forall j :: 0 <= j < |st| ==>
              st[j] == Tokens(Trimmed(parts[j])) &&
              1 <= |st[j]| <= CMD_ARGV_MAX - 1 &&
              st[j][0] != "cd" &&
              forall k :: 0 <= k < |st[j]| ==> |st[j][k]| < ARG_MAX
  {
    ParseStagesShape(parts);
    forall j | 0 <= j < |st|
      ensures st[j] == Tokens(Trimmed(parts[j])) && 1 <= |st[j]| <= CMD_ARGV_MAX - 1 && st[j][0] != "cd"
      ensures forall k :: 0 <= k < |st[j]| ==> |st[j][k]| < ARG_MAX
    {
      ParsedShape(parts[j], st[j]);
      NoCdStage(st, j);
    }
  }

  lemma NoCdStage(argvs: seq<seq<string>>, j: nat)
    requires !AnyCd(argvs) && j < |argvs| && |argvs[j]| > 0
    ensures argvs[j][0] != "cd"
  {
  }

  /** The shell changes directory only for a line that is a single `cd`
      stage with at most one argument; without one it goes home. */
  lemma ChangeDirShape(line: string)
    requires LineAction(line).ChangeDir?
    ensures SplitOutcome(Trimmed(CutAtNewline(line)), CMD_MAX).Some?
    ensures var parts := SplitOutcome(Trimmed(CutAtNewline(line)), CMD_MAX).value;
            |parts| == 1 && ParseOutcome(parts[0]).Parsed? &&
            var argv := ParseOutcome(parts[0]).argv;
            1 <= |argv| <= 2 && argv[0] == "cd" &&
            LineAction(line).target == (if |argv| == 1 then HomeDir else Dir(argv[1]))
  {
    var t := Trimmed(CutAtNewline(line));
    var parts := SplitOutcome(t, CMD_MAX).value;
    ParseStagesShape(parts);
    var argvs := ParseStages(parts).argvs;
    assert AnyCd(argvs);
    var j :| 0 <= j < |argvs| && |argvs[j]| > 0 && argvs[j][0] == "cd";
    assert j == 0;
  }

  /** The stages of a line with a single stage that parses. */
  lemma OneStage(parts: seq<string>)
    requires |parts| == 1 && ParseOutcome(parts[0]).Parsed?
    ensures var argv := ParseOutcome(parts[0]).argv;
            ParseStages(parts) == AllParsed([argv]) && |argv| >= 1 &&
            (AnyCd([argv]) <==> argv[0] == "cd")
  {
    var argv := ParseOutcome(parts[0]).argv;
    ParsedShape(parts[0], argv);
    assert ParseStages(parts) == ParseFrom(parts, 1, [] + [argv]);
    if argv[0] == "cd" {
      assert [argv][0] == argv;
    }
  }

  /** The directory changes to `target` exactly when the line splits into a
      single stage that parses to `cd` with at most one argument, and
      `target` is that argument, or the home directory without one. */
  lemma ChangeDirIff(line: string, target: CdTarget)
    ensures var t := Trimmed(CutAtNewline(line));
            var so := SplitOutcome(t, CMD_MAX);
            LineAction(line) == ChangeDir(target) <==>
              t != [] && t != EXIT_CMD && so.Some? && |so.value| == 1 &&
              ParseOutcome(so.value[0]).Parsed? &&
              var argv := ParseOutcome(so.value[0]).argv;
              1 <= |argv| <= 2 && argv[0] == "cd" &&
              target == (if |argv| == 1 then HomeDir else Dir(argv[1]))
  {
    var t := Trimmed(CutAtNewline(line));
    var so := SplitOutcome(t, CMD_MAX);
    if LineAction(line) == ChangeDir(target) {
      ChangeDirShape(line);
    }
    if t != [] && t != EXIT_CMD && so.Some? && |so.value| == 1 && ParseOutcome(so.value[0]).Parsed? {
      OneStage(so.value);
    }
  }

  /** `cd` is refused as having too many arguments exactly when the line
      is a single stage that parses to `cd` with two or more arguments. */
  lemma CdTooManyArgsIff(line: string)
    ensures var t := Trimmed(CutAtNewline(line));
            var so := SplitOutcome(t, CMD_MAX);
            LineAction(line) == CdTooManyArgs <==>
              t != [] && t != EXIT_CMD && so.Some? && |so.value| == 1 &&
              ParseOutcome(so.value[0]).Parsed? &&
              var argv := ParseOutcome(so.value[0]).argv;
              |argv| > 2 && argv[0] == "cd"
  {
    var t := Trimmed(CutAtNewline(line));
    var so := SplitOutcome(t, CMD_MAX);
    if LineAction(line) == CdTooManyArgs {
      var parts := so.value;
      ParseStagesShape(parts);
      var argvs := ParseStages(parts).argvs;
      assert AnyCd(argvs);
      var j :| 0 <= j < |argvs| && |argvs[j]| > 0 && argvs[j][0] == "cd";
      assert j == 0;
    }
    if t != [] && t != EXIT_CMD && so.Some? && |so.value| == 1 && ParseOutcome(so.value[0]).Parsed? {
      OneStage(so.value);
    }
  }

  /** `cd` in any stage of a pipeline, first or not, refuses the whole
      line, even `ls | cd`. */
  lemma CdAnywhereRefused(line: string, j: nat)
    requires var t := Trimmed(CutAtNewline(line));
             t != [] && t != EXIT_CMD && SplitOutcome(t, CMD_MAX).Some? &&
             var parts := SplitOutcome(t, CMD_MAX).value;
             |parts| >= 2 && j < |parts| &&
             (forall i :: 0 <= i < |parts| ==> ParseOutcome(parts[i]).Parsed?) &&
             |ParseOutcome(parts[j]).argv| > 0 && ParseOutcome(parts[j]).argv[0] == "cd"
    ensures LineAction(line) == CdInPipeline
  {
    var t := Trimmed(CutAtNewline(line));
    var parts := SplitOutcome(t, CMD_MAX).value;
    ParseStagesShape(parts);
    var argvs := ParseStages(parts).argvs;
    ParsedShape(parts[j], argvs[j]);
    assert AnyCd(argvs);
  }

  // ---------------------------------------------------------------------
  // The line dispatch as the loop body does it

  lemma AnyCdSnoc(argvs: seq<seq<string>>, argv: seq<string>)
    requires |argv| > 0
    ensures AnyCd(argvs + [argv]) <==> AnyCd(argvs) || argv[0] == "cd"
  {
    var a := argvs + [argv];
    if AnyCd(argvs) {
      var j :| 0 <= j < |argvs| && |argvs[j]| > 0 && argvs[j][0] == "cd";
      assert a[j] == argvs[j];
    }
    if AnyCd(a) {
      var j :| 0 <= j < |a| && |a[j]| > 0 && a[j][0] == "cd";
      if j < |argvs| { assert a[j] == argvs[j]; }
    }
    if argv[0] == "cd" {
      assert a[|argvs|] == argv;
    }
  }

  /** The body of exec_local_cmd_loop from the newline cut to the point
      where the stages are forked: the `has_cd` flag is 1 once any stage
      runs `cd` and -1 once a stage fails to parse. */
  method ProcessLine(line: string) returns (a: Action)
    requires NoNul(line) && |line| < SIZE_MAX
    ensures a == LineAction(line)
  {
    var cut := CutAtNewline(line);
    var lo, hi := TrimWhitespace(cut);
    var trimmed := cut[lo..hi];
    if |trimmed| == 0 {
      return WarnNoCommand;
    }
    if trimmed == EXIT_CMD {
      return Exit;
    }
    assert NoNul(trimmed) by {
      assert forall k :: 0 <= k < |trimmed| ==> trimmed[k] == line[lo + k];
    }
    var numCommands, parts := SplitCommands(trimmed, CMD_MAX);
    if numCommands < 0 {
      return SplitError;
    } else if numCommands == 0 {
      return WarnNoCommand;
    }
    SplitPartsFrom(trimmed, CMD_MAX);
    assert LineAction(line) == StagesAction(ParseStages(parts));
    var hasCd, i, stages := ParseEach(parts);
    if hasCd == -1 {
      return ParseError(i);
    }
    if hasCd == 1 {
      if numCommands > 1 {
        return CdInPipeline;
      } else {
        if |stages[0]| > 2 {
          return CdTooManyArgs;
        } else {
          return ChangeDir(if |stages[0]| == 1 then HomeDir else Dir(stages[0][1]));
        }
      }
    }
    return RunPipeline(stages);
  }

  /** The parse loop of exec_local_cmd_loop: parse_cmd_line on each stage
      in turn, with `has_cd` set to 1 by a `cd` stage and to -1, ending the
      loop, by a stage that fails to parse. */
  method ParseEach(parts: seq<string>) returns (hasCd: int, i: nat, stages: seq<seq<string>>)
    requires forall j :: 0 <= j < |parts| ==> NoNul(parts[j]) && |parts[j]| < SIZE_MAX
    ensures hasCd == -1 ==> ParseStages(parts) == FailedAt(i)
    ensures hasCd != -1 ==> ParseStages(parts) == AllParsed(stages) && (hasCd == 1 <==> AnyCd(stages))
    ensures hasCd != -1 ==> |stages| == |parts| && forall j :: 0 <= j < |stages| ==> |stages[j]| >= 1
    ensures hasCd == -1 || hasCd == 0 || hasCd == 1
  {
    hasCd := 0;
    stages := [];
    i := 0;
    while i < |parts|
      invariant 0 <= i <= |parts| && |stages| == i
      invariant ParseFrom(parts, i, stages) == ParseStages(parts)
      invariant hasCd == 0 || hasCd == 1
      invariant hasCd == 1 <==> AnyCd(stages)
      invariant forall j :: 0 <= j < i ==> |stages[j]| >= 1
    {
      var r := ParseCmdLine(parts[i]);
      if !r.Parsed? {
        hasCd := -1;
        return;
      }
      AnyCdSnoc(stages, r.argv);
      if r.argv[0] == "cd" {
        hasCd := 1;
      }
      stages := stages + [r.argv];
      i := i + 1;
    }
  }
}
