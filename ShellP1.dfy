/** build_cmd_list in 3-ShellP1/starter/dshlib.c: the first-stage command
    list. The line is cut into commands with strtok_r on the pipe string, so
    quotes mean nothing and runs of pipes collapse; each command is trimmed,
    its first space/tab token is the executable and the remaining tokens,
    joined by single spaces, are its argument string. */
module ShellP1 {
  import opened Limits
  import opened Text

  datatype Command = Command(exe: string, args: string)

  /** command_list_t: `num` entries of `commands` are filled in. */
  datatype CmdList = CmdList(num: nat, commands: seq<Command>)

  datatype Status = Ok | ErrTooManyCommands | ErrCmdOrArgsTooBig

  /** The outcome: the status and the commands completed before it. */
  datatype Built = Built(rc: Status, cmds: seq<Command>)

  /** Words joined by exactly one space, as the strcat loop builds them. */
  function JoinSp(ws: seq<string>): string
  {
    if ws == [] then []
    else if |ws| == 1 then ws[0]
    else JoinSp(ws[..|ws| - 1]) + " " + ws[|ws| - 1]
  }

  /** The commands of a line: its strtok_r segments on the pipe string. */
  function Segments(cmdLine: string): seq<string>
  {
    Fields(cmdLine, {PIPE_STRING[0]})
  }

  function BuildFrom(parts: seq<string>, done: seq<Command>): Built
  {
    if parts == [] then Built(Ok, done)
    else
      var t := Trimmed(parts[0]);
      if t == [] then Built(ErrCmdOrArgsTooBig, done)
      else if |done| >= CMD_MAX then Built(ErrTooManyCommands, done)
      else
        var toks := Fields(t, Blank);
        if toks == [] then Built(ErrCmdOrArgsTooBig, done)
        else if |toks[0]| >= EXE_MAX then Built(ErrCmdOrArgsTooBig, done)
        else if |JoinSp(toks[1..])| >= ARG_MAX then Built(ErrCmdOrArgsTooBig, done)
        else BuildFrom(parts[1..], done + [Command(toks[0], JoinSp(toks[1..]))])
  }

  function BuildOutcome(cmdLine: string): Built
  {
    BuildFrom(Segments(cmdLine), [])
  }

  // ---------------------------------------------------------------------
  // The argument string

  lemma JoinSpSnoc(ws: seq<string>, w: string)
    ensures JoinSp(ws + [w]) == if ws == [] then w else JoinSp(ws) + " " + w
  {
    assert (ws + [w])[..|ws|] == ws;
  }

  lemma {:induction false} JoinSpGrows(a: seq<string>, b: seq<string>)
    ensures |JoinSp(a)| <= |JoinSp(a + b)|
    decreases |b|
  {
    if b == [] {
      assert a + b == a;
    } else {
      var b', w := b[..|b| - 1], b[|b| - 1];
      assert a + b == (a + b') + [w];
      JoinSpSnoc(a + b', w);
      assert |JoinSp(a + b)| >= |JoinSp(a + b')|;
      JoinSpGrows(a, b');
    }
  }

  /** Reading the argument string back with strtok_r gives the words back. */
  lemma {:induction false} FieldsOfJoinSp(ws: seq<string>)
    requires AreFields(ws, Blank)
    ensures Fields(JoinSp(ws), Blank) == ws
    decreases |ws|
  {
    if ws != [] {
      var init, w := ws[..|ws| - 1], ws[|ws| - 1];
      assert ws == init + [w];
      JoinSpSnoc(init, w);
      RunLenAt(w, |w|, Blank);
      assert w[..|w|] == w && w[|w|..] == [];
      if init != [] {
        FieldsOfJoinSp(init);
        assert JoinSp(init) + " " + w == JoinSp(init) + [' '] + w;
        FieldsSplit(JoinSp(init), ' ', w, Blank);
      }
    }
  }

  // ---------------------------------------------------------------------
  // Properties

  /** `c` is the command build_cmd_list makes of segment `part`: its first
      token and the joined rest, within the EXE_MAX and ARG_MAX bounds. */
  predicate CmdFor(part: string, c: Command)
  {
    var toks := Fields(Trimmed(part), Blank);
    toks != [] && c == Command(toks[0], JoinSp(toks[1..])) &&
    |c.exe| < EXE_MAX && |c.args| < ARG_MAX
  }

  lemma {:induction false} BuildFromShape(parts: seq<string>, done: seq<Command>)
    requires |done| <= CMD_MAX
    ensures var b := BuildFrom(parts, done);
            done <= b.cmds && |b.cmds| <= |done| + |parts| && |b.cmds| <= CMD_MAX &&
            (b.rc == Ok ==> |b.cmds| == |done| + |parts|) &&
            forall k :: |done| <= k < |b.cmds| ==> CmdFor(parts[k - |done|], b.cmds[k])
    decreases |parts|
  {
    if parts != [] && |done| < CMD_MAX && Buildable(parts[0]) {
      var toks := Fields(Trimmed(parts[0]), Blank);
      var c := Command(toks[0], JoinSp(toks[1..]));
      assert BuildFrom(parts, done) == BuildFrom(parts[1..], done + [c]);
      BuildFromShape(parts[1..], done + [c]);
      ShiftCmds(parts, done, c, BuildFrom(parts[1..], done + [c]).cmds);
    } else {
      assert BuildFrom(parts, done).cmds == done;
    }
  }

  /** The commands built after the first segment line up with the
      remaining segments. */
  lemma ShiftCmds(parts: seq<string>, done: seq<Command>, c: Command, cmds: seq<Command>)
    requires parts != [] && CmdFor(parts[0], c) && done + [c] <= cmds
    requires |cmds| <= |done| + |parts|
    requires forall k :: |done| + 1 <= k < |cmds| ==> CmdFor(parts[1..][k - (|done| + 1)], cmds[k])
    ensures forall k :: |done| <= k < |cmds| ==> CmdFor(parts[k - |done|], cmds[k])
  {
    forall k | |done| <= k < |cmds| ensures CmdFor(parts[k - |done|], cmds[k]) {
      if k > |done| {
        assert parts[1..][k - (|done| + 1)] == parts[k - |done|];
      } else {
        assert cmds[k] == (done + [c])[k] == c;
      }
    }
  }

  /** Reading a command's argument string back gives the tokens after
      the executable. */
  lemma CmdFields(part: string, c: Command)
    requires CmdFor(part, c)
    ensures Fields(Trimmed(part), Blank) == [c.exe] + Fields(c.args, Blank)
  {
    var toks := Fields(Trimmed(part), Blank);
    FieldsShape(Trimmed(part), Blank);
    assert AreFields(toks[1..], Blank) by {
      assert forall i :: 0 <= i < |toks| - 1 ==> toks[1..][i] == toks[i + 1];
    }
    FieldsOfJoinSp(toks[1..]);
    assert toks == [toks[0]] + toks[1..];
  }

  /** On success there is one command per pipe segment, in order, at most
      CMD_MAX of them, each the first token and the joined rest of its
      trimmed segment, within the EXE_MAX and ARG_MAX bounds. */
  lemma BuildShape(cmdLine: string)
    requires BuildOutcome(cmdLine).rc == Ok
    ensures var cmds := BuildOutcome(cmdLine).cmds;
            var segs := Segments(cmdLine);
            |cmds| == |segs| <= CMD_MAX &&
            forall k :: 0 <= k < |cmds| ==>
              Fields(Trimmed(segs[k]), Blank) == [cmds[k].exe] + Fields(cmds[k].args, Blank) &&
              |cmds[k].exe| < EXE_MAX && |cmds[k].args| < ARG_MAX
  {
    var segs := Segments(cmdLine);
    var cmds := BuildOutcome(cmdLine).cmds;
    BuildFromShape(segs, []);
    forall k | 0 <= k < |cmds|
      ensures Fields(Trimmed(segs[k]), Blank) == [cmds[k].exe] + Fields(cmds[k].args, Blank)
      ensures |cmds[k].exe| < EXE_MAX && |cmds[k].args| < ARG_MAX
    {
      assert CmdFor(segs[k - 0], cmds[k]);
      CmdFields(segs[k], cmds[k]);
    }
  }

  /** A segment build_cmd_list accepts: it trims to something, its first
      token is shorter than EXE_MAX and its joined remaining tokens are
      shorter than ARG_MAX. */
  predicate Buildable(part: string)
  {
    var toks := Fields(Trimmed(part), Blank);
    Trimmed(part) != [] && toks != [] &&
    |toks[0]| < EXE_MAX && |JoinSp(toks[1..])| < ARG_MAX
  }

  /** The index of the first segment build_cmd_list refuses, or the number
      of segments when it refuses none. */
  function FirstUnbuildable(parts: seq<string>): (r: nat)
    ensures r <= |parts| && (r < |parts| ==> !Buildable(parts[r]))
    ensures forall j :: 0 <= j < r ==> Buildable(parts[j])
  {
    if parts == [] || !Buildable(parts[0]) then 0
    else 1 + FirstUnbuildable(parts[1..])
  }

  /** Which status BuildFrom returns, in terms of the first refused
      segment `k` and the room `m` left below CMD_MAX: a blank segment is
      refused as too big even when the list is already full. */
  lemma {:induction false} BuildFromStatus(parts: seq<string>, done: seq<Command>)
    requires |done| <= CMD_MAX
    ensures var b, k, m := BuildFrom(parts, done), FirstUnbuildable(parts), CMD_MAX - |done|;
            (b.rc == Ok <==> k == |parts| && |parts| <= m) &&
            (b.rc == ErrTooManyCommands <==> m < |parts| && m <= k && Trimmed(parts[m]) != []) &&
            (b.rc == ErrCmdOrArgsTooBig <==> k < |parts| && (k < m || (k == m && Trimmed(parts[k]) == []))) &&
            |b.cmds| == |done| + (if k < m then k else m)
    decreases |parts|
  {
    if parts != [] && Trimmed(parts[0]) != [] && |done| < CMD_MAX && Buildable(parts[0]) {
      var toks := Fields(Trimmed(parts[0]), Blank);
      var c := Command(toks[0], JoinSp(toks[1..]));
      BuildFromStatus(parts[1..], done + [c]);
      var m := CMD_MAX - |done|;
      assert m - 1 < |parts| - 1 ==> parts[1..][m - 1] == parts[m];
      var k' := FirstUnbuildable(parts[1..]);
      assert k' < |parts| - 1 ==> parts[1..][k'] == parts[k' + 1];
    }
  }

  /** build_cmd_list succeeds exactly when there are at most CMD_MAX
      segments and each of them is buildable. */
  lemma BuildOkIff(cmdLine: string)
    ensures var segs := Segments(cmdLine);
            BuildOutcome(cmdLine).rc == Ok <==>
              |segs| <= CMD_MAX && forall k :: 0 <= k < |segs| ==> Buildable(segs[k])
  {
    BuildFromStatus(Segments(cmdLine), []);
  }

  /** When the first `m` segments are all buildable, the first refused one
      comes no earlier than `m`. */
  lemma BuildablePrefix(parts: seq<string>, m: nat)
    requires m <= |parts| && forall j :: 0 <= j < m ==> Buildable(parts[j])
    ensures FirstUnbuildable(parts) >= m
  {
  }

  /** ERR_TOO_MANY_COMMANDS names segment CMD_MAX: it exists, does not trim
      to nothing, and every segment before it is buildable; the CMD_MAX
      commands before it are kept. */
  lemma BuildTooManyIff(cmdLine: string)
    ensures var segs, b := Segments(cmdLine), BuildOutcome(cmdLine);
            (b.rc == ErrTooManyCommands <==>
              CMD_MAX < |segs| && Trimmed(segs[CMD_MAX]) != [] &&
              forall j :: 0 <= j < CMD_MAX ==> Buildable(segs[j])) &&
            (b.rc == ErrTooManyCommands ==> |b.cmds| == CMD_MAX)
  {
    var segs, b := Segments(cmdLine), BuildOutcome(cmdLine);
    var k := FirstUnbuildable(segs);
    BuildFromStatus(segs, []);
    assert b == BuildFrom(segs, []);
    if b.rc == ErrTooManyCommands {
      assert CMD_MAX <= k;
    }
    if CMD_MAX < |segs| && forall j :: 0 <= j < CMD_MAX ==> Buildable(segs[j]) {
      BuildablePrefix(segs, CMD_MAX);
    }
  }

  /** ERR_CMD_OR_ARGS_TOO_BIG names the first refused segment `k`: every
      segment before it is buildable and it lies below CMD_MAX, or at
      CMD_MAX when it trims to nothing; the `k` commands before it are kept. */
  lemma BuildTooBigIff(cmdLine: string, k: nat)
    requires k < |Segments(cmdLine)|
    requires !Buildable(Segments(cmdLine)[k]) && forall j :: 0 <= j < k ==> Buildable(Segments(cmdLine)[j])
    ensures var segs, b := Segments(cmdLine), BuildOutcome(cmdLine);
            (b.rc == ErrCmdOrArgsTooBig <==> k < CMD_MAX || (k == CMD_MAX && Trimmed(segs[k]) == [])) &&
            (b.rc == ErrCmdOrArgsTooBig ==> |b.cmds| == k)
  {
    var segs := Segments(cmdLine);
    BuildFromStatus(segs, []);
    assert FirstUnbuildable(segs) == k;
  }

  /** A segment that trims to nothing is reported as too big; the
      executable token always exists for a segment that does not. */
  lemma ExeAlwaysFound(part: string)
    ensures Trimmed(part) == [] <==> Fields(Trimmed(part), Blank) == []
  {
    var t := Trimmed(part);
    TrimmedProperties(part);
    if t != [] {
      assert t[0] !in Blank;
    }
  }

  /** A pipe splits wherever it stands, inside quotes or not: the segments
      of `x | y` are those of `x` followed by those of `y`. */
  lemma PipeAlwaysSplits(x: string, y: string)
    ensures Segments(x + PIPE_STRING + y) == Segments(x) + Segments(y)
  {
    assert x + PIPE_STRING + y == x + [PIPE_STRING[0]] + y;
    FieldsSplit(x, PIPE_STRING[0], y, {PIPE_STRING[0]});
  }

  /** A second pipe next to the first adds no command. */
  lemma DoublePipeCollapses(x: string, y: string)
    ensures BuildOutcome(x + PIPE_STRING + PIPE_STRING + y) == BuildOutcome(x + PIPE_STRING + y)
  {
    PipeAlwaysSplits(x, PIPE_STRING + y);
    PipeAlwaysSplits(x, y);
    PipeAlwaysSplits([], y);
    assert [] + PIPE_STRING + y == PIPE_STRING + y;
    assert x + PIPE_STRING + PIPE_STRING + y == x + PIPE_STRING + (PIPE_STRING + y);
  }

  // ---------------------------------------------------------------------
  // The implementation

  /** What the args loop keeps: the tokens taken so far, `seen`, are a
      prefix of all of them, and args_buf is their join. */
  ghost predicate ArgsInv(t: string, save: nat, p: nat, seen: seq<string>, argsBuf: string)
  {
    save <= p <= |t| &&
    Fields(t[save..], Blank) == seen + Fields(t[p..], Blank) &&
    argsBuf == JoinSp(seen) && |argsBuf| < ARG_MAX
  }

  lemma ArgsDone(t: string, save: nat, p: nat, seen: seq<string>, argsBuf: string)
    requires ArgsInv(t, save, p, seen, argsBuf) && Fields(t[p..], Blank) == []
    ensures argsBuf == JoinSp(Fields(t[save..], Blank)) && |argsBuf| < ARG_MAX
  {
    assert seen + [] == seen;
  }

  lemma ArgsStep(t: string, save: nat, p: nat, seen: seq<string>, argsBuf: string, start: nat, end: nat, next: nat)
    requires ArgsInv(t, save, p, seen, argsBuf)
    requires p <= start < end <= next <= |t|
    requires Fields(t[p..], Blank) == [t[start..end]] + Fields(t[next..], Blank)
    ensures var ext := if seen == [] then t[start..end] else argsBuf + " " + t[start..end];
            ext == JoinSp(seen + [t[start..end]]) &&
            (|ext| < ARG_MAX ==> ArgsInv(t, save, next, seen + [t[start..end]], ext)) &&
            (|ext| >= ARG_MAX ==> |JoinSp(Fields(t[save..], Blank))| >= ARG_MAX)
  {
    var token := t[start..end];
    JoinSpSnoc(seen, token);
    MovePast(seen, token, Fields(t[next..], Blank));
    JoinSpGrows(seen + [token], Fields(t[next..], Blank));
  }

  /** Taking one token moves it from the fields still ahead to those seen. */
  lemma MovePast(seen: seq<string>, token: string, ahead: seq<string>)
    ensures seen + ([token] + ahead) == (seen + [token]) + ahead
  {
  }

  /** The args loop: later strtok_r calls append each token to args_buf, a
      space before all but the first, failing once the length would reach
      ARG_MAX. */
  method JoinArgs(t: string, save: nat) returns (ok: bool, args: string)
    requires save <= |t|
    ensures ok <==> |JoinSp(Fields(t[save..], Blank))| < ARG_MAX
    ensures ok ==> args == JoinSp(Fields(t[save..], Blank))
  {
    var argsBuf: string := [];
    var argsLen := 0;
    var firstArg := true;
    var p := save;
    ghost var seen: seq<string> := [];
    while true
      invariant ArgsInv(t, save, p, seen, argsBuf)
      invariant argsLen == |argsBuf| && (firstArg <==> seen == [])
      decreases |t| - p
    {
      var found, start, end, next := StrTokR(t, p, Blank);
      if !found {
        ArgsDone(t, save, p, seen, argsBuf);
        return true, argsBuf;
      }
      ArgsStep(t, save, p, seen, argsBuf, start, end, next);
      var fits;
      fits, argsBuf, argsLen := AppendArg(argsBuf, argsLen, firstArg, t[start..end]);
      if !fits {
        return false, argsBuf;
      }
      firstArg := false;
      seen := seen + [t[start..end]];
      p := next;
    }
  }

  /** One token of the args loop: the length check, then the separating
      space unless it is the first argument, then the token. */
  method AppendArg(argsBuf: string, argsLen: int, firstArg: bool, token: string)
    returns (fits: bool, argsBuf': string, argsLen': int)
    requires argsLen == |argsBuf| && (firstArg ==> argsBuf == [])
    ensures var ext := if firstArg then token else argsBuf + " " + token;
            (fits <==> |ext| < ARG_MAX) && (fits ==> argsBuf' == ext && argsLen' == |ext|)
    ensures !fits ==> argsBuf' == argsBuf
  {
    argsBuf', argsLen' := argsBuf, argsLen;
    var tokenLen := |token|;
    if argsLen + tokenLen + (if firstArg then 0 else 1) >= ARG_MAX {
      return false, argsBuf', argsLen';
    }
    if !firstArg {
      argsBuf' := argsBuf' + " ";
      argsLen' := argsLen' + 1;
    }
    argsBuf' := argsBuf' + token;
    argsLen' := argsLen' + tokenLen;
    fits := true;
  }

  /** build_cmd_list: the strtok_r loop over the pipe segments, each
      trimmed, checked, split into executable and arguments, and appended
      to the zeroed command list. */
  method BuildCmdList(cmdLine: string) returns (rc: Status, clist: CmdList)
    requires NoNul(cmdLine)
    ensures rc == BuildOutcome(cmdLine).rc
    ensures clist.commands == BuildOutcome(cmdLine).cmds && clist.num == |clist.commands|
  {
    clist := CmdList(0, []);
    var delim := {PIPE_STRING[0]};
    var save := 0;
    while true
      invariant save <= |cmdLine| && clist.num == |clist.commands|
      invariant BuildFrom(Fields(cmdLine[save..], delim), clist.commands) == BuildOutcome(cmdLine)
      decreases |cmdLine| - save
    {
      var found, start, end, next := StrTokR(cmdLine, save, delim);
      if !found {
        return Ok, clist;
      }
      var part := cmdLine[start..end];
      var lo, hi := TrimWhitespace(part);
      var trimmed := part[lo..hi];
      if |trimmed| == 0 {
        return ErrCmdOrArgsTooBig, clist;
      }
      if clist.num >= CMD_MAX {
        return ErrTooManyCommands, clist;
      }
      var exeFound, exeStart, exeEnd, argsFrom := StrTokR(trimmed, 0, Blank);
      if !exeFound {
        return ErrCmdOrArgsTooBig, clist;
      }
      var exe := trimmed[exeStart..exeEnd];
      if |exe| >= EXE_MAX {
        return ErrCmdOrArgsTooBig, clist;
      }
      var argsOk, args := JoinArgs(trimmed, argsFrom);
      if !argsOk {
        return ErrCmdOrArgsTooBig, clist;
      }
      assert trimmed[0..] == trimmed;
      clist := CmdList(clist.num + 1, clist.commands + [Command(exe, args)]);
      save := next;
    }
  }
}
