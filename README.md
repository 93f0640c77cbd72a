# Verified model of the cs283 shells, buffer tool and student database

This project models five C exercises from a systems-programming course in
Dafny and proves what their code promises:

- **6-RShell**, the pipeline shell in `6-RShell/starter/dshlib.c`. Modelled:
  - `trim_whitespace`;
  - the quote-aware `split_commands`;
  - the in-place tokenizer `parse_cmd_line`;
  - the per-line dispatch of `exec_local_cmd_loop`, including its `cd` rule;
  - the parent's pipe-descriptor and `waitpid` bookkeeping in the stage loop.
- **4-ShellP2**, the single-command shell in `4-ShellP2/starter/dshlib.c`.
  Its `parse_cmd_line` is the same text as 6-RShell's and is modelled once
  (module `Tokenizer`). Modelled: its cd rule and how it classifies error
  codes.
- **3-ShellP1**, the command-list builder `build_cmd_list` in
  `3-ShellP1/starter/dshlib.c`. It works with `strtok_r` on the pipe string,
  then on space and tab.
- **stringfun**, in `week1/1-C-Refresher/stringfun.c`:
  - `setup_buff` collapses blank runs and pads the 50-byte buffer with dots;
  - `reverse_string` and `word_print` are modelled as the text they emit.
- **StudentDB**, in `2-StudentDB/starter/sdbsc.c`. It is a file of
  fixed-size records, where the record of student `id` lives at slot `id`.
  Modelled: `validate_range`, `get_student`, `add_student`, `del_student`,
  `count_db_records`, `compress_db` and truncation through `open_db`.

Modelling choices:

- C strings are `string` values that contain no NUL. The terminator itself is
  implicit.
- In-place edits are modelled as the new value of the buffer: `memmove`
  deletions, the NUL written by `trim_whitespace`, and argv entries as
  offsets into the buffer.
- The header constants are left abstract. These are `CMD_MAX`,
  `CMD_ARGV_MAX`, `ARG_MAX`, `EXE_MAX`, `EXIT_CMD`, the student id and GPA
  bounds, the name field sizes and the record size. Every result therefore
  holds for any value of its declared type:
  - `CMD_MAX`, `ARG_MAX` and `EXE_MAX` are positive, and `CMD_ARGV_MAX` is at least 2 (argv[0] and the NULL slot);
  - `FNAME_SZ`, `LNAME_SZ` and `STUDENT_RECORD_SIZE` are positive;
  - `MIN_STD_ID` is positive. Id 0 marks an empty slot, so a validated id is never 0 and its seek offset is never negative.
  `MAX_STD_ID`, the GPA bounds and `EXIT_CMD` are unconstrained.
- `PIPE_STRING` is `"|"` and `BUFFER_SZ` is 50.

Each imperative C routine is a Dafny `method` with the same loops. It is
proved against a reference function, for example:

| method | reference function |
|---|---|
| `Tokenizer.ScanInPlace` | `Tokenizer.Tokens` |
| `Splitter.SplitCommands` | `Splitter.SplitOutcome` |
| `ShellP1.BuildCmdList` | `ShellP1.BuildOutcome` |
| `StringFun.SetupBuff` | `StringFun.Collapse` |
| `StringFun.WordPrint` | `Text.Fields` |

The properties the source promises are then proved as lemmas about those
functions.

Modules:

| module | what it holds |
|---|---|
| `Limits` | the constants |
| `Text` | isspace, trim, newline cut, `strtok_r` fields |
| `Tokenizer` | `parse_cmd_line` |
| `Splitter` | `split_commands` |
| `RShell` | the 6-RShell line dispatch |
| `Pipeline` | the 6-RShell stage loop |
| `ShellP2` | the 4-ShellP2 line dispatch |
| `ShellP1` | `build_cmd_list` |
| `StringFun` | the stringfun routines |
| `StudentDb` | the student database |

## Model

| member | source | states |
|---|---|---|
| Text.TrimWhitespace | 6-RShell/starter/dshlib.c:27-35 | returns bounds `lo <= hi` so that `s[lo..hi]` is the trimmed string, everything before `lo` and after `hi` is whitespace, and the kept ends are not whitespace |
| Text.TrimmedProperties | 4-ShellP2/starter/dshlib.c:24-32 | the trimmed string is a contiguous slice after the leading spaces, starts and ends with a non-space, is empty exactly when the input is all whitespace, and trimming twice changes nothing |
| Text.TrimmedEmptyIff | 3-ShellP1/starter/dshlib.c:50-63 | trimming gives the empty string if and only if every character is one of the six whitespace characters |
| Text.TrimmedIsSlice | 6-RShell/starter/dshlib.c:29-33 | the trimmed string is the input slice starting after the leading whitespace |
| Text.TrimmedAt | 6-RShell/starter/dshlib.c:29-33 | any bounds with whitespace outside and non-space ends are exactly the trimmed string |
| Text.TrimmedSkipsLeading | 6-RShell/starter/dshlib.c:29 | leading whitespace does not change the trimmed result |
| Text.TrimLeftShape | 6-RShell/starter/dshlib.c:29 | the left trim drops an all-whitespace prefix and keeps a suffix |
| Text.TrimRightShape | 6-RShell/starter/dshlib.c:31-33 | the right trim drops an all-whitespace suffix and keeps a prefix |
| Text.CutAtNewline | 6-RShell/starter/dshlib.c:106 | `line[strcspn(line, "\n")] = '\0'` keeps the prefix before the first newline, which holds no newline |
| Text.StrTokR | 3-ShellP1/starter/dshlib.c:92-96 | one `strtok_r` call from the save position: no token exactly when only delimiters remain, otherwise the token is the first field of the rest and the save position moves past it |
| Text.SkipDelims | 3-ShellP1/starter/dshlib.c:92 | skips the delimiters in front of the next token and stops at a non-delimiter or the end |
| Text.TokenEnd | 3-ShellP1/starter/dshlib.c:92 | finds the end of a token: the next delimiter, or the end of the string |
| Text.FieldsShape | 3-ShellP1/starter/dshlib.c:74 | every field `strtok_r` hands out is non-empty and free of delimiters |
| Text.FieldsSplit | 3-ShellP1/starter/dshlib.c:74 | a delimiter splits the fields: those of `x + [d] + y` are those of `x` followed by those of `y` |
| Text.FieldAt | 3-ShellP1/starter/dshlib.c:111 | a delimiter-free run after delimiters is the next field handed out |
| Text.OnlyDelims | 3-ShellP1/starter/dshlib.c:111 | nothing but delimiters left means no further token |
| Text.FieldsAround | 3-ShellP1/starter/dshlib.c:111 | a run between delimiters contributes exactly one field between the fields on either side |
| Tokenizer.ParseCmdLine | 6-RShell/starter/dshlib.c:37-91 | parse_cmd_line returns what the reference outcome gives: `WARN_NO_CMDS` for a blank line, `ERR_TOO_MANY_COMMANDS` past `CMD_ARGV_MAX-1` arguments, `ERR_CMD_OR_ARGS_TOO_BIG` for an argument of `ARG_MAX` or more, otherwise `1 <= argc <= CMD_ARGV_MAX-1` arguments each shorter than `ARG_MAX` |
| Tokenizer.ScanInPlace | 6-RShell/starter/dshlib.c:44-78 | the memmove loop reports too many arguments exactly when the reference tokenizer yields more than `CMD_ARGV_MAX-1`; otherwise each argv offset points at a NUL-terminated argument equal to the reference token |
| Tokenizer.EndArgument | 6-RShell/starter/dshlib.c:65-70 | an unquoted space becomes the NUL ending the current argument, the following spaces are deleted, and the next argument starts right after it |
| Tokenizer.SqueezeSpaces | 6-RShell/starter/dshlib.c:67-70 | the inner memmove loop keeps the buffer up to the NUL and deletes exactly the run of spaces after it |
| Tokenizer.ArgStrings | 6-RShell/starter/dshlib.c:83-88 | the strlen check fails exactly when some argument is `ARG_MAX` or longer, and otherwise yields the arguments the offsets point at |
| Tokenizer.QuoteStep | 6-RShell/starter/dshlib.c:53-64 | deleting an opening or the matching closing quote with memmove keeps the loop invariant with the quote state flipped |
| Tokenizer.KeepStep | 6-RShell/starter/dshlib.c:52-78 | any other character (a tab, the other quote kind inside a quote, a space inside a quote) stays in the current argument |
| Tokenizer.SpaceStep | 6-RShell/starter/dshlib.c:65-72 | after the NUL and the squeeze the buffer holds the finished arguments NUL-separated and argv gains the next start offset |
| Tokenizer.TooManyStep | 6-RShell/starter/dshlib.c:71-76 | reaching the argv limit at a space means the line has more tokens than fit |
| Tokenizer.ScanDone | 6-RShell/starter/dshlib.c:80-81 | at the end of the loop argc is the number of tokens and each argv entry reads back as its token |
| Tokenizer.SizeDecInc | 6-RShell/starter/dshlib.c:56-58 | the `i--` at `i == 0` wraps `size_t` to SIZE_MAX and the loop's `i++` wraps it back to 0 |
| Tokenizer.ParsedShape | 6-RShell/starter/dshlib.c:37-91 | a successful parse gives the tokens of the trimmed line, between 1 and `CMD_ARGV_MAX-1` of them, each shorter than `ARG_MAX` |
| Tokenizer.TokensNonEmpty | 6-RShell/starter/dshlib.c:50 | argv[0] is always set, so there is at least one argument |
| Tokenizer.TokensOfPlainWords | 6-RShell/starter/dshlib.c:65-77 | only a plain space separates, a run of spaces is one separator, and tabs or other characters stay inside tokens: space-separated words come back exactly |
| Tokenizer.TokensOfQuotedWords | 6-RShell/starter/dshlib.c:53-64 | words each wrapped in a quote of either kind that does not occur inside it lose their quotes and keep their contents literally, spaces and the other quote kind included; an empty pair is an empty argument |
| Tokenizer.ScanQuotedWord | 6-RShell/starter/dshlib.c:53-64 | a quote opens, the same quote character closes, and everything between is appended to the current argument |
| Tokenizer.SingleQuotedExample | 6-RShell/starter/dshlib.c:53-64 | `echo 'say "hi' x` gives `[echo, say "hi, x]`: a double quote inside single quotes is literal |
| Tokenizer.UnterminatedQuote | 6-RShell/starter/dshlib.c:53-58 | an unterminated quote runs to the end of the line without error |
| Tokenizer.ThreeArgs | 6-RShell/starter/dshlib.c:52-78 | a word, a phrase quoted with either quote kind and a word give exactly three arguments |
| Tokenizer.TokensExample | 6-RShell/starter/dshlib.c:52-78 | `a "b c" d` gives `[a, b c, d]` |
| Tokenizer.ScanGrows | 6-RShell/starter/dshlib.c:52-78 | the reference scan only appends to the arguments already finished |
| Tokenizer.DropSpacesSuffix | 6-RShell/starter/dshlib.c:67-70 | deleting leading spaces leaves a suffix, and what was deleted was all spaces |
| Splitter.SplitCommands | 6-RShell/starter/dshlib.c:233-279 | split_commands returns -1 exactly when the reference splitter fails, and otherwise the count and the trimmed stages it gives |
| Splitter.CutStage | 6-RShell/starter/dshlib.c:249-265 | at an unquoted pipe the stage before it is cut and trimmed, and the spaces after the pipe are skipped |
| Splitter.LastStage | 6-RShell/starter/dshlib.c:269-278 | after the loop: -1 at `max_parts`, the trimmed last stage is added, or a blank last stage is dropped, and a lone blank stage is -1 |
| Splitter.SkipSpaces | 6-RShell/starter/dshlib.c:264 | skips the whitespace after the pipe up to a non-space or the end |
| Splitter.SplitShape | 6-RShell/starter/dshlib.c:240-278 | a successful split has between 1 and `max_parts` stages, each non-empty and already trimmed |
| Splitter.PartsAreTrimmedSegments | 6-RShell/starter/dshlib.c:240-278 | the stages are the raw segments trimmed, in left-to-right order |
| Splitter.SegmentsJoin | 6-RShell/starter/dshlib.c:240-267 | joining the raw segments with `|` gives the line back, so no character is lost or reordered and the quotes are kept |
| Splitter.NoPipeOneSegment | 6-RShell/starter/dshlib.c:240-278 | a line is one segment if and only if every `|` in it stands inside an open quote |
| Splitter.SegScanNoPipe | 6-RShell/starter/dshlib.c:240-267 | with no unquoted `|` ahead the rest of the line is appended to the current segment |
| Splitter.SegScanPipeSplits | 6-RShell/starter/dshlib.c:249-265 | an unquoted `|` ahead always closes a segment, so there are at least two |
| Splitter.RawSegmentsOfJoin | 6-RShell/starter/dshlib.c:240-267 | the converse of SegmentsJoin: pieces free of `|` and quote characters joined with `|` split back into exactly those pieces |
| Splitter.StagesOfJoin | 6-RShell/starter/dshlib.c:240-278 | such pieces, each non-blank and at most `max_parts` of them, split successfully into the pieces trimmed |
| Splitter.QuotedPipeLiteral | 6-RShell/starter/dshlib.c:241-249 | a `|` inside double quotes does not split and the quotes stay in the stage |
| Splitter.TrailingPipeDropped | 6-RShell/starter/dshlib.c:273-275 | a trailing `|` is silently accepted: the blank last stage is dropped |
| Splitter.EmptyMiddleStage | 6-RShell/starter/dshlib.c:258-261 | `x || y` fails with -1, because the stage between the pipes is blank |
| Splitter.SplitFailsAtPipe | 6-RShell/starter/dshlib.c:250 | a pipe met once `max_parts` stages are stored means -1 |
| Splitter.SplitBlankAtPipe | 6-RShell/starter/dshlib.c:258-261 | a blank stage before a pipe means -1 |
| Splitter.SplitAtEnd | 6-RShell/starter/dshlib.c:269-278 | at the end of the line the three outcomes (too many, blank last stage, a last stage added) match the reference |
| Splitter.SplitPartsFrom | 6-RShell/starter/dshlib.c:252-257 | every stage is a NUL-free string no longer than the line |
| Splitter.SplitStepKeep | 6-RShell/starter/dshlib.c:241-248 | a quote character updates the quote state (the same character closes, the other is literal) and stays in the stage |
| Splitter.SplitStepPipe | 6-RShell/starter/dshlib.c:249-265 | an unquoted pipe closes the stage, and skipping the whitespace after it does not change the next trimmed stage |
| RShell.ProcessLine | 6-RShell/starter/dshlib.c:106-165 | one loop turn: newline cut, trim, blank warning, exit, split error, per-stage parse error, the cd rule, or the pipeline to run, as `LineAction` |
| RShell.ParseEach | 6-RShell/starter/dshlib.c:124-134 | the parse loop stops at the first stage that fails, and otherwise has_cd is 1 exactly when any stage is `cd`, with one argv per stage |
| RShell.WarnIffBlank | 6-RShell/starter/dshlib.c:106-122 | the no-command warning is given exactly for a line that is blank up to its newline |
| RShell.ExitIff | 6-RShell/starter/dshlib.c:113 | the loop ends exactly when the trimmed line is `EXIT_CMD` |
| RShell.RunShape | 6-RShell/starter/dshlib.c:115-172 | a pipeline runs only after a successful split: one argv per stage, at most `CMD_MAX`, each the tokens of its stage within the argv bounds, and none is `cd` |
| RShell.RunStages | 6-RShell/starter/dshlib.c:124-165 | a pipeline runs only when every stage parsed and no stage is `cd` |
| RShell.StagesShape | 6-RShell/starter/dshlib.c:124-134 | parsed stages without `cd` are each the tokens of their stage within the argv bounds |
| RShell.ChangeDirShape | 6-RShell/starter/dshlib.c:147-159 | the directory changes only for a lone `cd` stage with at most one argument: to HOME without an argument, to argv[1] with one |
| RShell.ChangeDirIff | 6-RShell/starter/dshlib.c:106-159 | chdir to `target` is requested if and only if the line splits into one stage that parses to `cd` with at most one argument, and `target` is that argument or HOME without one |
| RShell.CdTooManyArgsIff | 6-RShell/starter/dshlib.c:106-154 | the too-many-arguments error for `cd` is given if and only if the line is one stage that parses to `cd` with two or more arguments |
| RShell.OneStage | 6-RShell/starter/dshlib.c:124-133 | a single stage that parses gives one argv, and has_cd is set exactly when it is `cd` |
| RShell.CdAnywhereRefused | 6-RShell/starter/dshlib.c:131-149 | `cd` in any stage of a multi-stage pipeline, not only the first, is refused as part of a pipeline and nothing runs |
| RShell.AnyCdSnoc | 6-RShell/starter/dshlib.c:131-133 | has_cd after one more stage is set if it was set or that stage is `cd` |
| RShell.ParseStagesShape | 6-RShell/starter/dshlib.c:125-130 | either every stage parsed, one argv each in order, or the index of the first stage that did not parse is reported |
| RShell.ParseFromShape | 6-RShell/starter/dshlib.c:125-130 | the same, for the loop from stage `i` onwards |
| RShell.NoCdStage | 6-RShell/starter/dshlib.c:131 | with has_cd clear no stage's argv[0] is `cd` |
| Pipeline.ExecStagesAsWritten | 6-RShell/starter/dshlib.c:167-219 | the stage loop as written creates a pipe for each stage before the last up to the first failure, waits for exactly the children it forked, leaks both ends of a pipe whose fork failed, and closes the last read end a second time after a complete pipeline of two or more stages |
| Pipeline.ExecStages | 6-RShell/starter/dshlib.c:167-219 | the loop with `prev_pipe_read` reset after its close: the same pipes made, the same descriptors and waits and no close of a descriptor it no longer holds |
| Pipeline.WaitAll | 6-RShell/starter/dshlib.c:217-219 | waitpid is called on each recorded pid in order |
| Pipeline.ForkedFirst | 6-RShell/starter/dshlib.c:172-184 | the loop forks exactly the stages before the first pipe or fork failure |
| Pipeline.AllSucceedNoLeak | 6-RShell/starter/dshlib.c:172-215 | when every pipe and fork succeeds, all stages fork, exactly `n-1` pipes are made, one per stage but the last, and the parent holds no pipe end while it waits |
| Pipeline.BelowSize | 6-RShell/starter/dshlib.c:172-178 | the pipes made for the first `m` stages number `m` |
| Pipeline.ForkFailureLeaks | 6-RShell/starter/dshlib.c:180-184 | a fork failure after a successful pipe leaves both new ends open |
| Pipeline.DoubleCloseInput | 6-RShell/starter/dshlib.c:202-215 | a two-stage pipeline whose pipe and forks succeed forks both stages, so the as-written loop closes once too often |
| ShellP2.Classify | 4-ShellP2/starter/dshlib.c:110-130 | `WARN_NO_CMDS` gives the warning, `ERR_TOO_MANY_COMMANDS` the pipe-limit message and any other error "too long", each exactly; only `OK` leads to the cd check or a command |
| ShellP2.ProcessLine | 4-ShellP2/starter/dshlib.c:101-132 | one loop turn: newline cut, trim, warning, exit, parse, error report, the built-in cd, or the command to fork, as `LineAction` |
| ShellP2.WarnIffBlank | 4-ShellP2/starter/dshlib.c:101-123 | the warning is given exactly for a blank line, and the `argc == 0` branch is never taken |
| ShellP2.RunShape | 4-ShellP2/starter/dshlib.c:110-132 | a command is forked only for tokens of the whole trimmed line within the argv bounds whose argv[0] is not `cd` |
| ShellP2.ChangeDirShape | 4-ShellP2/starter/dshlib.c:125-128 | chdir is requested only for `cd` with exactly one argument, to that argument |
| ShellP2.ChangeDirIff | 4-ShellP2/starter/dshlib.c:101-128 | chdir to `path` is requested if and only if the trimmed line is not the exit command and parses to `cd path` |
| ShellP2.CdTooManyArgsIff | 4-ShellP2/starter/dshlib.c:101-126 | the too-many-arguments error for `cd` is given if and only if the line parses to `cd` with two or more arguments |
| ShellP2.PipeIsArgument | 4-ShellP2/starter/dshlib.c:110 | there is no pipe splitting: `x | y` runs `x` with the arguments `|` and `y` |
| ShellP1.BuildCmdList | 3-ShellP1/starter/dshlib.c:65-135 | build_cmd_list returns the status of the reference outcome, and the list holds exactly the commands completed before it, with `num` their count |
| ShellP1.JoinArgs | 3-ShellP1/starter/dshlib.c:106-124 | the args loop succeeds exactly when the remaining tokens joined by single spaces are shorter than `ARG_MAX`, and then args_buf is that join |
| ShellP1.AppendArg | 3-ShellP1/starter/dshlib.c:112-122 | one token: the length check against `ARG_MAX` counting the separating space, then the space unless it is the first argument, then the token |
| ShellP1.BuildShape | 3-ShellP1/starter/dshlib.c:73-130 | on success there is one command per pipe segment in order, at most `CMD_MAX`; exe and args read back as the segment's tokens, with exe shorter than `EXE_MAX` and args shorter than `ARG_MAX` |
| ShellP1.BuildOkIff | 3-ShellP1/starter/dshlib.c:73-130 | build_cmd_list returns `OK` if and only if there are at most `CMD_MAX` segments and every one is buildable: it trims to something, its exe is shorter than `EXE_MAX` and its joined args are shorter than `ARG_MAX` |
| ShellP1.BuildTooManyIff | 3-ShellP1/starter/dshlib.c:76-84 | `ERR_TOO_MANY_COMMANDS` if and only if segment `CMD_MAX` exists and is not blank and all before it are buildable, keeping `CMD_MAX` commands |
| ShellP1.BuildTooBigIff | 3-ShellP1/starter/dshlib.c:76-124 | for the first unbuildable segment `k`: `ERR_CMD_OR_ARGS_TOO_BIG` if and only if `k < CMD_MAX`, or `k == CMD_MAX` and that segment is blank, keeping the `k` commands before it |
| ShellP1.BuildFromStatus | 3-ShellP1/starter/dshlib.c:73-130 | the three statuses of the loop from any point in terms of the first unbuildable segment and the room left below `CMD_MAX`, and how many commands are kept |
| ShellP1.FirstUnbuildable | 3-ShellP1/starter/dshlib.c:76-124 | the index of the first refused segment: all before it are buildable, and it is not |
| ShellP1.BuildFromShape | 3-ShellP1/starter/dshlib.c:73-130 | the loop from any point only appends, at most one command per remaining segment, each built from its segment within the bounds |
| ShellP1.CmdFields | 3-ShellP1/starter/dshlib.c:92-127 | a built command's exe followed by the words of its args are the tokens of the trimmed segment |
| ShellP1.ExeAlwaysFound | 3-ShellP1/starter/dshlib.c:76-96 | a segment that does not trim to empty always has an exe token |
| ShellP1.PipeAlwaysSplits | 3-ShellP1/starter/dshlib.c:73-74 | a pipe splits wherever it stands, inside quotes or not, and quotes are kept |
| ShellP1.DoublePipeCollapses | 3-ShellP1/starter/dshlib.c:73-74 | a run of two pipes builds the same list as one pipe |
| ShellP1.FieldsOfJoinSp | 3-ShellP1/starter/dshlib.c:106-127 | reading the joined args string back with strtok_r gives the words back |
| ShellP1.ArgsStep | 3-ShellP1/starter/dshlib.c:111-123 | one token extends args_buf to the join of the tokens so far, or proves the full join too long |
| ShellP1.ArgsDone | 3-ShellP1/starter/dshlib.c:111-127 | when the tokens run out args_buf is the join of all of them |
| StringFun.SetupBuff | week1/1-C-Refresher/stringfun.c:18-67 | corrected setup_buff: `len > BUFFER_SZ` fails with no write; it fails exactly when the collapsed string is longer than `len`, after writing only `buff[0..len)`; on success it returns the collapsed length and the buffer is the collapsed string then dots |
| StringFun.SetupBuffAsWritten | week1/1-C-Refresher/stringfun.c:18-67 | setup_buff as written: on failure it has also stored the byte at index `len`; on success it returns `BUFFER_SZ` whatever the string's length |
| StringFun.CopyCollapsed | week1/1-C-Refresher/stringfun.c:31-56 | the copy loop succeeds exactly when the collapsed string fits in `len`, writes it at the front of the buffer, and writes nothing beyond |
| StringFun.CopyChar | week1/1-C-Refresher/stringfun.c:32-55 | one turn of the copy loop keeps the loop invariant: a blank after a blank is skipped, any other character is emitted, or the buffer is found full with the collapsed text longer than `len` |
| StringFun.Emit | week1/1-C-Refresher/stringfun.c:35-51 | one write of the corrected copy: it is refused exactly when `len` bytes are already written, and otherwise the buffer gains that character and is unchanged past it |
| StringFun.CopyAsWritten | week1/1-C-Refresher/stringfun.c:31-56 | the copy loop as written fails exactly when the collapsed string is longer than `len`, having stored the collapsed text up to and including offset `len`; otherwise it has stored the whole collapsed text |
| StringFun.PadDots | week1/1-C-Refresher/stringfun.c:59-63 | the padding loop appends dots up to BUFFER_SZ and leaves `dest` at BUFFER_SZ |
| StringFun.CollapseShape | week1/1-C-Refresher/stringfun.c:31-56 | the copy never lengthens, leaves no tab and no two spaces in a row |
| StringFun.CollapseKeepsWords | week1/1-C-Refresher/stringfun.c:31-56 | collapsing keeps the words: the space/tab fields before and after are the same |
| StringFun.CollapseIdempotent | week1/1-C-Refresher/stringfun.c:31-56 | collapsing a collapsed string changes nothing |
| StringFun.CollapseAtBlank | week1/1-C-Refresher/stringfun.c:32-42 | a blank run becomes one space, or nothing right after another run |
| StringFun.CollapsePlain | week1/1-C-Refresher/stringfun.c:43-53 | non-blank characters are copied unchanged and in order |
| StringFun.ReverseString | week1/1-C-Refresher/stringfun.c:89-95 | emits "Reversed String: ", then `buff[str_len-1]` down to `buff[0]`, then a newline |
| StringFun.ReversedAt | week1/1-C-Refresher/stringfun.c:91-93 | position `k` of the output is input position `str_len-1-k` |
| StringFun.ReversedTwice | week1/1-C-Refresher/stringfun.c:89-95 | reversing twice gives the input back |
| StringFun.ReversedStep | week1/1-C-Refresher/stringfun.c:91-93 | each step of the descending loop appends the next character to the left |
| StringFun.WordPrint | week1/1-C-Refresher/stringfun.c:97-120 | corrected word_print: one numbered line with its length for each maximal run of non-space, non-NUL characters in `buff[0..str_len)`, the last word included |
| StringFun.WordPrintAsWritten | week1/1-C-Refresher/stringfun.c:97-120 | word_print as written reads the character after the string, `buff[str_len]` or, when `str_len` is the buffer size as in main's call, the memory past it, and prints only the words followed by a space or NUL within the string and that character |
| StringFun.ScanWords | week1/1-C-Refresher/stringfun.c:102-119 | the loop keeps the printed lines equal to the numbered words before the current one |
| StringFun.WordStep | week1/1-C-Refresher/stringfun.c:103-118 | a space or NUL prints the current word, if any, and any other character extends it |
| StringFun.PrintWord | week1/1-C-Refresher/stringfun.c:104-111 | prints the current word with the next index and its length |
| StringFun.WordEnded | week1/1-C-Refresher/stringfun.c:103-112 | ending the current word gives the numbered words of everything read so far |
| StringFun.NumberedAt | week1/1-C-Refresher/stringfun.c:105-110 | line `k` is word `k` with index `k+1` and its length |
| StringFun.AsWrittenAgrees | week1/1-C-Refresher/stringfun.c:102-119 | as written and corrected agree when `buff[str_len]` is a space or NUL |
| StringFun.LastWordDropped | week1/1-C-Refresher/stringfun.c:102-119 | with "hi." and `str_len` 2 the loop as written prints nothing, the corrected one prints "hi" |
| StudentDb.ValidateRangeIff | 2-StudentDB/starter/sdbsc.c:317-325 | `NO_ERROR` exactly when id and gpa are both within their inclusive bounds, `EXIT_FAIL_ARGS` otherwise |
| StudentDb.ValidIdSeeks | 2-StudentDB/starter/sdbsc.c:52-56 | a validated id gives a valid seek offset |
| StudentDb.Truncate | 2-StudentDB/starter/sdbsc.c:105-106 | strncpy with size-1 keeps a prefix shorter than the field, and the whole name when it fits |
| StudentDb.Db.GetStudent | 2-StudentDB/starter/sdbsc.c:52-73 | `NO_ERROR` exactly for a whole in-file record with a non-zero id, returning it; a negative offset is a file error; a slot past the end or an empty slot is not found |
| StudentDb.Db.AddStudent | 2-StudentDB/starter/sdbsc.c:87-122 | succeeds exactly when the range check passes and the slot is free, then writes the record with truncated names at slot `id`, growing the file with empty slots; otherwise `ERR_DB_OP` with no write |
| StudentDb.Db.DelStudent | 2-StudentDB/starter/sdbsc.c:133-157 | succeeds exactly when the record is found, then slot `id` becomes the empty record; otherwise `ERR_DB_OP` with no write |
| StudentDb.Db.CountDbRecords | 2-StudentDB/starter/sdbsc.c:166-188 | returns the number of whole records with a non-zero id |
| StudentDb.Db.CompressDb | 2-StudentDB/starter/sdbsc.c:246-300 | succeeds exactly when there is no partial trailing record, that is when the file size is a multiple of the record size, and the file becomes the non-empty records in order; otherwise `ERR_DB_FILE` and the file unchanged |
| StudentDb.Db.ReadsOfFile | 2-StudentDB/starter/sdbsc.c:263-268 | the read loop gets `size / sizeof(student_t)` whole records and then one short read of `size % sizeof(student_t)` bytes, which are the partial trailing record |
| StudentDb.DivModOfRecords | 2-StudentDB/starter/sdbsc.c:175 | a file of `n` whole records and fewer than a record's further bytes has `n` records by division and those bytes by remainder |
| StudentDb.Db.TruncateDb | 2-StudentDB/starter/sdbsc.c:28-29 | opening with `should_truncate` gives an empty table |
| StudentDb.Db.constructor | 2-StudentDB/starter/sdbsc.c:24-39 | an opened file holds its records and any partial trailing record |
| StudentDb.PutThenLookup | 2-StudentDB/starter/sdbsc.c:87-122 | after a successful add, get on the same id finds that record |
| StudentDb.PutKeepsOthers | 2-StudentDB/starter/sdbsc.c:109-118 | an add leaves the lookup of every other id unchanged |
| StudentDb.PutCount | 2-StudentDB/starter/sdbsc.c:87-122 | a successful add raises the count by one |
| StudentDb.DeleteCount | 2-StudentDB/starter/sdbsc.c:133-157 | a successful delete lowers the count by one, and the id is then not found |
| StudentDb.NonEmptyElements | 2-StudentDB/starter/sdbsc.c:262-275 | compress keeps exactly the records with a non-zero id and never grows the file |
| StudentDb.NonEmptyAppend | 2-StudentDB/starter/sdbsc.c:262-275 | compressing two runs of records one after the other is compressing each in turn, so the copy keeps the records' order |
| StudentDb.NonEmptyIdempotent | 2-StudentDB/starter/sdbsc.c:246-300 | compressing twice is the same as compressing once |
| StudentDb.NonEmptyFixed | 2-StudentDB/starter/sdbsc.c:262-275 | a file without empty slots is unchanged by compress |
| StudentDb.NonEmptyUpdate | 2-StudentDB/starter/sdbsc.c:166-188 | overwriting one slot changes the count by the difference in its emptiness |
| StudentDb.CompressMovesRecords | 2-StudentDB/starter/sdbsc.c:262-285 | compress moves records off their id slot: a student found at slot 2 before is not found there after |

## Left out

- The C programs' I/O is not modelled: prompts, `printf`/`fprintf`/`perror` text, `fgets` reading and its truncation at `SH_CMD_MAX`, and the `putchar` output formats.
- Process work is not modelled: `fork`, `execvp`, `dup2`, `pipe`, `waitpid` and `_exit`. The outcomes of `pipe` and `fork` are parameters of `Pipeline.ExecStages`, and what a child does is not modelled.
- `chdir` and `getenv`: the model computes the requested action (`ChangeDir(HomeDir)`, `ChangeDir(Dir(p))`, `CdStay`), not its effect on the file system.
- `malloc`, `strdup` and `free` ownership is left out, and so are their failure paths. The model does not capture these memory errors in the source:
  - the double free of `_cmd_buffer` after a parse error;
  - the uninitialised `command_buffers` read on the first turn of 6-RShell;
  - the parts leaked when `split_commands` returns -1.
- Tokenizer.ParseCmdLine: requires the line to be shorter than `SIZE_MAX`, so that the `size_t` index cannot reach it.
- Tokenizer.ParseCmdLine: `argv[argc] = NULL` is not modelled. The argument vector is a sequence of exactly `argc` strings.
- ShellP1.BuildCmdList: on an error after the exe check, the partially filled slot `commands[num]` is not modelled. The list holds the completed commands only.
- 3-ShellP1/starter/dsh_cli.c, the interactive driver, is not part of this model.
- StringFun.SetupBuff and StringFun.SetupBuffAsWritten: require `len >= 0`. Every caller passes `BUFFER_SZ`, and the negative case is not modelled.
- The `count_words` stub and the `-x` branch of stringfun.c are not modelled; neither has behaviour to model.
- `print_buff` and the `main` option handling of stringfun.c are not modelled.
- The physical file of StudentDB is not modelled: `open`, `rename`, `close`, permission bits, the temporary file of `compress_db` and the fd it returns. Failures of `read`, `write` and `lseek` on a valid offset are left out too. The file is a sequence of whole records plus the size of a trailing partial record.
- StudentDb.Db.AddStudent: assumes `MIN_STD_ID > 0`. With a smaller bound, `add_student` could return the `ERR_DB_FILE` of a failed seek (sdbsc.c:100-101), and a record added with id 0 would read back as an empty slot.
- StudentDb.Db.AddStudent: a write past a partial trailing record treats the padded slot as empty. The bytes of the partial record are not modelled.
- The float GPA display, `print_db`, `print_student`, the console messages and the `atoi`-based argument parsing of sdbsc.c are not modelled.

## Findings

| source | as written | input that shows it | evidently intended | confidence | as-written member | corrected member |
|---|---|---|---|---|---|---|
| 6-RShell/starter/dshlib.c:202-215 | the parent closes `prev_pipe_read` for the last stage and does not reset it, so the clean-up after the loop closes the same descriptor again | two stages, both pipes and forks succeed | each descriptor closed once, by resetting `prev_pipe_read` to -1 after closing it | not executed | Pipeline.ExecStagesAsWritten | Pipeline.ExecStages |
| week1/1-C-Refresher/stringfun.c:35-51 | the byte is stored before the `user_str_len > len` check, so a string that does not fit writes `buff[len]`, one past the `len` bytes allowed (past the 50-byte buffer when `len` is `BUFFER_SZ`) | `len` 3, user string "abcd" | on failure, nothing stored at or beyond `len` | not executed | StringFun.SetupBuffAsWritten | StringFun.SetupBuff |
| week1/1-C-Refresher/stringfun.c:59-66 | after padding, `dest - buff` is always `BUFFER_SZ`, while the function is meant to return the length of the user string | user string "hi", `len` 50: returns 50 | 2, the collapsed length | not executed | StringFun.SetupBuffAsWritten | StringFun.SetupBuff |
| week1/1-C-Refresher/stringfun.c:102-119 | the loop reads `buff[str_len]`, one past the range (past the buffer when `main` passes 50, modelled by the `past` parameter), and a last word that is followed by padding rather than a space is never printed | buffer "hi." with `str_len` 2 | every word of `buff[0..str_len)` printed, the range end ending the last word | not executed | StringFun.WordPrintAsWritten | StringFun.WordPrint |
