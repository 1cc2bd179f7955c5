# sshell front end and background job queue, in Dafny

This project models two sequential parts of `sshell`, a small Unix shell:

- **The command-line front end.** It runs from a raw line to a list of pipeline stages.
  - `pad_spaces_if_missing` separates the operators `<`, `>` and `|` from their neighbours with spaces.
  - `trim_spaces` cuts trailing whitespace.
  - `parse_command` does the line-level checks, then the split on `|` and on spaces. It also places and probes the redirections and enforces the argument limit.
- **The background job queue.** This is the fixed array of 16 slots, with `init_bg_queue`, `add_bg_job` and `check_completed_bg_jobs`. The last one waits without blocking, in queue order, on the members of each active live job, up to the first one still running. It reports the jobs that are done in queue order, with the line `+ completed '<command>' [c0][c1]...`, and then shifts the remaining jobs to the front.

The model takes the source's shape:

- Padding fills a 512-character array in a loop.
- Trimming, `strchr` and `strtok` are loops over the string.
- Parsing is a loop over segments with a nested loop over tokens.
- The queue is a class over an array of jobs with a live count.

Each loop is proved against a specification function. The properties the shell relies on are proved about those functions:

- padding only inserts spaces, separates every operator, and is idempotent;
- the exact acceptance conditions and error of every stage and line;
- the poll agrees with a reference description of which jobs complete and what they report;
- compaction is stable, and the count drops by the number reported;
- every completion line can be read back.

These effects are parameters:

- **The `open` probes on redirection targets** are the oracles `canOpenRead` and `canOpenWrite`.
- **`waitpid(pid, &status, WNOHANG)`** works on a `ProcessTable`: a map from pid to a child that is either running or terminated and not yet reaped. Reaping removes the entry, so a later wait on that pid fails.

Modules:

- `Prelude`: constants, `Option`, `Result`.
- `Strings`: `isspace`, `trim_spaces`, `strchr`, `strtok`.
- `Normalize`: padding.
- `Parser`: `parse_command`.
- `Report`: the completion line.
- `Processes`: the wait oracle.
- `Poll`: the specification of the poll.
- `Queue`: the `BgJobQueue` class.

Where the code differs from what its own comments say, the model follows the code:

- **Trimming.** The comment on `trim_spaces` (`1.2/sshell.c:193`) says it trims leading and trailing spaces. It only moves a local pointer past leading whitespace, so the caller keeps that whitespace. A line made only of whitespace is not trimmed at all.
- **Whitespace-only input.** As a consequence, a line or segment of spaces is accepted as a stage with no arguments rather than rejected as a missing command (`Parser.BlankLineAccepted`).

Stages are split into arguments on `' '` only, as `strtok` is called with that one delimiter, so a tab stays inside an argument.

## Model

| member | source | states |
|---|---|---|
| Strings.Trimmed | 1.2/sshell.c:197-210 | The caller's string after `trim_spaces` is a prefix of it. Only whitespace is cut, and only after the last non-whitespace character, which then ends the result. An all-whitespace string is left unchanged, and a non-empty string stays non-empty. |
| Strings.TrimSpaces | 1.2/sshell.c:197-210 | The two pointer loops of `trim_spaces` leave exactly `Trimmed(s)`. |
| Strings.TrimIdempotent | 1.2/sshell.c:197-210 | Trimming twice is trimming once. |
| Strings.FindFirst | 1.2/sshell.c:240-241 | `strchr`: -1 exactly when the character is absent; otherwise an index holding it with no earlier occurrence. |
| Strings.Tokens | 1.2/sshell.c:252-257 | The `strtok` tokens for one delimiter are non-empty and free of the delimiter, and there are no more of them than characters. |
| Strings.TokensCoverInput | 1.2/sshell.c:252-257 | Gluing the tokens together gives the input with every delimiter removed, so nothing else is lost or reordered. |
| Strings.TokensOfDelimiters | 1.2/sshell.c:280-281 | A string made only of delimiters yields no token. |
| Strings.Tokenize | 1.2/sshell.c:252-257 | The `strtok` loop returns the first `limit` tokens in order (at most `MAX_COMMANDS` for the split on pipe signs). |
| Normalize.PadSpaces | 1.2/sshell.c:162-190 | The copy loop through the 512-character buffer produces `Padded(line)`. |
| Normalize.Emit | 1.2/sshell.c:166-185 | One iteration appends exactly the piece for the current character to the buffer's filled prefix. |
| Normalize.SpaceBeforeFromOutput | 1.2/sshell.c:170-173 | Looking at the last emitted character is the same as looking at the previous input character: a space goes before an operator unless it starts the line or follows a space or another operator. |
| Normalize.PieceShape | 1.2/sshell.c:168-185 | Each input character is emitted as itself at offset `Offset` (0 or 1) of its piece. Every other character of the piece is a space, at most one before and one after it. A character that is not an operator is emitted alone. |
| Normalize.PieceWithoutSpaces | 1.2/sshell.c:168-185 | With spaces removed, a piece is its input character with spaces removed. Only an operator's piece is longer than one character, and by at most two. |
| Normalize.PadOnlyInsertsSpaces | 1.2/sshell.c:162-190 | With spaces removed, input and output are equal. The output grows by at most two characters per operator. |
| Normalize.PadEmbedsInput | 1.2/sshell.c:162-190 | Every input character lands in the output at `Position`, and positions strictly increase, so no character is dropped or reordered. Every output position not holding an input character holds a space. |
| Normalize.PadSeparatesOperators | 1.2/sshell.c:162-190 | After padding, every operator not first has a space before it, and every one not last has a space after it. |
| Normalize.SeparatedUnchanged | 1.2/sshell.c:162-190 | A line whose operators are already separated is left unchanged. |
| Normalize.PadIdempotent | 1.2/sshell.c:162-190 | Padding twice equals padding once. |
| Parser.Message | 1.2/sshell.c:234-327 | Each of the nine parse errors prints its own fixed line starting with `Error: `. |
| Parser.MessagesDistinct | 1.2/sshell.c:234-327 | Different errors print different lines. |
| Parser.ParseStage | 1.2/sshell.c:260-331 | The body of the per-segment loop (trim, missing-command check, token loop, argument limit) computes `ParseSegment`. |
| Parser.ParseCommand | 1.2/sshell.c:219-334 | `parse_command` computes `Parse`. |
| Parser.ScanStage | 1.2/sshell.c:279-322 | The token loop of one stage, with its early returns, computes `ScanTokens` on the stage's tokens. |
| Parser.ScanSucceedsIff | 1.2/sshell.c:280-325 | The token loop succeeds exactly when both of these hold: every `<`/`>` has a following target, and every `<` is in the first stage and every `>` in the last, with each target passing its probe. |
| Parser.ScanResult | 1.2/sshell.c:282-323 | On success, the arguments are the non-redirection tokens in order. Input and output are the last targets given (targets never become arguments), and the background flag is kept. |
| Parser.ScanIgnoresBackground | 1.2/sshell.c:274-277 | The background flag does not influence the token loop's verdict or anything else it records. |
| Parser.ScanFaultFound | 1.2/sshell.c:279-322 | When the token loop fails, some redirection is the first that does not pass: every unit before it passes, and the error names how it fails. |
| Parser.ScanFaultStops | 1.2/sshell.c:279-322 | A redirection that is the first not to pass stops the token loop with its error: mislocated when on the wrong stage, otherwise no file when it is the last token, otherwise cannot open. |
| Parser.ScanFailsIff | 1.2/sshell.c:282-319 | The token loop fails with a given error exactly when some redirection is the first not to pass and fails in the way that error names. |
| Parser.StageFailsWith | 1.2/sshell.c:260-331 | A segment reports a missing command exactly when its trimmed text is empty or starts with `<` or `>`; otherwise the error of its first failing redirection; otherwise too many arguments exactly when every redirection passes and it has more than 16 plain arguments. |
| Parser.TooManyArgumentsIff | 1.2/sshell.c:326-329 | A segment reports too many arguments exactly when it passes the first-character check and the token loop, and has more than 16 plain arguments. |
| Parser.StageAcceptedIff | 1.2/sshell.c:260-331 | A segment is accepted exactly when all of these hold: its trimmed text is non-empty and starts with neither `<` nor `>`; its redirections are present, well placed and openable; it has at most 16 plain arguments (exactly 16 is accepted). |
| Parser.StageShape | 1.2/sshell.c:269-331 | An accepted stage's arguments, input and output are as above. Input appears only on stage 0 and output only on the last stage. Only the last stage of a background line is marked background. |
| Parser.CollectSucceeds | 1.2/sshell.c:260-333 | The per-segment loop succeeds exactly when every stage does, and then returns the stages in order. |
| Parser.CollectFirstFailure | 1.2/sshell.c:260-331 | When the loop fails, its error is that of the first failing stage. |
| Parser.SegmentsNonEmpty | 1.2/sshell.c:246-257 | A non-empty body not starting with a pipe sign yields at least one segment. |
| Parser.LineChecks | 1.2/sshell.c:224-249 | The line checks, in order: a bare `&` is a missing command; an `&` anywhere but at the end is a mislocated background sign; a pipe sign first or last is a missing command. |
| Parser.ParsedPipeline | 1.2/sshell.c:219-334 | An accepted line passed the line checks and has between 1 and 4 stages, one per kept segment, each the parse of its segment. |
| Parser.PipelineAcceptedIff | 1.2/sshell.c:219-334 | A line is accepted exactly when it passes the line checks and every kept segment is accepted; segments beyond the fourth are dropped unread. |
| Parser.PipelineFirstFailure | 1.2/sshell.c:260-331 | A line that passes the line checks but is rejected fails with the error of its first rejected segment. |
| Parser.DoubleAmpersandExample | 1.2/sshell.c:226-244 | `ls &&` is accepted as one background stage with arguments `ls` and `&`. |
| Parser.BlankLineAccepted | 1.2/sshell.c:224-279 | A line of spaces only is accepted as one stage with no arguments. |
| Report.Decimal | 1.2/sshell.c:128 | `%d` of a non-negative code is a non-empty string of digits without a leading zero. |
| Report.DecimalRoundTrip | 1.2/sshell.c:128 | Reading the digits back gives the code. |
| Report.ReportLine | 1.2/sshell.c:126-130 | A completion line starts with `+ completed '` and ends with a newline. |
| Report.ReportLineRoundTrip | 1.2/sshell.c:126-130 | Any completion line can be parsed back into its command and all its codes, whatever characters the command holds. |
| Report.ReportLineInjective | 1.2/sshell.c:558-562 | Distinct commands or code lists never print the same line (the format shared with foreground jobs). |
| Processes.Wait | 1.2/sshell.c:110-121 | A non-blocking wait answers still running exactly for a running child, and fails exactly for a pid that is not an unreaped child. Otherwise it reaps that child and changes nothing else. |
| Processes.ProcessTable.WaitNoHang | 1.2/sshell.c:110 | The oracle call behaves as `Wait` on the table of children. |
| Poll.PollMembers | 1.2/sshell.c:104-122 | The member loop yields a code for each member waited on before the first running one, so one per member when none was running. |
| Poll.CompletedIffNoneRunning | 1.2/sshell.c:104-124 | A job counts as completed exactly when none of its members is running, even if some were reaped before or a pid repeats. |
| Poll.MemberLoopEffect | 1.2/sshell.c:104-122 | With distinct members, the loop waits on exactly the members before the first running one. It reaps exactly those, and records for each its exit code, or 0 if it did not exit or was already reaped. |
| Poll.CompletedCodes | 1.2/sshell.c:106-130 | A completed job with distinct members reports one code per member, in order. |
| Poll.EarlierReapedReportsZero | 1.2/sshell.c:106-122 | This scenario shows that codes are not remembered between polls. A member that exited with 5 is reaped by a poll that stops at a running member. When the job later completes, the report shows `[0]` for it, not `[5]`. |
| Poll.PollJobs | 1.2/sshell.c:99-138 | The marking pass yields one slot per live job. |
| Poll.MarkingRetiresOnly | 1.2/sshell.c:99-138 | The marking pass only retires active jobs (inactive, command cleared) and leaves every other slot unchanged. With no report, nothing changes. |
| Poll.MarkingCount | 1.2/sshell.c:99-138 | The active jobs after marking plus the lines reported equal the active jobs before. |
| Poll.CountWhenAllActive | 1.2/sshell.c:96-155 | When all live jobs are active, the survivors number the live jobs minus the reported count. |
| Poll.PollMatchesReference | 1.2/sshell.c:99-138 | When no pid is shared, the poll matches an independent description. Each job is retired and reported exactly when it is active and none of its members is running in the table the poll starts from, with its members' codes. The reports come in queue order. |
| Poll.PollOneReference | 1.2/sshell.c:100-137 | For one job with distinct members, the poll retires and reports it exactly when it is active and none of its members is running, with its members' codes, and reaps only its own members. |
| Poll.Survivors | 1.2/sshell.c:140-152 | The jobs kept are no more than the jobs given, and all of them are active. |
| Poll.SurvivorsAppend | 1.2/sshell.c:140-152 | Filtering distributes over concatenation, so relative order is kept. |
| Poll.Compacted | 1.2/sshell.c:140-152 | Compaction keeps the array's length. |
| Poll.CompactedFront | 1.2/sshell.c:140-152 | After compaction, the front holds exactly the active jobs in their old order, no more of them than before, all active. |
| Poll.CompactedNoop | 1.2/sshell.c:140-152 | Compacting a queue whose live jobs are all active changes nothing. |
| Queue.PollMembersOf | 1.2/sshell.c:104-122 | The member loop with its local array of four zeros computes `PollMembers`: the completion flag, the recorded codes and the children left. |
| Queue.WaitMember | 1.2/sshell.c:109-121 | One round of the member loop says "still running" exactly when the wait does. It stores the exit code at the member's index only when the member exited, and the children change as one wait changes them. |
| Queue.BgJobQueue.constructor | 1.2/sshell.c:46 | The static queue starts with every slot zeroed and no jobs. |
| Queue.BgJobQueue.Init | 1.2/sshell.c:53-60 | `init_bg_queue` leaves no jobs, with every slot inactive and holding no command and no members. |
| Queue.BgJobQueue.AddJob | 1.2/sshell.c:71-88 | When the queue is full, -1 is returned and nothing changes. Otherwise the job is appended at index `num_jobs` with its first `pid_count` pids, the command and active set. The count grows by one, earlier and later slots are untouched, and 0 is returned. |
| Queue.BgJobQueue.PollSlot | 1.2/sshell.c:100-137 | Polling one slot skips inactive jobs. Otherwise it reports and retires the job when all members are done, and changes only that slot. |
| Queue.BgJobQueue.MarkOne | 1.2/sshell.c:100-137 | One pass of the marking loop replaces the slot at `job_idx` by its polled form and keeps the loop's invariant: polled slots, then the rest of the pass, make up `PollJobs`. |
| Queue.BgJobQueue.MarkCompleted | 1.2/sshell.c:99-138 | The marking loop computes `PollJobs` on the live jobs and leaves the slots beyond them alone. |
| Queue.BgJobQueue.Compact | 1.2/sshell.c:140-152 | The compaction loop moves the active live jobs to the front in order. It leaves every later slot as it was and sets the count to the number kept. |
| Queue.BgJobQueue.KeepIfActive | 1.2/sshell.c:143-149 | One pass of the compaction loop extends the kept front by the job at `i` exactly when it is active. Every slot past the kept front keeps what it held. |
| Queue.BgJobQueue.CheckCompletedJobs | 1.2/sshell.c:96-155 | `check_completed_bg_jobs` returns the number of lines reported, which are the lines of `PollJobs`. It compacts only when something was reported. It keeps every live job active, and the count drops by exactly the number reported. |

## Left out

- The interactive loop of `main` is input and output, not logic: prompt, `fgets`, echo, newline stripping, and skipping empty lines. `Parse` therefore requires a non-empty line, which is what `main` hands it.
- `fork`, `pipe`, `dup2`, `execvp` and the blocking wait for foreground jobs are process plumbing outside the model. The table of children is handed to the queue rather than created by them.
- The `SIGCHLD` handler and its flag decide when a poll runs; the model covers what a poll does, not when it happens.
- The builtins `exit`, `pwd` and `cd` are system calls on the shell's own process, and `preview_command_list` is debug printing.
- `strdup` and `free` are not modelled: strings are values, and a freed, cleared command is the empty string.
- Normalize.PadSpaces requires the padded line to fit the 512-character buffer. The source writes past the buffer when padding grows a long line, which is undefined behaviour.
- Parser.ParseStage accepts exactly 16 arguments, as the source's check does. It does not model that the source then stores the terminating `NULL` one past the 16-entry `args` array, and stores past it while counting a longer list.
- Parser.ParseCommand returns the stages as a sequence inside a `Result` rather than filling the caller's `Command` array and returning a count or -1. The error printed is `Message` of the error returned.
- The output probe creates or truncates its target as a side effect. That effect belongs to the `canOpenWrite` oracle and is not modelled.
- A line of spaces is accepted with no arguments (see `Parser.BlankLineAccepted`); what `main` does next with the missing first argument is undefined behaviour in the source and outside the model.
- Processes.Wait treats every pid as one child looked up in the table; what `waitpid` does with pid 0 or a negative pid (wait on a process group or on any child) is not modelled. `Queue.BgJobQueue.AddJob` requires positive pids, as the shell only queues the results of `fork` (`1.2/sshell.c:525`, `1.2/sshell.c:538`).
- Queue.BgJobQueue.AddJob keeps a job's members as a sequence of exactly `pid_count` pids. Stale entries left in the fixed four-entry array beyond `pid_count` are never read and are not represented.
- Poll.PollMatchesReference covers queues without pid reuse: no pid is shared between or within jobs. A pid reaped by a poll from a job that stays queued can be handed by the kernel to a later job, and a later poll may then read the new child's status for the old job. `Poll.PollMembers`, `Poll.CompletedIffNoneRunning` and the queue's methods make no such assumption and model that case as the code behaves.
- The table of children is fixed for the length of one poll except for the entries the poll reaps: a child that terminates between two waits of the same poll is not modelled. Each wait in `1.2/sshell.c:110-115` reads the child's state at that moment; the model reads it from the table the poll started with. "Running" in the poll's contracts means running in that table.
- A line is taken to hold no `'\0'`. The source reads every string up to its first terminator, so a line with an embedded `'\0'` is parsed by the source as its text before that character; `Parse`, `ParseCommand` and `PadSpaces` take the whole sequence.
- Queue.BgJobQueue.CheckCompletedJobs: the count is proved to drop by exactly the number reported when every live job was active before the poll. The constructor, `Init`, `AddJob` and `CheckCompletedJobs` all keep that condition, so a queue driven only by them always meets it.
