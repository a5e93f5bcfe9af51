# A small Unix shell and a Fibonacci benchmark, in Dafny

This project models the logic at the core of a teaching shell
(`os_assignment_2/shell.c`) and of its companion benchmark
(`os_assignment_2/fib.c`), and proves properties of that model.

The shell reads a line and splits it into pipeline stages on `|` (`parse`).
For each stage, `executecommands` creates a pipe to the next stage, and
`executeCommand`:

- copies the stage text;
- cuts the copy at the first `&`, which marks a background stage;
- trims trailing spaces and tabs;
- forks a child, which splits the text into an argument vector
  (`makecmd`) and executes it.

The parent then records the stage in a bounded history of 100 entries
(`add_to_history`). A foreground stage is recorded only after a normal exit
with status 0; a background stage is recorded at once. `display_history`
lists the history, oldest entry first. `fibonacci` is the naive recursive
Fibonacci function on an `int`, returning an `unsigned long long`.

Modules, one per component:

- `Fib` (`fib.dfy`): `fibonacci`, with the 64-bit unsigned wrap-around and
  the conversion of a negative `int` written out.
- `Tokenizer` (`tokenizer.dfy`): the `strtok` loop shared by `makecmd` and
  `parse`, as a method over a growing `array<Slot>`. It is proved against the
  specification function `Split`, whose tokens are the maximal runs of
  non-delimiters. The module also holds the capacity rule as written and as
  corrected.
- `StageText` (`stage.dfy`): the `&` cut and the trailing-blank trim, as
  functions and as the in-place buffer method `PrepareStage`.
- `History` (`history.dfy`): the class `HistoryStore`, which holds the
  100-slot array and the counter. Its methods are proved against the value
  model `Appended`/`AppendAll`, and that model is proved to keep exactly the
  newest 100 entries.
- `Eviction` (`eviction.dfy`): which heap strings the eviction loop of
  `add_to_history` frees, as written and as corrected.
- `Executor` (`executor.dfy`): `executeCommand` and `executecommands` over
  opaque system-call outcomes (`StageRun`). The module holds:
  - the recording policy;
  - the parent's descriptor bookkeeping, as a state machine over `inputfd`,
    `fd` and the set of pipe ends held;
  - the wiring each launched child receives.

Three facts about the code shape the model:

- History is recorded once per stage, with that stage's own text.
- `parse` does no trimming. A field made only of blanks is kept as a stage
  (`ParseKeepsBlankField`); only empty fields disappear.
- A background stage's end time is a second clock reading, taken after
  `fork`.

## Model

| member | source | states |
|---|---|---|
| Fib.ToUnsigned64 | os_assignment_2/fib.c:4-5 | converting an `int` to `unsigned long long` is reduction modulo 2^64, so the result is below 2^64 |
| Fib.Fibonacci | os_assignment_2/fib.c:4-7 | the recursion terminates (n decreases and stops at n <= 1) and every result is below 2^64 |
| Fib.FibonacciBase | os_assignment_2/fib.c:5 | fibonacci(0) = 0 and fibonacci(1) = 1 |
| Fib.FibonacciNegative | os_assignment_2/fib.c:4-5 | a negative argument is returned at once as 2^64 + n |
| Fib.FibonacciIsFibMod | os_assignment_2/fib.c:6 | for n >= 0 the result is the true Fibonacci number modulo 2^64 |
| Tokenizer.RunLength | os_assignment_2/shell.c:92-93 | the run at the front of the text has no delimiter and ends at a delimiter or at the end |
| Tokenizer.Split | os_assignment_2/shell.c:92-123 | the token list is never longer than the text |
| Tokenizer.SplitTokens | os_assignment_2/shell.c:92-94 | every token is non-empty and free of delimiters, so the `strlen > 0` test never rejects one |
| Tokenizer.SplitWord | os_assignment_2/shell.c:92-123 | a delimiter-free non-empty word is exactly one token |
| Tokenizer.SplitAtDelimiter | os_assignment_2/shell.c:92-123 | text on either side of a delimiter is tokenised independently |
| Tokenizer.SplitSkip | os_assignment_2/shell.c:92-123 | a delimiter contributes no token |
| Tokenizer.SplitTake | os_assignment_2/shell.c:92-123 | a maximal run of non-delimiters is the next token |
| Tokenizer.SplitTrailingDelimiter | os_assignment_2/shell.c:80-123 | a trailing delimiter (such as the line's newline) adds no token |
| Tokenizer.SplitLeadingDelimiter | os_assignment_2/shell.c:80-123 | a leading delimiter adds no token |
| Tokenizer.SplitFields | os_assignment_2/shell.c:131-177 | fields joined by one delimiter tokenise to exactly the non-empty fields, in order |
| Tokenizer.ParseDropsEmptyField | os_assignment_2/shell.c:133-147 | "a\|\|b" gives the stages "a" and "b" |
| Tokenizer.ParseKeepsBlankField | os_assignment_2/shell.c:133-147 | " \|ls\n" gives the stages " " and "ls\n": blanks are not delimiters of `parse` |
| Tokenizer.MakeCmdDropsBlanks | os_assignment_2/shell.c:80-94 | two words separated by a space and a tab and followed by a newline give exactly those two arguments |
| Tokenizer.CapacityAsWritten | os_assignment_2/shell.c:82-97 | with the growth test as written the capacity is at least 10 and at least the token count |
| Tokenizer.CapacityAsWrittenClosed | os_assignment_2/shell.c:96-97 | as written, the capacity after n tokens is the least 10 * 2^k that holds n |
| Tokenizer.TerminatorOutOfBoundsAsWritten | os_assignment_2/shell.c:96-126 | as written, 10 * 2^k tokens fill the array exactly, so the NULL store lands one past its end |
| Tokenizer.TenArgumentsOverflowAsWritten | os_assignment_2/shell.c:78-126 | any stage of ten single-space-separated words has ten tokens and a capacity of ten as written |
| Tokenizer.CapacityReserved | os_assignment_2/shell.c:96-97 | with the corrected growth test the capacity always exceeds the token count |
| Tokenizer.ReadArgvStrs | os_assignment_2/shell.c:111-126 | reading string slots followed by more slots up to the first NULL gives the strings, then what the rest reads |
| Tokenizer.ArgvSlots | os_assignment_2/shell.c:111-126 | the NULL-terminated array has one slot more than the tokens, and reading it up to the first NULL, as `execvp` reads `argv` (shell.c:242), gives back exactly the tokens, in order |
| Tokenizer.Grow | os_assignment_2/shell.c:97-107 | the reallocated array is twice as large and keeps every old slot |
| Tokenizer.RunEnd | os_assignment_2/shell.c:92-93 | the scan stops at the first delimiter after the start of a token, or at the end |
| Tokenizer.Push | os_assignment_2/shell.c:96-111 | the token is stored at index count after growing if needed; earlier slots are kept |
| Tokenizer.Scan | os_assignment_2/shell.c:92-123 | one `strtok` step keeps the stored tokens equal to the tokens of the text scanned so far |
| Tokenizer.Tokenize | os_assignment_2/shell.c:78-128 | the array holds exactly `Split` of the text in order, then NULL at index count, inside the allocation |
| Tokenizer.MakeCmd | os_assignment_2/shell.c:78-128 | the argument vector is the blank-separated tokens of the stage, NULL-terminated |
| Tokenizer.Parse | os_assignment_2/shell.c:131-181 | the stage list is the `\|`-separated non-empty fields of the line, NULL-terminated |
| StageText.BeforeAmpersand | os_assignment_2/shell.c:193-197 | the cut is a prefix of the text, contains no '&', and stops exactly at the first '&' |
| StageText.TrimTrailing | os_assignment_2/shell.c:200-203 | the trimmed text is a prefix, does not end in a space or tab, and only spaces and tabs were removed |
| StageText.AmpersandDiscardsRest | os_assignment_2/shell.c:193-197 | everything from the first '&' on is discarded |
| StageText.TrimUnique | os_assignment_2/shell.c:200-203 | the trim result is the only prefix with those two properties |
| StageText.TrimIdempotent | os_assignment_2/shell.c:200-203 | trimming twice is trimming once |
| StageText.TrimKeepsNewline | os_assignment_2/shell.c:201 | a text ending in a newline is not trimmed |
| StageText.FindAmpersand | os_assignment_2/shell.c:193 | `strchr` finds a '&' exactly when there is one, at the position where the cut ends |
| StageText.PrepareStage | os_assignment_2/shell.c:186-203 | the background flag is set iff the stage contains '&', and the buffer is the text cut at '&' and then trimmed |
| StageText.BackgroundStageText | os_assignment_2/shell.c:192-203 | "sleep 5 &\n" runs as "sleep 5" |
| History.Appended | os_assignment_2/shell.c:29-49 | one add never takes the history beyond 100 entries |
| History.AppendAll | os_assignment_2/shell.c:29-49 | any number of adds keeps the history within 100 entries |
| History.AppendedIsNewest | os_assignment_2/shell.c:31-48 | one add keeps the newest 100 of the old entries and the new one: nothing is dropped below capacity, and only the oldest is dropped at capacity |
| History.AppendAllIsNewest | os_assignment_2/shell.c:29-49 | after any sequence of adds the history is the newest 100 entries added, in insertion order |
| History.NothingLostBelowCapacity | os_assignment_2/shell.c:29-49 | up to 100 adds to an empty history keep every entry, in order |
| History.OldestAfter101Adds | os_assignment_2/shell.c:31-37 | after 101 adds the history holds 100 entries and the oldest is the second one added |
| History.AppendedAtCapacityIsShift | os_assignment_2/shell.c:31-48 | at capacity, one add equals the eviction's shift loop (without its `free` calls, `Eviction.ShiftOnly`) followed by the store into slot 99 |
| History.HistoryStore.constructor | os_assignment_2/shell.c:25-26 | the history starts empty |
| History.HistoryStore.Add | os_assignment_2/shell.c:29-49 | below capacity: the entry goes to index count, earlier slots are unchanged and the count grows by one. When full: slots 1..99 move to 0..98, the entry goes to index 99 and the count stays 100. The count never exceeds 100 |
| History.HistoryStore.Listing | os_assignment_2/shell.c:58-66 | one row per stored entry, from slot 0 (the oldest) to the newest; each row has its entry's command and pid, and a duration equal to the end time minus the start time |
| Eviction.ShiftAsWritten | os_assignment_2/shell.c:32-35 | the loop as written keeps the number of slots |
| Eviction.EvictionFreesRetainedAsWritten | os_assignment_2/shell.c:32-35 | as written, evicting from a full history frees the strings that slots 0..n-3 still hold |
| Eviction.EvictCorrected | os_assignment_2/shell.c:32-35 | the corrected eviction keeps the number of slots |
| Eviction.EvictCorrectedFreesOnlyOldest | os_assignment_2/shell.c:32-35 | corrected, only the oldest string is freed, the others move one slot forward, and no retained slot holds a freed string |
| Executor.StageStep | os_assignment_2/shell.c:273-303 | each stage gets its position's input and output; the parent closes only ends it holds, and afterwards holds only the read end for the next stage |
| Executor.WiringIsAPipeline | os_assignment_2/shell.c:271-301 | stage 0 reads stdin and the last stage writes stdout. Stage i writes the write end of pipe i and stage i+1 reads its read end. No pipe end goes to two stages |
| Executor.StageRecord | os_assignment_2/shell.c:250-264 | a stage adds one record iff it forked and is a background stage or exited normally with status 0; otherwise none |
| Executor.PipelineRecords | os_assignment_2/shell.c:273-303 | the stages of a pipeline add at most one record each |
| Executor.PipelineRecordsExactly | os_assignment_2/shell.c:250-285 | a record is in the pipeline's records iff some qualifying stage produced it |
| Executor.PipelineRecordsStep | os_assignment_2/shell.c:285 | recording one more stage applies that stage's record to the history |
| Executor.NoQualifyingStageNoRecord | os_assignment_2/shell.c:250-258 | a pipeline of failed foreground stages leaves no record |
| Executor.TwoSuccessfulStagesTwoRecords | os_assignment_2/shell.c:250-285 | two successful foreground stages add two records, each with its own stage text, in stage order |
| Executor.BackgroundStageRecorded | os_assignment_2/shell.c:259-262 | a background stage adds exactly one record, holding the uncut stage text, the pid, the clock read before `fork` and the clock read after it; given a clock that does not run backwards, its end time is not before its start time |
| Executor.ExecuteCommand | os_assignment_2/shell.c:184-265 | a child is launched iff fork succeeds, with the prepared argument vector, background flag and given descriptors. The history changes exactly by the recording policy; the record, when there is one, holds the original stage text, before the `&` cut and the trim |
| Executor.LaunchedExtend | os_assignment_2/shell.c:273-302 | a correctly wired launch of the next stage extends the launches so far |
| Executor.RunStage | os_assignment_2/shell.c:274-302 | one loop iteration launches the stage iff pipe and fork succeed. The launch gets its position's wiring, the parent is then ready for the next stage, and the history changes only by that stage's record |
| Executor.ExecuteCommands | os_assignment_2/shell.c:268-307 | stages are launched in order with their wiring until the first failed pipe or fork. After a complete run the parent holds no pipe end. The history gains exactly the records of the launched stages, in order |

## Left out

- Real `fork`, `execvp`, `dup2`, `pipe`, `waitpid`, `open("/dev/null")` and `signal(SIGHUP)` are not modelled. Their outcomes for a stage are given as a `StageRun` value: whether `pipe` succeeded, the fork result with the child's exit status, and two clock readings.
- The child's own redirections and its `/dev/null` and SIGHUP set-up (shell.c:211-245) are not modelled, because they happen in another process. The model states what the child receives: its argument vector, background flag and descriptors.
- The reap loop `while (wait(NULL) > 0)` (shell.c:306) is process waiting and is not modelled.
- The SIGINT handler and its registration (shell.c:70-75, 318-324) are left out: they are asynchronous signal delivery. The listing itself is `Listing`.
- The prompt, `getlogin_r`/`gethostname`/`getcwd`, `fgets`, the `exit`/`history` built-ins and the main loop (shell.c:317-404) are interactive I/O and are left out.
- `main` in fib.c (`atoi`, `printf`) is I/O and is left out.
- Allocation failures of `malloc`, `realloc` and `strdup` lead to `exit` and are not modelled, and neither are the messages from `perror` and `printf`. `cleanup` (shell.c:310-314) is not modelled. The only `free` calls modelled are those of the eviction loop, in `Eviction`.
- `strtok` writes NUL bytes into the buffer it scans. The model computes the same tokens from the unmodified text.
- The duration is a floating-point `difftime` printed with two decimals (shell.c:59, 64). It is modelled as the integer difference of the two clock values.
- `pid_t` and `time_t` are unbounded integers here.
- A failing `close` only prints a message (shell.c:289-299), so it is not modelled.
- `fd[0]` is never assigned for a one-stage pipeline. It is modelled as the descriptor value `Unset`, which is never used.
- Executor.ExecuteCommands: says nothing about the pipe ends held after a failed `pipe` or `fork`, because the shell exits at that point.
- History.HistoryStore.Add: models only the logical contents of the history. Which command strings are freed is modelled separately in `Eviction`, where the loop as written is shown to free retained strings.
- Tokenizer.Tokenize, Tokenizer.MakeCmd, Tokenizer.Parse, Tokenizer.Push and Tokenizer.Scan: are stated with the corrected growth test (`CapacityReserved`, grow when `count + 1 >= capacity`), so the NULL store stays inside the array. The growth test as written is `CapacityAsWritten`; see Findings.
- Strings are Dafny sequences and may contain the character NUL, which `strtok`, `strchr` and `strlen` treat as the end of the text. The model reads the whole sequence. For a line with a NUL byte in it, the shell stops at the first NUL and the model does not, so `Tokenizer.Split`, `StageText.BeforeAmpersand`, `StageText.FindAmpersand`, `StageText.PrepareStage` and the tokenising methods describe the shell only for text without NUL.
- Executor.BackgroundStageRecorded: assumes a clock that does not run backwards (`run.startClock <= run.endClock`). The code only reads the clock before `fork` and again after it, and nothing in it guarantees that order on the values.

## Findings

| source | as written | input that shows it | evidently intended | confidence | as-written member | corrected member |
|---|---|---|---|---|---|---|
| os_assignment_2/shell.c:96-126 | the array grows only when `command_count >= capacity` before a store, so 10, 20, 40, … tokens fill it exactly and `command[command_count] = NULL` writes one slot past the allocation (the same applies at shell.c:149-179 in `parse`) | the stage "a b c d e f g h i j": ten arguments in an array of capacity 10 | keep a slot for the terminator: grow when `command_count + 1 >= capacity` | high, not executed | Tokenizer.TerminatorOutOfBoundsAsWritten | Tokenizer.Tokenize |
| os_assignment_2/shell.c:32-34 | step i frees the string in slot i-1, but from step 2 on, slot i-1 holds the same string the previous step copied into slot i-2. Evicting from a full history therefore frees the oldest string and also the strings that slots 0..97 keep, which are later read after being freed and freed a second time | 101 successful commands; the 101st add frees the strings held by slots 0..97 | free the oldest string once, then shift | high, not executed | Eviction.EvictionFreesRetainedAsWritten | Eviction.EvictCorrectedFreesOnlyOldest |
