# tinyrl-telnet command line, modelled in Dafny

This project models the command-line front ends of tinyrl-telnet and the
application's phase machine, and proves what they promise. Both front ends
drive the tinyrl line editor:

- **Telnet session** (`src/cli_telnet.c`): one session per connection.
- **Local prompt** (`src/cli_prompt.c`): the program's own terminal.
- **Main loop** (`src/main.c`): steps through the application's phases.

Each front end does the following:

- Declares the same five-entry command table and looks names up in it by
  unambiguous prefix. The lookup takes the first entry the name begins
  with, unless the next entry begins with it too.
- Trims each line in place.
  - The telnet session trims every `isspace` character.
  - The prompt trims only spaces and tabs.
- Adds non-blank lines to the history, then executes them.
- Splits a line into a command word and an argument by writing a NUL into
  the buffer, then dispatches on the word.
- Binds TAB, SPACE and ENTER to a completion routine. The routine finds the
  word ending at the cursor and offers every table name to the engine.

The main loop is a `switch` over the current phase. It runs START → INIT →
IDLE → QUIT → DEINIT_CLI → DEINIT_APP → CLOSE. Other threads may request a
phase, and the request is adopted only in the idle phase.

Modules, one per file:

- `CText` (`ctext.dfy`):
  - NUL-terminated buffers (`array<char>`) and the C strings inside them.
  - The trim specification `Strip` and the in-place trim `TrimInPlace`.
- `Commands` (`commands.dfy`):
  - The table and the lookup (`Lookup`, with the loop `ScanTable`).
  - The line split (`SplitAt`, with the in-place `IsolateWord`).
- `Help` (`help.dfy`): the three forms of `help` and the loops printing them.
  Those forms are the full listing, the single entry, and the unknown
  command followed by the names in groups of six. The prompt prints each
  group on one row. The telnet session prints each name on its own line and
  an extra line break after every sixth name.
- `Completion` (`completion.dfy`): `complete` and the TAB and SPACE keys.
- `Engine` (`engine.dfy`):
  - The tinyrl calls the front ends make while completing a word and while
    accepting and executing a line, recorded in order as `EngineCall`s.
  - The engine's answers, supplied as parameters (`Answers`, the lines
    read, the line and cursor a key handler sees).
- `Frontend` (`frontend.dfy`): what both front ends do with a line. The
  differences between them are held in a `Dialect`: trimmed characters,
  error-message lead, help layout, and the empty-name guard.
- `CliTelnet` (`cli_telnet.dfy`): the telnet session loop. A quit ends the
  session.
- `CliPrompt` (`cli_prompt.dfy`): the prompt loop. A quit only requests the
  quit phase from the main loop.
- `MainApp` (`main_app.dfy`): the phase machine. It is given both as the
  function `Transition` and as the class `App`, which holds the two globals.
- `Wrappers` (`wrappers.dfy`): `Option`.

Code that changes state in place is modelled imperatively: the trim, the
command-word cut, the scans, the help loops, the key handlers, the read
loops and the phase machine. Each such method is proved equal to a
specification function. The properties are proved about those functions.

Notes on the code as written:

- Telnet's lookup guards with `name == '\0'`, which compares the pointer, so
  it is only a second NULL test. An empty name is therefore scanned like any
  other. On this table the scan still finds nothing, because `command_1` and
  `command_2` both begin with the empty name (`Commands.EmptyQueryFindsNothing`).
  The prompt's lookup turns the empty name away before the scan.
- The table comment asks for alphabetical order, and `?` after `quit`
  breaks it. What the lookup needs is weaker: entries sharing a prefix sit
  next to each other. The table has that property
  (`Commands.TablePrefixGroupsAdjacent`), and under it the lookup is exactly
  "the only entry that begins with the name" (`Commands.TableLookupIsUnique`).
- The history receives `line`, not the trimmed `cmd`. After the in-place trim
  that is the line without its trailing white space, with its leading white
  space kept. The model keeps exactly that.

## Model

| member | source | states |
|---|---|---|
| CText.StrLen | src/cli_telnet.c:185 | `strlen`: the distance to the first NUL, with no NUL before it |
| CText.CStrOfTerminated | src/cli_telnet.c:285 | a line the engine returns, stored with its terminator, is read back unchanged as a C string |
| CText.CStrSuffix | src/cli_prompt.c:115-118 | advancing a pointer by `d` inside a C string gives the string without its first `d` characters |
| CText.Lead | src/cli_telnet.c:178-179 | the leading scan stops at the first character outside the trimmed set; all before it are inside |
| CText.Trail | src/cli_telnet.c:185-187 | the trailing scan stops at the last character outside the trimmed set; all after it are inside |
| CText.Strip | src/cli_telnet.c:171-193 | trimming yields a contiguous part of the line with no trimmed character at either end; it is empty exactly when every character is trimmed |
| CText.StripUnique | src/cli_telnet.c:171-193 | any cut of the line into trimmed run, middle and trimmed run has Strip's result as its middle |
| CText.StripIdempotent | src/cli_telnet.c:171-193 | trimming twice equals trimming once |
| CText.StripNarrows | src/cli_prompt.c:134-141 | trimming a subset of characters never cuts deeper at either end |
| CText.LeadAt | src/cli_telnet.c:178-179 | a run of trimmed characters ended by another character is the leading run |
| CText.CutAfter | src/cli_telnet.c:190 | writing a NUL after index `e` makes the C string at any `s <= e` end at `e` |
| CText.TerminateAfter | src/cli_telnet.c:184-192 | a NUL after the last kept character leaves the stripped line at `s`, and the line without its trailing white space at the buffer's start |
| CText.TrimmedAway | src/cli_telnet.c:181-182 | when the leading scan reaches the NUL the line trims to nothing and the buffer is untouched |
| CText.TrimmedLine | src/cli_telnet.c:171-193 | after the trim the stripped line starts at the first kept character, the buffer start holds the line without trailing white space, and only a NUL was written |
| CText.NothingTrimmed | src/cli_telnet.c:181-182 | an all-white line leaves the buffer as it was |
| CText.TrimmedAt | src/cli_telnet.c:185-190 | with `s` and `e` the first and last kept characters, the trim writes its NUL at `e + 1` |
| CText.TrimInPlace | src/cli_prompt.c:129-147 | the in-place trim: the buffer becomes `Trimmed` of the old buffer and the returned start is the length of the leading run |
| Commands.Lookup | src/cli_telnet.c:58-77 | a result is the first entry the name begins with, and the next entry does not begin with it; no result means the first match, if any, is followed by another match |
| Commands.LookupFrom | src/cli_telnet.c:65-76 | the scan from entry `i`, with no match before `i`, meets the same two conditions |
| Commands.ScanTable | src/cli_prompt.c:67-80 | the scan loop returns exactly `Lookup(Table, name)` |
| Commands.FindCommand | src/cli_prompt.c:59-81 | the guarded lookup returns `Lookup(Table, name)` and nothing for an empty name |
| Commands.AdjacentLookupIsUnique | src/cli_telnet.c:67-73 | on a table whose prefix groups are adjacent, the lookup finds entry `i` exactly when `i` is the only entry that begins with the name |
| Commands.SharedPrefixes | src/cli_telnet.c:42-51 | two entries of the table share only the empty prefix, except `command_1` and `command_2` |
| Commands.TablePrefixGroupsAdjacent | src/cli_telnet.c:41-51 | the table, though not alphabetical, keeps entries sharing a prefix next to each other |
| Commands.TableLookupIsUnique | src/cli_prompt.c:59-81 | on the table, the lookup returns an entry exactly when the name selects that entry only |
| Commands.EmptyQueryFindsNothing | src/cli_telnet.c:62-70 | the empty name finds nothing even without the guard, because the first two entries both begin with it |
| Commands.LookupExamples | src/cli_prompt.c:43-81 | `h`→help, `q`→quit, `?`→help, `command_2`→command_2, `command`→none, `helpme`→none |
| Commands.WordLen | src/cli_telnet.c:102-103 | the command word runs up to the first space or tab |
| Commands.SplitAt | src/cli_telnet.c:92-118 | the line divides into leading blanks, a maximal word, maximal blanks and the argument |
| Commands.SplitUnique | src/cli_telnet.c:92-118 | that division is the only one |
| Commands.RestOffset | src/cli_telnet.c:105-106 | the scan resumes one past the word's end exactly when a blank ended it, at the word's end (the line's end) otherwise |
| Commands.CutWord | src/cli_telnet.c:105-107 | on raw offsets, after the cut the word and the rest of the line are each a C string of their own |
| Commands.CStrOfPart | src/cli_telnet.c:100-106 | a part of the line ended by a NUL is the C string at its start |
| Commands.IsolatedContents | src/cli_prompt.c:100-107 | after the cut the buffer holds the command word at its start and the rest of the line, unchanged, at the resume offset |
| Commands.ArgumentAfterRest | src/cli_prompt.c:114-118 | skipping blanks from the resume offset lands on the argument |
| Commands.IsolateWord | src/cli_prompt.c:96-106 | the two scans and the NUL write: the buffer becomes `Isolated`, and the returned indices are the word start and the resume offset |
| Commands.WordBounds | src/cli_prompt.c:98-103 | the scans stop at the bounds `SplitAt` gives, and a NUL stops the second scan exactly at the line's end |
| Commands.SkipBlanks | src/cli_prompt.c:115-116 | the blank scan stops at the first non-blank of the C string, which goes on unchanged there |
| Commands.BlanksSkipped | src/cli_telnet.c:115-118 | where the blank scan stops, the C string goes on unchanged |
| Commands.ReadArgument | src/cli_telnet.c:114-118 | the argument is the rest of the line without its leading blanks |
| Help.EntriesAppend | src/cli_prompt.c:318-321 | the listing of two runs of entries is the first listing followed by the second |
| Help.EntriesInOrder | src/cli_telnet.c:434-438 | every entry is listed, right after the entries before it |
| Help.ColumnsStep | src/cli_prompt.c:335-346 | printing name `i` extends what was printed for the names before it |
| Help.ItemAfterRow | src/cli_prompt.c:338-344 | six names on, the break pattern repeats, except that index six breaks and index zero did not |
| Help.Chunks | src/cli_prompt.c:337-346 | the rows hold six names each, except the last, which holds one to six, and laid end to end they are the names in order |
| Help.RowTextSnoc | src/cli_prompt.c:344 | adding a name at the end of a row appends its text |
| Help.ColumnsOfOneRow | src/cli_prompt.c:335-346 | up to six names print as one row, with no break |
| Help.ColumnsAfterFullRow | src/cli_prompt.c:338-342 | after six names the loop prints a break and restarts its count |
| Help.ColumnsAreRows | src/cli_telnet.c:446-460 | the column loop prints the names cut into groups of six, joined by the dialect's group break |
| Help.TableNamesFitOneRow | src/cli_prompt.c:43-52 | the table's five names fit in one row |
| Help.HelpWithoutArgument | src/cli_prompt.c:315-322 | with no argument, every entry is listed in table order |
| Help.HelpForOneEntry | src/cli_prompt.c:324-327 | an argument that exactly one entry begins with shows that entry only |
| Help.HelpForUnknown | src/cli_prompt.c:329-349 | any other argument is named as unknown, followed by all names in groups of six and the closing hint |
| Help.PrintEntries | src/cli_telnet.c:434-438 | the listing loop prints `Entries` of the table |
| Help.PrintColumns | src/cli_telnet.c:446-460 | the loop that counts `printed` and resets it at six prints `Columns` of the names |
| Help.BreakDue | src/cli_prompt.c:338-345 | the count reaches six exactly when the index is a positive multiple of six |
| Help.PrintHelp | src/cli_telnet.c:427-463 | the help command prints `HelpText` of its argument |
| Completion.WordStart | src/cli_telnet.c:140-143 | the start is at or before the cursor, nothing between them is white space, and it begins the line or follows white space |
| Completion.WordStartBelow | src/cli_telnet.c:142-143 | the backward scan from `i` meets the same property |
| Completion.WordStartUnique | src/cli_prompt.c:201-205 | that start is unique |
| Completion.MatchCalls | src/cli_telnet.c:148-154 | every table name is offered, in table order, at the word start |
| Completion.CompletionOf | src/cli_telnet.c:131-165 | no engine call happens exactly when an empty word is allowed; success means that, or a non-empty match list completed; the engine completes exactly when the list was built and is non-empty |
| Completion.EmptyWordShortCircuits | src/cli_telnet.c:144-145 | with an empty word allowed, the cursor after white space succeeds without consulting the table |
| Completion.NoMatchesFails | src/cli_prompt.c:209-219 | with no match list, completion fails having only offered names |
| Completion.CompletionMakesNoLineCalls | src/cli_prompt.c:193-227 | completion never ends the line or inserts text |
| Completion.Complete | src/cli_prompt.c:193-227 | `complete` returns `CompletionOf` of its inputs |
| Completion.CompleteAndSpace | src/cli_telnet.c:199-219 | one space is inserted exactly when completion succeeded, and the key succeeds only if the match, the completion and the insertion all did |
| Completion.TabKey | src/cli_telnet.c:199-206 | TAB completes without prefixes or empty words, then inserts a space on success |
| Completion.SpaceKey | src/cli_prompt.c:238-245 | SPACE completes accepting prefixes, then inserts a space on success |
| Frontend.ExecutionDispatches | src/cli_telnet.c:107-121 | a function is invoked exactly when the word resolves; it is the entry's, on the argument; only help prints; an unresolved word is named in the error |
| Frontend.DispatchExecutes | src/cli_prompt.c:105-121 | dispatching on the cut-off word and the rest executes the line |
| Frontend.Dispatch | src/cli_telnet.c:107-121 | lookup, then the error message or the blank skip and the invocation |
| Frontend.ExecuteCommand | src/cli_prompt.c:89-122 | the buffer becomes `Isolated` and the outcome is `Execution` of the line |
| Frontend.AcceptLine | src/cli_prompt.c:290-297 | trim, then history and execution only for a non-blank line: `LineOutcome` of the line; the buffer is left trimmed and, if anything was left, with its command word cut off |
| Frontend.BlankLineDoesNothing | src/cli_prompt.c:290-297 | in either front end, a line of trimmed characters only is neither added to the history nor executed |
| Frontend.HistoryComesFirst | src/cli_telnet.c:288-296 | in either front end, any other line is added to the history, trailing trimmed characters cut, before its execution, which gets the line trimmed at both ends |
| Frontend.OutcomeAt | src/cli_prompt.c:282-300 | entry `k` of the outcomes is line `k`'s |
| Frontend.ReadAndAccept | src/cli_prompt.c:286-297 | accepting line `i` in a fresh buffer gives that line's outcome |
| Frontend.AllCallsAppend | src/cli_prompt.c:282-300 | the calls of two runs of lines are the first run's followed by the second's |
| CliTelnet.TrimSpaceChar | src/cli_telnet.c:171-193 | the telnet trim is the in-place trim over every `isspace` character |
| CliTelnet.TrimmedHasNoSpaceAtEnds | src/cli_telnet.c:171-193 | the trimmed line has no white space at either end and is unchanged by a second trim |
| CliTelnet.EnterKey | src/cli_telnet.c:225-236 | ENTER completes with prefixes and empty words allowed, and outputs CRLF and finishes the line only on success |
| CliTelnet.RunStopsAtFirstQuit | src/cli_telnet.c:283-297 | when line `k` is the first to quit, the session makes the calls of lines 0 to `k` and ends |
| CliTelnet.RunWithoutQuit | src/cli_telnet.c:283-297 | when no line quits, the session makes every line's calls and ends with the input |
| CliTelnet.SessionCons | src/cli_telnet.c:283-297 | a session is its first line, then, unless that line quits, the session on the rest |
| CliTelnet.BlankLineIsSkipped | src/cli_telnet.c:289-296 | an all-white line is neither added to the history nor executed |
| CliTelnet.HistoryBeforeExecution | src/cli_telnet.c:292-296 | a non-blank line goes to the history, trailing white space cut, before anything its command does |
| CliTelnet.QuitEndsSession | src/cli_telnet.c:470-489 | after a line that quits, no further line is read |
| CliTelnet.QuitLine | src/cli_telnet.c:85-122 | a line trimming to `q` is added to the history and invokes quit with an empty argument, printing nothing |
| CliTelnet.QuitByPrefix | src/cli_telnet.c:283-297 | the line `"  q  "` ends the session whatever follows, with `"  q"` in the history |
| CliTelnet.RunAdvance | src/cli_telnet.c:285-296 | one iteration either ends the session at a quit or adds the line's calls and goes on |
| CliTelnet.RunUnfold | src/cli_telnet.c:285-296 | the session from line `i` is line `i` followed, unless it quits, by the session from `i + 1` |
| CliTelnet.SessionStep | src/cli_telnet.c:285-296 | one pass reads and accepts line `i`: the session ends there if it quits, and otherwise goes on from `i + 1` with the line's calls added |
| CliTelnet.Serve | src/cli_telnet.c:283-297 | the read loop returns exactly `Session(lines)`: the calls made and whether quit ended it |
| CliPrompt.TrimSpaceChar | src/cli_prompt.c:129-147 | the prompt trim is the in-place trim over space and tab |
| CliPrompt.TrimmedHasNoBlankAtEnds | src/cli_prompt.c:129-147 | the trimmed line has no space or tab at either end and is unchanged by a second trim |
| CliPrompt.LineEndsAreKept | src/cli_prompt.c:134-141 | every `\r` and `\n` of a line lies inside the part the prompt's trim keeps; on `" \r\n\t"` the prompt keeps `"\r\n"` and the telnet trim keeps nothing |
| CliPrompt.TrimmedWithinTelnet | src/cli_prompt.c:134-141 | the prompt's trim never cuts deeper than the telnet one at either end |
| CliPrompt.CommandQuit | src/cli_prompt.c:356-359 | quit requests the quit phase and leaves the current phase alone |
| CliPrompt.ExecuteCommand | src/cli_prompt.c:89-122 | executing a line gives `Execution`; the quit phase is requested exactly when quit was invoked |
| CliPrompt.EnterKey | src/cli_prompt.c:247-263 | ENTER always finishes the line, and outputs CRLF exactly when completion succeeded |
| CliPrompt.AnyQuitsAt | src/cli_prompt.c:282-300 | `AnyQuits` holds exactly when some line's outcome quits |
| CliPrompt.AnyQuitsAppend | src/cli_prompt.c:282-300 | two runs of lines quit together when either run quits |
| CliPrompt.AnyQuitsSnoc | src/cli_prompt.c:282-300 | lines up to `i` quit when the earlier ones do or line `i` does |
| CliPrompt.PromptStep | src/cli_prompt.c:286-299 | one pass adds line `i`'s calls, and requests the quit phase exactly when that line invoked quit |
| CliPrompt.Serve | src/cli_prompt.c:281-300 | one CRLF, then every line's calls, with no stop at quit; quit is requested exactly when some line quits, and the current phase is untouched |
| CliPrompt.CallsAdvance | src/cli_prompt.c:282-300 | one iteration appends line `i`'s calls |
| CliPrompt.BlankLineIsSkipped | src/cli_prompt.c:290-297 | a line of spaces and tabs only leaves no trace among the prompt's calls |
| CliPrompt.HistoryBeforeExecution | src/cli_prompt.c:293-296 | a line with anything but spaces and tabs goes to the history, trailing blanks cut, before anything its command does |
| CliPrompt.ReadsOnAfterQuit | src/cli_prompt.c:282-300 | a line's calls are followed by every later line's, whatever it invoked |
| MainApp.Transition | src/main.c:49-110 | CLOSE_APP and only it ends the program; only the idle phase clears the pending phase; every other known phase advances by one, keeping the pending phase |
| MainApp.EndedStaysEnded | src/main.c:100-104 | once ended, the machine stays ended |
| MainApp.StepsCompose | src/main.c:47-111 | `j` passes after `k` passes are `k + j` passes |
| MainApp.StartupReachesIdle | src/main.c:51-64 | START_APP → INIT_CLI → APP_IDDLE, keeping any pending phase |
| MainApp.IdleIsStable | src/main.c:66-79 | with nothing pending, the idle phase stays idle for any number of passes |
| MainApp.IdleAdoptsPending | src/main.c:70-74 | the idle phase makes a pending phase current and clears the pending slot |
| MainApp.UnknownFallsBackToIdle | src/main.c:106-109 | a value with no case falls back to idle |
| MainApp.QuitClosesInFour | src/main.c:66-104 | from idle with quit pending, CLOSE_APP comes in exactly four passes, and the fifth ends the program |
| MainApp.QuitDuringStartupCloses | src/main.c:57-104 | a quit requested by a command line during the INIT_CLI pass ends the program on the sixth pass from INIT_CLI; one pending at START_APP on the seventh |
| MainApp.ShutdownIgnoresRequests | src/main.c:82-104 | once QUIT_APP is current, CLOSE_APP follows in three passes whatever is pending, and the fourth ends the program |
| MainApp.App.constructor | src/main.c:43-45 | starts in START_APP with nothing pending |
| MainApp.App.Step | src/main.c:49-110 | one pass of the switch makes the state `Transition` of the old one, or reports the end |
| MainApp.App.Run | src/main.c:47-111 | `fuel` passes give `Steps` of the old state, ending in CLOSE_APP if the program ended |
| MainApp.App.SetMachineState | src/main.c:120-123 | only the pending phase changes |
| MainApp.App.QuitApplication | src/main.c:147-150 | the pending phase becomes QUIT_APP and the current one is kept |

## Left out

- Sockets, the accept loop, threads and their creation, detaching and cancelling (`cli_telnet_init`/`deinit`, `cli_prompt_init`/`deinit`). These are I/O and concurrency. The interleaving of the two front ends with the main loop is not modelled either; each front end's loop runs on its own.
- The telnet option bytes written on connect (IAC WILL SUPPRESS-GO-AHEAD, IAC WILL ECHO, RFC 854 with RFC 858 and RFC 857) and `fdopen` on the socket: constant writes with no logic.
- The quit command's teardown on telnet (`close`, `fclose`, `free`, `pthread_exit`). It is modelled only by its effect: the session ends and no further line is read.
- Terminal settings (`tcgetattr`/`tcsetattr`), `getopt`, the usage text, the `usleep` pacing of the idle phase, and the progress messages `main` prints: library and timing calls.
- The tinyrl engine itself: line buffer, redisplay, keymap, history storage and eviction, the match list and longest-prefix completion. The calls made while completing, accepting and executing are recorded as `EngineCall`s; its answers are the `Answers` parameter or the list of lines read, with no contract assumed.
- The engine's set-up and tear-down calls are not recorded: `tinyrl_new`, `tinyrl_history_new` (with the sizes 5 and 0), `tinyrl_history_delete` and `tinyrl_delete` at the end of the prompt loop. The prompt loop's trace therefore ends with the last line's calls.
- The key bindings made with `tinyrl_bind_key` are not modelled as calls. TAB, carriage return and space are bound to `tab_key`, `enter_key` and `space_key` in both front ends; the model gives these handlers as `TabKey`, `EnterKey` and `SpaceKey`, called directly.
- `tinyrl__get_line` and `tinyrl__get_point` are not recorded: the line and the cursor are parameters of the key handlers.
- `Engine.Output`: consecutive `tinyrl_printf` calls that print one block are recorded as a single output of their concatenated text.
- The command stubs `command_1` and `command_2`: they do nothing, so an invocation of them is recorded and nothing else.
- The leaked 64-byte buffers of the telnet session and the `free(line)` of the prompt: memory management. Each line is given a fresh buffer.
- The NULL line that ends input is the end of the `lines` sequence. The NULL name guard of both lookups is not modelled, because no caller passes NULL.
- The main loop's `for (;;)` is modelled with a `fuel` bound of passes; the infinite run is the limit of those.
- A C `char` is a byte, and `point` and the line indices are byte offsets; the model's `char` is a Unicode character and its indices count characters. The two agree because every character the code tests is ASCII: the blanks, the C-locale `isspace` set and the table names.
- The documentation strings of the table are empty in the source and modelled as such.
