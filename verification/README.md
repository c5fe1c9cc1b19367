# hand2 verification

A Dafny model of the self-contained cores of hand2, the tool that collects, grades and announces
homework, with proofs about them. Responses of GitHub and Google, files and child processes are
given as values or functions; what the code does with them is proved.

Run `dafny verify dfyconfig.toml` to check everything.

## What is modelled

**Late days and cutoff** (`LateDays`). `calculate_cutoff` stretches a deadline round by round,
`calculate_late_submission_day` charges late days by a closed form. The charge is stated day by day in
UTC seconds, and the source's own table of examples holds in every week. Nothing submitted up to the
cutoff is ever charged more than the allowance. The converse, which README.md:895-901 of the repository
suggests, is false in general: every round that sees an odd number of weekend days loses half a day. The
proof gives the exact charge at the cutoff and the exact condition under which the cutoff is the latest
acceptable time, and a Saturday that shows the condition is needed. Without the weekend rule the
condition is that a 32-bit product does not wrap; 24856 days show what happens when it does.

**Grading pool** (`WorkPool`). Threads claim jobs from a shared counter by compare-and-swap and run two
callbacks under one mutex. Every interleaving is a run of a transition system. Proved: an inductive
invariant, mutual exclusion, one claim per job, a bound on the length of every run with failed swaps
included, absence of deadlock, and that a finished pool in whose schedule some creation succeeded has
run every job exactly once, in the right order of callbacks, and stored the exit code its process
returned; otherwise nothing ran. Nothing else restricts the schedule.

**Pushes** (`Pushes`, `PushHistories`). Batches of up to 64 repositories share a page counter; a
repository is done on its own event or on an empty page; a fallback may be overwritten later and a head
that no push reports overrides. Proved: each repository's result is a function of its own events alone;
and given what happened to the repository, in whatever events GitHub reports it newest first, that
function is the latest push to the branch or its creation before the cutoff. Events of other branches
change nothing.

**Buffers, string arrays, words, sheet** (`PowersOfTwo`, `GrowableBuffers`, `StringArrays`, `Words`,
`Sheets`). Growth by the next power of two with a bound on what is ever copied, pointers rebased when a
buffer moves, the maximal words of a file, and a rectangular table read back from one buffer of
NUL-separated strings.

**Config** (`ConfigLexer`, `ConfigPairs`, `ConfigNames`, `ConfigRoundTrip`, `ConfigLoading`). The
four-slot lookahead ring refines the token stream of the text. A lookahead of three, which the assertion
in `peek_token` admits, would fill the ring, make it look empty and lose four tokens; the contract says
so and an example shows it. Parsing returns exactly the rendered pairs, whatever white space and
comments stand between their tokens, and the model says what is lost around a stray word or another
character. Loading a rendered file gives each name the value of the last entry that stands for it, and
succeeds if and only if every name has such an entry; a file with a line for each of the fifteen names
always loads.

**Feedback templates** (`Templates`, `TemplateParts`, `FileReplacement`, `FeedbackIssues`, `Feedback`).
Two scanners with depth counters, which end a name in place by a temporary NUL. Proved: each computes
its stage and leaves the template bytes as they were; the first one alone changes nothing if and only if
every placeholder is closed and none names a file; the two stages together are one substitution, which
is stated on the bytes of the template's parts; so the issue of each student, after grading has written
the reports and announcing has read them, is the template with the student's files and cells put in.

**JSON** (`Utf8`, `JsonStrings`, `JsonPieces`, `JsonSpellings`, `JsonEscapes`, `JsonNumbers`,
`JsonText`, `JsonLayouts`, `JsonNumerals`, `JsonRoundTrip`, `JsonAcceptance`, `JsonItems`, `JsonTrees`,
`JsonParser`, `JsonPrinter`, `JsonMemoryRoundTrip`, `ChildLists`, `JsonEdits`). cJSON's parser fills
linked items in memory while it advances an offset and a depth; the printer walks them and writes
through a buffer that moves, re-finding its end by the NUL behind what a nested call wrote.
`JsonTrees.Holds` says that the items of a tree hold a JSON value. Proved:

- the parser computes the parsing function of `JsonText`, and its items hold the result;
- that function gives every layout of a value the value, if and only if it is nested at most 1000 deep. A
  layout (`JsonLayouts`) has any blanks between the tokens, any pieces without a lone surrogate in its
  strings, and numbers of at most 63 characters, leading zeros allowed;
- conversely, a text that is consumed to its end is a layout if and only if it is tidy: no escape `\u` is followed by a
  quote or a backslash within four bytes. The two passes over a string read such an escape differently,
  and an example shows a closing quote taken for a part of the string;
- the printer writes exactly the text of the value, and fails if and only if that text and two more bytes
  would pass INT_MAX. That text is a layout, so parsing gives the value back; and whatever was parsed and
  can be printed parses to itself again;
- the two passes of the string decoder never write outside the output for any input, malformed escapes
  included; a string in which each code point is spelled in any way of RFC 8259 section 7 parses to its
  UTF-8 (RFC 3629 section 3, RFC 2781 section 2.2; `JsonSpellings`). Where RFC 8259 refuses an escape
  without four hex digits, this decoder reads a zero;
- when they succeed, append, insert and replace leave the child list with the new item if and only if that item
  was not in the list (or replaces itself), is not the array, and, when it goes behind other items, had no
  next link; detach always leaves the list without its item. On an array's value they act as append,
  insert, update and remove.

Bytes are integers from 0 to 255. Integers are unbounded except where a width is written out.
Sizes are kept below 2^63 and counts below 2^30, as `size_t` and `int` need.

## Model

| member | source | states |
|---|---|---|
| `LateDays.WeekendDaysCountsEachDay` | code/hand.c:50-53 | the closed form counts the Saturdays and Sundays of any span as a day-by-day count does |
| `LateDays.FirstPenaltyWeekdayHoldsTheMajority` | code/hand.c:10-41 | the noon test picks the local day that holds the larger part of the 24 hours after a time, the later one on a tie |
| `LateDays.FirstPenaltyWeekdayAdvances` | code/hand.c:48-52 | moving a time by whole days moves the weekday by as many, so the rounds may track it |
| `LateDays.LateDaysZeroUntilDeadline` | code/hand.c:59-77 | the late-day count is 0 up to the deadline and at least 1 after it |
| `LateDays.LateDaysMonotone` | code/hand.c:59-77 | submitting later is never charged less |
| `LateDays.LateDaysOneMoreDay` | code/hand.c:59-77 | one more day costs at most one late day |
| `LateDays.LateDaysOneMoreWeek` | code/hand.c:59-77 | after the deadline, seven more days cost exactly six with the weekend rule and seven without |
| `LateDays.WeekdayChangesAtMidnight` | code/hand_common.h:131-140 | the weekday changes at 16:00 UTC and at no other second; 2024-03-22 12:00 local is a Friday |
| `LateDays.FirstPenaltyWeekdayInSeconds` | code/hand.c:47-48 | the first penalty weekday as a number of seconds since 1970 in UTC |
| `LateDays.LateDaysDayByDay` | code/hand.c:59-77 | the charge is the days begun less half of the Saturdays and Sundays among them, counted one by one from a weekday given in UTC seconds |
| `LateDays.FridayMidnightExample` | code/hand.c:18-26 | the first case of the source's table, in every week |
| `LateDays.FridayMorningExample` | code/hand.c:28-33 | the second case of the table, in every week |
| `LateDays.FridayNoonExample` | code/hand.c:35-41 | the third case of the table, in every week |
| `LateDays.CalculateCutoff` | code/hand.c:7-57 | the loop terminates and computes the cutoff function, with the last product in 32 bits |
| `LateDays.SpanWeekendBalance` | code/hand.c:7-57 | every weekend day the rounds met is given back as half a day or lost in an odd round |
| `LateDays.ChargeAtCutoff` | code/hand.c:7-77 | the charge at the cutoff is the allowance less half the number of odd rounds |
| `LateDays.CutoffIsSound` | code/hand.c:7-77 | for every deadline, rule and allowance that is not negative, nothing up to the cutoff is charged more than the allowance |
| `LateDays.CutoffExactIff` | code/hand.c:7-77 | the cutoff is exactly the latest acceptable time if and only if no round is odd, or one is and the next day is no weekend day; without the rule, if and only if the product fits 32 bits |
| `LateDays.CutoffInexactWhenNotTight` | code/hand.c:7-77 | a time that shows the mismatch whenever the condition fails |
| `LateDays.CutoffWithoutRounds` | code/hand.c:44-57 | without the rule, or with no days to give, the cutoff lies as many days after or before the deadline |
| `LateDays.SaturdayCutoffIsNotTheLatest` | code/hand.c:7-77 | a Friday deadline with one cutoff day: Sunday is charged one day but lies after the cutoff |
| `LateDays.WrappedCutoffIsNotTheLatest` | code/hand.c:7-77 | 24856 cutoff days without the rule: the product wraps and the cutoff falls before the deadline |
| `LateDays.ThursdayDeadlineExample` | README.md:895-901 | a Thursday deadline with three cutoff days is stretched by four days |
| `LateDays.FridayEveningCutoff` | code/hand.c:7-57 | two cutoff days after Friday 19:00 local end three days later, in every week |
| `WorkPool.StepKeepsInv` | code/linux_main.c:412-431 | every step of the main thread or a worker keeps the invariant that ties counter, claims, mutex and exit codes to the events of each job |
| `WorkPool.RunKeepsInv` | code/linux_main.c:412-466 | every reachable state satisfies it |
| `WorkPool.HolderStepOwnJobOk` | code/linux_main.c:271-277 | a step of a job's claimer extends that job's events in the prescribed order |
| `WorkPool.ClaimKeepsInv` | code/linux_main.c:420 | a successful swap hands out a job nobody had |
| `WorkPool.StepLowersMeasure` | code/linux_main.c:412-431 | every step lowers a measure, failed swaps included |
| `WorkPool.RunsAreBounded` | code/linux_main.c:412-466 | no schedule is longer than a bound given by jobs and threads |
| `WorkPool.UnfinishedRunsContinue` | code/linux_main.c:433-466 | some step is possible until the main thread has joined every worker |
| `WorkPool.PoolIsSafe` | code/linux_main.c:271-277 | never two callbacks at once, never a job in two hands, the counter within the job count, the claimed jobs exactly those below the counter |
| `WorkPool.JobsAreClaimedOnce` | code/linux_main.c:412-431 | all events of a job belong to one thread and start with its only claim |
| `WorkPool.FinishedPoolHasRunEveryJobOnce` | code/linux_main.c:433-466 | after the joins: if a creation in the schedule succeeded, every job was claimed, went through its callbacks in order, ran and stored its code, once and by one thread; if none did, nothing happened |
| `WorkPool.CodesAreThoseReturned` | code/linux_main.c:412-431 | the codes of the jobs are those that the processes returned, in the order of the schedule |
| `WorkPool.ThreadsAreThoseCreated` | code/linux_main.c:445-456 | a thread is there if and only if its creation succeeded |
| `WorkPool.EveryChoiceIsOpen` | code/linux_main.c:412-466 | nothing restricts the schedule: a creation may fail, a job may return any code, and every worker may move at any time unless another one holds the mutex it waits for |
| `WorkPool.FailedSwapMeansAnotherClaimed` | code/linux_main.c:416-420 | when a swap fails, another thread has claimed the very job since |
| `Pushes.ScanDecidesOrWaits` | code/hand_curl.c:760-838 | scanning more events either decides with the specified result or leaves the worker waiting |
| `Pushes.WorkerComputesSelection` | code/hand_curl.c:728-845 | after any number of pages a done worker holds the selection from its whole feed |
| `Pushes.DoneAfterFeed` | code/hand_curl.c:840-841 | a worker is done once its feed is past |
| `Pushes.SelectedIsLatestBeforeCutoff` | code/hand_curl.c:708-852 | for newest-first feeds the selection is the latest push or creation before the cutoff with a readable time, with the head's hash when no later push is known, and the creation fallback exactly when there is none |
| `PushHistories.SelectionFromHistory` | code/hand_curl.c:760-852 | given what happened to a repository (pushes, creations of branches and of the repository, anything else) and events that report it: the latest act on the branch before the cutoff is selected, with the push's own hash only when a later push is reported |
| `PushHistories.ReportIsRead` | code/hand_curl.c:760-824 | which events count: the fields, the full ref of a push, the bare branch of a creation, and hashes of 40 characters |
| `PushHistories.EveryEventReports` | code/hand_curl.c:760-824 | every event reports a push, a creation or nothing |
| `PushHistories.OthersChangeNothing` | code/hand_curl.c:760-824 | events of other branches or without the needed fields can be left out anywhere |
| `Pushes.TrueForAll` | code/hand_common.h:24-33 | whether every flag is set |
| `Pushes.ReadPage` | code/hand_curl.c:751-841 | one response: the events up to the deciding one, the override, the fallback; no other row changes |
| `Pushes.ReadPages` | code/hand_curl.c:746-842 | one page of every worker that is not done |
| `Pushes.RunPage` | code/hand_curl.c:728-842 | the next page brings every worker of the batch to where one more page of its own feed does |
| `Pushes.RunBatch` | code/hand_curl.c:728-845 | the shared page loop ends and gives each repository of the batch its own selection |
| `Pushes.RetrievePushesBeforeCutoff` | code/hand_curl.c:708-852 | every repository gets the selection from its own feed, whatever else is in its batch |
| `Bytes.StringLen` | code/hand_common.h:35-42 | the length of the string that stands at a position |
| `Bytes.CompareString` | code/hand_common.h:72-86 | whether two strings are equal |
| `Bytes.CopyMemory` | code/hand_common.h:52-59 | the destination with the source in place, everything else unchanged |
| `Bytes.StringAtIsCString` | code/hand_common.h:35-42 | reading to the next NUL finds the string that was put there |
| `PowersOfTwo.NextPowOfTwo` | code/hand_common.h:11-22 | the least power of two at or above the argument, for 1 to 2^63; 0 for 0 and for larger ones, whose power does not fit 64 bits |
| `PowersOfTwo.SmearStep` | code/hand_common.h:14-20 | each shift-and-or doubles the run of ones below the highest bit |
| `GrowableBuffers.GrowableBuffer.constructor` | code/hand_buffer.c:49-58 | an empty terminated buffer of 4096 bytes |
| `GrowableBuffers.GrowableBuffer.Reserve` | code/hand_buffer.c:10-24 | room for the bytes and a NUL, the content kept, the capacity a power of two below twice the demand or the initial one |
| `GrowableBuffers.GrowableBuffer.Write` | code/hand_buffer.c:26-33 | the content followed by the data, terminated |
| `GrowableBuffers.GrowableBuffer.NullTerminate` | code/hand_buffer.c:35-40 | the content as it was, with a NUL behind it for which there was perhaps no room |
| `GrowableBuffers.GrowableBuffer.Clear` | code/hand_buffer.c:42-47 | the empty content |
| `GrowableBuffers.ReadEntireFile` | code/hand_buffer.c:60-77 | the content of the file |
| `GrowableBuffers.WriteAll` | code/hand_buffer.c:10-33 | after any run of writes: all data in order, capacity below twice the need, and all regrowths together moved fewer bytes than the final capacity |
| `StringArrays.StringArray.ReserveElem` | code/hand_buffer.c:87-100 | room for more pointers, the old ones kept |
| `StringArrays.StringArray.Rebase` | code/hand_buffer.c:125-131 | every pointer at its old offset in the new memory |
| `StringArrays.StringArray.Append` | code/hand_buffer.c:113-134 | the strings and one more, although both writes may move the buffer |
| `StringArrays.ElementsReadBack` | code/hand_buffer.c:113-134 | element i reads as the i-th appended string |
| `Words.BlankSpaces` | code/hand_buffer.c:179-184 | white space becomes NUL, everything else stays |
| `Words.AppendWords` | code/hand_buffer.c:186-194 | a word is appended where a byte follows a NUL, and only there |
| `Words.ReadStringArrayFile` | code/hand_buffer.c:174-197 | exactly the words of the file, in order |
| `Words.WordsOfWeave` | code/hand_buffer.c:174-197 | whatever gaps stand between words, the words come back |
| `Words.WeaveOfWords` | code/hand_buffer.c:174-197 | every text is its words woven with gaps, so words are the maximal runs without white space and NUL |
| `Sheets.Sheet.constructor` | code/hand_buffer.c:235-247 | room for the labels and the grid, every pointer null, and an empty content |
| `Sheets.WriteRows` | code/hand_curl.c:1009-1023 | the content is every cell of the padded rows with a NUL behind it |
| `Sheets.PackedStringAt` | code/hand_curl.c:1025-1036 | the i-th string stands where the strings before it end |
| `Sheets.WalkStrings` | code/hand_curl.c:1025-1036 | the walk stays inside the content and points each slot to its string |
| `Sheets.FillSheet` | code/hand_curl.c:1008-1036 | labels and values are the cells of the padded rows |
| `Sheets.FilledSheetShows` | code/hand_curl.c:1008-1036 | label x is cell x of the first row, value (x, y) is cell x of row y + 1 |
| `Sheets.RetrieveSheet` | code/hand_curl.c:996-1046 | the same for any ragged rows with two rows and one column; otherwise an empty sheet |
| `Sheets.WidthIsLongest` | code/hand_curl.c:1000-1006 | the width is the length of the longest row |
| `Sheets.Sheet.FindLabel` | code/hand_buffer.c:199-212 | the first column with the label, or -1 |
| `Sheets.LabelIndexFirst` | code/hand_buffer.c:199-212 | -1 means the label is nowhere, otherwise no earlier column has it |
| `Sheets.Sheet.GetValue` | code/hand_buffer.c:214-224 | a pointer to the value at (x, y), or null outside the sheet |
| `ConfigLexer.ConfigParser.EatWhitespaces` | code/hand_config.c:24-43 | over white space and comments to the next character of a token, or to a NUL |
| `ConfigLexer.ConfigParser.LexToken` | code/hand_config.c:45-105 | one token of the text and the position behind it; an unrecognised character is a token of type Token_eof |
| `ConfigLexer.ConfigParser.PeekToken` | code/hand_config.c:107-121 | the token that many places behind the logical position; the position stays for lookaheads 0 to 2, and four tokens are lost for 3 |
| `ConfigLexer.FullRingExample` | code/hand_config.c:107-121 | a text of one identifier loses it by a lookahead of three |
| `ConfigLexer.ConfigParser.EatToken` | code/hand_config.c:123-131 | the logical position moves by exactly one token |
| `ConfigLexer.TokensShift` | code/hand_config.c:107-131 | after one token is eaten, the k-th token is the old (k+1)-th |
| `ConfigPairs.ParseKeyValuePair` | code/hand_config.c:133-175 | the next identifier, equal sign and string in a row, and nothing when an end token comes first; every round without a pair moves on |
| `ConfigPairs.CompareSubstring` | code/hand_common.h:61-70 | whether the first bytes are a prefix of the name |
| `ConfigPairs.StorePair` | code/hand_config.c:229-238 | the value goes to the first name that the key is a prefix of, all other values stay |
| `ConfigPairs.LoadConfig` | code/hand_config.c:205-267 | the table after all pairs are stored in order; success exactly when every name has a value |
| `ConfigPairs.StoredKeepsTheLast` | code/hand_config.c:222-248 | a name holds the value of the last pair that resolved to it |
| `ConfigPairs.StoredNothing` | code/hand_config.c:222-266 | a name to which no pair resolved stays empty |
| `ConfigNames.FullNameResolvesToItself` | code/hand_config.h:23-40 | each of the fifteen full names is its own key, although keys are matched as prefixes |
| `ConfigRoundTrip.EntryIsNextPair` | code/hand_config.c:45-175 | one rendered entry is the next pair and ends where its text does |
| `ConfigRoundTrip.ParsingUndoesRendering` | code/hand_config.c:24-175 | for any keys, quotes, white space and comments, a last comment without newline included, the pairs come back in order and no more |
| `ConfigRoundTrip.KeyCharsGoOn` | code/hand_config.c:82-96 | a name starts with a letter and goes on at letters, digits, underscores and dots, and at nothing else |
| `ConfigRoundTrip.StrayTokens` | code/hand_config.c:133-175 | what is skipped where no pair stands: one token, a name and the token behind it, or a name, its equal sign and the token behind that |
| `ConfigRoundTrip.StrayWordLosesEntry` | code/hand_config.c:133-175 | a word in front of an entry swallows its key, and the pair is lost |
| `ConfigRoundTrip.OtherCharacterEnds` | code/hand_config.c:98-104 | any other character ends the parse |
| `ConfigRoundTrip.OpenQuoteTakesRest` | code/hand_config.c:59-80 | a value without its closing quote takes the rest of the text |
| `ConfigLoading.LoadedValues` | code/hand_config.c:205-267 | in a rendered file, a name has the value of the last entry that stands for it, and none if there is no such entry |
| `ConfigLoading.LoadRendered` | code/hand_config.c:205-267 | the same for the loaded table; success if and only if every name has an entry |
| `ConfigLoading.LoadLines` | code/hand_config.c:205-267 | a file with a line for each of the fifteen names loads, with every value |
| `ConfigLoading.NoFileNoValues` | code/hand_config.c:205-248 | without a file, or with an empty one, no name has a value |
| `ConfigLoading.FullNameIsLast` | code/hand_config.h:23-40 | an entry under a full name stands for that name, unless a later one does |
| `ConfigLoading.NamesAreKeys` | code/hand_config.h:23-40 | the fifteen names can be written as keys, and hold no NUL |
| `Templates.TwoStagesAreOne` | code/hand.c:517-916 | stage 2 after stage 1 is one substitution, for the text and for missing labels, on well-formed templates and plain files |
| `Templates.Stage1UnchangedIff` | code/hand.c:517-569 | on well-formed templates and plain files, stage 1 changes nothing if and only if every placeholder is closed and none names a file |
| `Templates.UnclosedIsDropped` | code/hand.c:526-567 | a template that names no file but leaves its placeholder open: stage 1 writes nothing of it |
| `Templates.NoFileIsLeft` | code/hand.c:544-560 | what stage 1 writes never starts with a placeholder for a file, even where files are empty |
| `Templates.Stage2Placeholder` | code/hand.c:872-901 | a placeholder becomes its cell, whatever follows |
| `TemplateParts.RenderParts` | code/hand.c:852-916 | on a template written part by part (plain text, `$$`, names and file paths, with nested placeholders in them): the substitution gives the text, `$`, the cell of the first column of that name, and the file in the student's directory; a name is missing exactly when no column has it |
| `TemplateParts.ReportOfParts` | code/hand.c:517-569 | the report of such a template: the files are put in, all other parts stay as they are |
| `TemplateParts.DollarsInside` | code/hand.c:526-567 | a `$$` inside a placeholder is written in front of what the placeholder becomes |
| `TemplateParts.OpenPlaceholderIsDropped` | code/hand.c:526-567 | a placeholder that is not closed is left out by both stages |
| `TemplateParts.NulEndsName` | code/hand.c:544-560 | a NUL inside a placeholder ends its name for stage 1 |
| `TemplateParts.StrayBraceIsDropped` | code/hand.c:879-901 | a closing brace outside of a placeholder is left out by stage 2 |
| `Templates.WellFormedHasNoStray` | code/hand.c:517-569 | well-formed templates are among those that the scan of stage 1 handles: no brace closes outside of a placeholder |
| `Templates.Stage1HasNoNul` | code/hand.c:517-569 | a report of files and a template without NUL has none, so it reads back whole |
| `FileReplacement.WriteReplacement` | code/hand.c:544-560 | the temporary NUL cuts off the name, the file or the placeholder is written, and the brace is put back |
| `FileReplacement.FormatReportByFileReplacement` | code/hand.c:517-569 | the scan writes stage 1 and leaves the template as it was |
| `FeedbackIssues.WriteCell` | code/hand.c:884-894 | the cell under a label, or nothing and a failure |
| `FeedbackIssues.FormatIssue` | code/hand.c:863-906 | one text and one row: stage 2, success if every label was found, the template as it was |
| `FeedbackIssues.FormatFeedbackIssues` | code/hand.c:852-916 | one text per row, or none at all when a label was missing in any of them |
| `Feedback.WriteReports` | code/hand.c:785 | a report for every student, each stage 1 of the template with the student's files |
| `Feedback.GradeAndAnnounce` | code/hand.c:985-1002 | issue y is the template with files and cells of student y put in at once; there are issues if and only if every label was found for every student |
| `Feedback.IssueOfParts` | code/hand.c:985-1002 | for a template written part by part, each issue is what its parts become for the student |
| `Feedback.RowIsOfSpreadsheet` | code/hand_curl.c:996-1046 | the cells of the y-th student are those of row y + 1 of the spreadsheet, under the labels of its first row |
| `Utf8.DecodeEncode` | code/include_linux/cjson/cJSON.c:720-767 | the bytes written for a code point decode to it, in shortest form |
| `Utf8.BitOperations` | code/include_linux/cjson/cJSON.c:711-767 | the masks and shifts of the code are the arithmetic of the model |
| `JsonStrings.ParseHex4` | code/include_linux/cjson/cJSON.c:619-653 | four hex digits in either case, 0 for anything else |
| `JsonStrings.EncodeInto` | code/include_linux/cjson/cJSON.c:720-769 | the UTF-8 of a code point, written from its last byte to its first |
| `JsonStrings.Utf16LiteralToUtf8` | code/include_linux/cjson/cJSON.c:657-775 | one or two units decoded, or failure for lone surrogates and short input |
| `JsonStrings.ScanCountsEscapes` | code/include_linux/cjson/cJSON.c:791-813 | the first pass counts the escapes up to the closing quote and never ends inside one |
| `JsonStrings.FirstPass` | code/include_linux/cjson/cJSON.c:791-813 | the closing quote and the number of escapes, or failure |
| `JsonStrings.RoundKeepsBudget` | code/include_linux/cjson/cJSON.c:824-882 | every round of the second pass writes no more than the first pass granted for what it reads |
| `JsonStrings.DecodeFits` | code/include_linux/cjson/cJSON.c:791-882 | so the rest of the output fits, even where the second pass cuts escapes differently |
| `JsonStrings.TwoPassesFit` | code/include_linux/cjson/cJSON.c:791-882 | for every text, the decoded bytes are at most what the first pass measured |
| `JsonStrings.SecondPass` | code/include_linux/cjson/cJSON.c:824-882 | decodes within the output that the first pass sized, terminator included |
| `JsonStrings.ParseString` | code/include_linux/cjson/cJSON.c:777-904 | the decoded string and the offset behind its quote, or failure |
| `JsonPieces.LiteralParses` | code/include_linux/cjson/cJSON.c:777-904 | a literal made of plain bytes, short escapes and units parses to its meaning, units without four hex digits included; it fails exactly when a surrogate stands alone |
| `JsonPieces.NoMeaningIffLone` | code/include_linux/cjson/cJSON.c:657-717 | pieces have no meaning if and only if there is a high surrogate with no low one behind it or a low one with no high one in front |
| `JsonPieces.EscapedCodePointsMeanUtf8` | code/include_linux/cjson/cJSON.c:657-882 | code points written by their hex digits, in one unit or two, mean their UTF-8 |
| `JsonPieces.EscapedCodePointsParse` | code/include_linux/cjson/cJSON.c:657-904 | the quoted text of code points written as units or pairs parses to their UTF-8 and ends behind its quote |
| `JsonSpellings.SpelledStringParses` | code/include_linux/cjson/cJSON.c:777-904 | a string in which each code point is spelled in any of the ways of RFC 8259 section 7 (its UTF-8, a short escape, one or two units with digits in either case) parses to its UTF-8 |
| `JsonSpellings.IdeographExample` | code/include_linux/cjson/cJSON.c:619-775 | one unit and the bytes it stands for |
| `JsonSpellings.PairExample` | code/include_linux/cjson/cJSON.c:657-775 | a surrogate pair and the bytes it stands for |
| `JsonEscapes.WriteEscaped` | code/hand_buffer.c:140-155 | what is written for one byte |
| `JsonEscapes.EscapeString` | code/hand_buffer.c:136-157 | the escaped text of the whole string |
| `JsonEscapes.EscapedByte` | code/hand_buffer.c:140-155 | the escape of each byte, as bytes |
| `JsonEscapes.EscapedTextParses` | code/hand_buffer.c:136-157 | cJSON parses the quoted output of `escape_string` back to the string, up to its closing quote and no earlier one |
| `JsonEscapes.PrintedStringParses` | code/include_linux/cjson/cJSON.c:906-1026 | the same for the output of `print_string_ptr` |
| `JsonEscapes.PrintedByte` | code/include_linux/cjson/cJSON.c:985-1019 | the escape of each byte, as bytes |
| `JsonNumbers.DecimalParses` | code/include_linux/cjson/cJSON.c:305-379 | the decimal text of a 32-bit integer reads as that integer, whatever stands behind it |
| `JsonNumbers.DecimalLength` | code/include_linux/cjson/cJSON.c:550-575 | that text fits the temporary buffer |
| `JsonNumbers.DigitsAreCanonical` | code/include_linux/cjson/cJSON.c:550-575 | no leading zeros |
| `JsonText.RenderHasNoNul` | code/include_linux/cjson/cJSON.c:1372-1830 | printed text holds no NUL, so its end can be found by one |
| `JsonLayouts.LayoutParses` | code/include_linux/cjson/cJSON.c:1316-1716 | wherever the text of a layout stands, it parses to the layout's value and ends where it ends, if and only if depth and nesting stay within the limit |
| `JsonLayouts.ElementsParse` | code/include_linux/cjson/cJSON.c:1478-1518 | the same for the elements of an array, with any blanks around them |
| `JsonLayouts.EntriesParse` | code/include_linux/cjson/cJSON.c:1636-1694 | the same for the members of an object, with any blanks around names, colons and values |
| `JsonLayouts.LayoutTextParses` | code/include_linux/cjson/cJSON.c:1084-1183 | a whole text: blanks in front and text behind that does not continue a number make no difference |
| `JsonLayouts.MalformedEscapeParses` | code/include_linux/cjson/cJSON.c:619-653 | the text "\uzzzz", which RFC 8259 refuses, parses to a string of one zero byte |
| `JsonAcceptance.AcceptedHasLayout` | code/include_linux/cjson/cJSON.c:1084-1183 | of a tidy text that parses, what was consumed is a layout of the value, behind blanks and perhaps a byte order mark |
| `JsonAcceptance.WholeTextIsLayout` | code/include_linux/cjson/cJSON.c:1084-1183 | a text is tidy, is consumed to its end and gives a value, if and only if it is a layout of the value and nested at most 1000 deep |
| `JsonAcceptance.AcceptedTextIsLayoutIffTidy` | code/include_linux/cjson/cJSON.c:1084-1183 | among the texts consumed to their end, exactly the tidy ones are layouts |
| `JsonAcceptance.ValueIsLayout` | code/include_linux/cjson/cJSON.c:1316-1369 | wherever a value is parsed in a tidy text, a layout of it stands there and ends where parsing did |
| `JsonAcceptance.LiteralIsPieces` | code/include_linux/cjson/cJSON.c:777-904 | what the first pass delimits and the second decodes is made of pieces that mean the result |
| `JsonAcceptance.UntidyIsAccepted` | code/include_linux/cjson/cJSON.c:777-904 | a string of one malformed escape and two backslashes is accepted with its closing quote as a part, and is no layout of any value |
| `JsonNumbers.StrtodOfPrefix` | code/include_linux/cjson/cJSON.c:318-379 | only the text that strtod read determines the number |
| `JsonNumerals.NumeralReads` | code/include_linux/cjson/cJSON.c:318-379 | an optional minus sign, digits, a point with digits and an exponent read to the end, as whole plus fraction times the power of ten |
| `JsonNumerals.NumberIsNumeral` | code/include_linux/cjson/cJSON.c:305-379 | the number texts of layouts are exactly these, with at most 63 characters |
| `JsonNumerals.LeadingZeroParses` | code/include_linux/cjson/cJSON.c:318-379 | 01, which RFC 8259 refuses, is parsed as 1 |
| `JsonNumerals.LongNumberIsRefused` | code/include_linux/cjson/cJSON.c:318-351 | an array element of 64 number characters or more is refused, whatever its value |
| `JsonItems.Item.constructor` | code/include_linux/cjson/cJSON.c:241-250 | a new item of no kind, with zero numbers and without strings and links |
| `JsonTrees.HoldsOneValue` | code/include_linux/cjson/cJSON.c:1446-1716 | items hold one value only |
| `JsonTrees.SaturatedIsNearest` | code/include_linux/cjson/cJSON.c:359-372 | the integer beside a number: the limits of an int outside of them, towards zero between them |
| `JsonTrees.KindTellsValue` | code/include_linux/cjson/cJSON.c:1316-1369 | the kind of an item tells the kind of the value it holds |
| `JsonTrees.Attach` | code/include_linux/cjson/cJSON.c:1490-1502 | a new item linked behind the last one; what the others hold stays |
| `JsonTrees.CloseList` | code/include_linux/cjson/cJSON.c:1523-1525 | the head points back to the tail; what the items hold stays |
| `JsonTrees.ListingGrows` | code/include_linux/cjson/cJSON.c:1481-1513 | a list and one more filled item is a list of one more value |
| `JsonParser.ItemsRound` | code/include_linux/cjson/cJSON.c:1478-1518 | one round of the element loop is one step of the parsing function |
| `JsonParser.MembersRound` | code/include_linux/cjson/cJSON.c:1636-1694 | one round of the member loop is one step of the parsing function |
| `JsonParser.ParseBuffer.BufferSkipWhitespace` | code/include_linux/cjson/cJSON.c:1042-1066 | to the next byte above the space, or to the last byte |
| `JsonParser.ParseBuffer.SkipUtf8Bom` | code/include_linux/cjson/cJSON.c:1068-1082 | over a byte order mark |
| `JsonParser.ParseBuffer.ParseString` | code/include_linux/cjson/cJSON.c:777-904 | fills the item with the string and moves behind it |
| `JsonParser.ParseBuffer.CopyNumber` | code/include_linux/cjson/cJSON.c:318-351 | the copy of at most 63 number characters |
| `JsonParser.ParseBuffer.ParseNumber` | code/include_linux/cjson/cJSON.c:305-379 | the number that strtod reads, and its saturated integer |
| `JsonParser.ParseBuffer.ParseValue` | code/include_linux/cjson/cJSON.c:1316-1369 | succeeds exactly when the parsing function does, moves the offset behind the value, restores the depth, and fills the item and new items below it with the value |
| `JsonParser.ParseBuffer.AddElement` | code/include_linux/cjson/cJSON.c:1481-1512 | one round: one more item holding the next element |
| `JsonParser.ParseBuffer.ParseElements` | code/include_linux/cjson/cJSON.c:1478-1518 | all elements up to the closing bracket |
| `JsonParser.ParseBuffer.ParseArray` | code/include_linux/cjson/cJSON.c:1445-1541 | as for values; refused at nesting 1000 |
| `JsonParser.ParseBuffer.ParseMemberName` | code/include_linux/cjson/cJSON.c:1662-1681 | the name moves from the parsed string to the item's name, and the colon is passed |
| `JsonParser.ParseBuffer.AddMember` | code/include_linux/cjson/cJSON.c:1639-1688 | one round: one more item holding the next member |
| `JsonParser.ParseBuffer.ParseMemberList` | code/include_linux/cjson/cJSON.c:1636-1694 | all members up to the closing brace |
| `JsonParser.ParseBuffer.ParseObject` | code/include_linux/cjson/cJSON.c:1605-1716 | as for arrays |
| `JsonParser.ParseText` | code/include_linux/cjson/cJSON.c:1084-1183 | new items that hold the parsed value, or none exactly when the text is refused |
| `JsonPrinter.PrintBuffer.Ensure` | code/include_linux/cjson/cJSON.c:443-527 | room at the offset, text kept, failing exactly when that passes INT_MAX |
| `JsonPrinter.PrintBuffer.UpdateOffset` | code/include_linux/cjson/cJSON.c:529-540 | the offset stands behind what a nested call wrote |
| `JsonPrinter.PrintBuffer.PrintNumber` | code/include_linux/cjson/cJSON.c:549-617 | the decimal text of an integer |
| `JsonPrinter.PrintBuffer.CountEscapes` | code/include_linux/cjson/cJSON.c:934-958 | the length of the escaped text, and that nothing changes when it is the same |
| `JsonPrinter.PrintBuffer.CopyEscaped` | code/include_linux/cjson/cJSON.c:977-1021 | the second pass writes the escaped text inside what the first one counted |
| `JsonPrinter.PrintBuffer.PrintStringPtr` | code/include_linux/cjson/cJSON.c:906-1026 | the quoted escaped string and a NUL, a missing string as the empty one |
| `JsonPrinter.PrintBuffer.PrintValue` | code/include_linux/cjson/cJSON.c:1371-1443 | writes exactly the text of the value behind what was there, leaves a NUL behind it and the offset inside, restores the depth, and fails exactly when the end of the text and two more bytes pass INT_MAX |
| `JsonPrinter.PrintBuffer.PrintElement` | code/include_linux/cjson/cJSON.c:1569-1589 | one round: the element, and a comma when another follows |
| `JsonPrinter.PrintBuffer.PrintElements` | code/include_linux/cjson/cJSON.c:1567-1591 | all elements along the next links |
| `JsonPrinter.PrintBuffer.PrintArray` | code/include_linux/cjson/cJSON.c:1543-1603 | as for values |
| `JsonPrinter.PrintBuffer.PrintName` | code/include_linux/cjson/cJSON.c:1748-1781 | indentation, name and colon |
| `JsonPrinter.PrintBuffer.PrintMember` | code/include_linux/cjson/cJSON.c:1748-1807 | one round of the member loop |
| `JsonPrinter.PrintBuffer.PrintMembers` | code/include_linux/cjson/cJSON.c:1746-1810 | all members along the next links |
| `JsonPrinter.PrintBuffer.PrintClosing` | code/include_linux/cjson/cJSON.c:1812-1827 | the indented brace and its NUL |
| `JsonPrinter.PrintBuffer.PrintObject` | code/include_linux/cjson/cJSON.c:1718-1830 | as for values |
| `JsonPrinter.Print` | code/include_linux/cjson/cJSON.c:1192-1265 | exactly the text and its NUL, and nothing exactly when the text and two more bytes pass INT_MAX |
| `JsonRoundTrip.ValueParses` | code/include_linux/cjson/cJSON.c:1316-1716 | printed text inside any text parses to its value and ends where it ends, if and only if depth and nesting stay within the limit |
| `JsonRoundTrip.PrintedLayout` | code/include_linux/cjson/cJSON.c:1371-1830 | printed text, formatted or not, is a layout of its value |
| `JsonRoundTrip.ParsingUndoesPrinting` | code/include_linux/cjson/cJSON.c:1084-1183 | parsing the whole printed text gives the value and consumes it all, if and only if the nesting is at most 1000 |
| `JsonRoundTrip.PrintedTextDeterminesValue` | code/include_linux/cjson/cJSON.c:1257-1265 | different values never print alike, whatever the formatting and the nesting |
| `JsonRoundTrip.ParsedValueIsShallow` | code/include_linux/cjson/cJSON.c:1316-1716 | at every depth, a parsed value is nested only as deep as the limit leaves room |
| `JsonRoundTrip.PrintingUndoesParsing` | code/include_linux/cjson/cJSON.c:1084-1265 | whatever was parsed and can be printed parses to itself again and is consumed, in either format |
| `JsonMemoryRoundTrip.PrintThenParse` | code/include_linux/cjson/cJSON.c:1180-1265 | printing items and parsing the text gives new items that hold the same value |
| `ChildLists.ListIsUnique` | code/include_linux/cjson/cJSON.c:1856-1873 | a chain is the list of one sequence only |
| `ChildLists.GetArrayItem` | code/include_linux/cjson/cJSON.c:1856-1873 | the item at an index, or none |
| `ChildLists.AddItemToArray` | code/include_linux/cjson/cJSON.c:1961-1992 | the list with one more item, if and only if the list was empty, or the item was not in it and had no next link; contents untouched |
| `ChildLists.StaleLinkExample` | code/include_linux/cjson/cJSON.c:1961-1992 | appending an item that still has a next link succeeds and leaves no list of the two items |
| `ChildLists.DetachItemViaPointer` | code/include_linux/cjson/cJSON.c:2192-2226 | the list without the item, which points nowhere |
| `ChildLists.DetachItemFromArray` | code/include_linux/cjson/cJSON.c:2228-2236 | the same by index |
| `ChildLists.InsertItemInArray` | code/include_linux/cjson/cJSON.c:2268-2300 | the list with the item in front of that index, if and only if it was not in the list and is not the array; or behind the last one, as for appending |
| `ChildLists.TwiceInsertedExample` | code/include_linux/cjson/cJSON.c:2268-2300 | inserting an item that is in the list already succeeds and leaves no list with it in both places |
| `ChildLists.InsertBefore` | code/include_linux/cjson/cJSON.c:2288-2299 | the links of an insertion |
| `ChildLists.ReplaceItemViaPointer` | code/include_linux/cjson/cJSON.c:2302-2349 | the list with the replacement in place of the item, if and only if it is that item, or neither in the list nor the array |
| `ChildLists.ReplaceItemInArray` | code/include_linux/cjson/cJSON.c:2351-2359 | the same by index |
| `JsonEdits.ArrayIsList` | code/include_linux/cjson/cJSON.c:1520-1530 | what the parser leaves below an array is a list as the list operations need it |
| `JsonEdits.ForestKeeps` | code/include_linux/cjson/cJSON.c:1933-1937 | changing links between siblings keeps every value |
| `JsonEdits.DetachFromArray` | code/include_linux/cjson/cJSON.c:2192-2236 | two separate trees: the element, and the array without it |
| `JsonEdits.AppendToArray` | code/include_linux/cjson/cJSON.c:1961-1998 | the array's value with one more element, for an empty array or a new item whose next link is null (`ChildLists.AddItemToArray` shows that this is needed) |
| `JsonEdits.InsertIntoArray` | code/include_linux/cjson/cJSON.c:2268-2300 | the array's value with the element inserted |
| `JsonEdits.ReplaceInArray` | code/include_linux/cjson/cJSON.c:2302-2359 | the array's value with the element updated |

## Left out

- Pushes.RetrievePushesBeforeCutoff: repository creation times, branch heads and `parse_time` are given; a response is its list of events, and what a corrupt response yields is an empty page.
- Pushes.SelectedIsLatestBeforeCutoff: needs feeds in newest-first order and times that are not negative; for other feeds the result is the first event before the cutoff, as `Selected` says.
- WorkPool.FinishedPoolHasRunEveryJobOnce: a step system on values with atomic reads of the counter; failure of `pthread_mutex_init`, the pipes, fork and output files of a job are not modelled, and an exit code is any integer.
- LateDays.CutoffExactIff: C leaves the signed overflow of `day_left * 86400` undefined; the model wraps it to 32 bits, as the compilers' machine multiplication does, and for more than 24855 days without the rule the statement rests on that.
- LateDays.CalculateCutoff: the sums of the loop, such as `weekday + day_left + 6`, are unbounded here; in C they overflow for allowances within a few days of INT_MAX.
- LateDays.LateSubmissionDays: the delay is not cut to 32 bits; differences of times that need more than 2^31 days are outside the model. `gmtime` is taken as the proleptic arithmetic of days.
- FileReplacement.FormatReportByFileReplacement: templates without a closing brace outside a placeholder; there the source would use an unset or stale name. The limit on path lengths is not modelled.
- FeedbackIssues.FormatFeedbackIssues: on failure the array is dropped, not freed.
- Sheets.Sheet.GetValue: columns and rows that are not negative; the source compares with the size only.
- ConfigPairs.LoadConfig: `ftell` and `fread` are given as the file's bytes; the values are copied sequences.
- JsonNumbers.DecimalParses: integers only. `strtod` is modelled exactly over the reals, without rounding, and the text of other numbers (`%1.15g`, `%1.17g`) is not printed.
- JsonParser.ParseBuffer.ParseValue: content that ends with its NUL, as `cJSON_Parse` passes it; the offset and the items after a failure, freeing, error positions and `cJSON_Raw` are not modelled. A string keeps bytes behind a NUL that `\u0000` decoded to.
- JsonAcceptance.WholeTextIsLayout: texts without NUL that are consumed to their end. Text behind a value, which `cJSON_Parse` permits, is covered where it does not continue a number (`JsonLayouts.LayoutTextParses`).
- JsonPrinter.PrintBuffer.PrintValue: trees whose numbers are 32-bit integers and whose strings hold no NUL; buffers supplied by the caller (`cJSON_PrintPreallocated`) and locales are not modelled.
- ChildLists.ReplaceItemViaPointer: the replaced item is unlinked, not freed.
- Allocation always succeeds, and nothing is freed.
- HTTP, git, directories, child processes, logging and the command line are given or absent.
- The code for Windows repeats the pool and the JSON code.
- `github_users_exist` indexes the user list without the batch offset, so no claim is made about it.
- `find_index_case_insensitive` and the lookups of object members by name are not part of this model; nothing here depends on them.
