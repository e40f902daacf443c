# A verified model of the resql command-line client

This project models `resql_cli`, the interactive SQL client of resql. The
client reads lines, runs dot-commands or sends SQL to the server, and prints
each result as a bordered table or as a vertical listing. It also offers tab
completion and inline hints while the user types. All of that logic lives in
`util/cli/resql_cli.c`.

The model has five modules:

- `CStrings` (`cstrings.dfy`): C strings as `seq<char>` holding a NUL. It
  models `strlen30`, the client's own `strncasecmp` and the decimal text that
  `%d` / `PRIi64` produce.
- `ResultSets` (`resultsets.dfy`): the result set the query client hands
  back. The cursor is modelled by the sequence of rows it yields, and each
  pass starts again at the first row, which is what `resql_reset_rows` does.
  A row is a sequence of named, typed cells. An unknown type tag is a
  `Corrupt` cell.
- `Render` (`render.dfy`): `resql_cli_rep`, `resql_print_vertical` and
  `resql_print_seperator`. It covers the width array `p`, filled in place by
  two passes; the table width `total`; the choice of layout; and the lines
  each layout prints. Output is the sequence of strings the `printf` calls
  write.
- `Completion` (`completion.dfy`): the `sort` comparator and the in-place
  sort of the seven dot-commands, and the `completion` and `hints`
  callbacks. The server's completion query is modelled by its reply, an
  `OracleReply`.
- `Dispatch` (`dispatch.dfy`): the ordered prefix checks in `main`, the
  `.schema` argument, and a `Session` class. The class holds the vertical
  flag and the history that the read loop updates.

The code's loops are `while` loops in methods. Most are proved to produce
exactly the value of a defining function: the measure passes over `p`,
the separator loop with its `x`/`pos` counters, the counting loops of `sort`,
the backward scans, the splice loop, `strncasecmp`, the printing loops and the
session loop. The sort of the command copy is proved to leave the scores in
non-increasing order and the array a permutation of what it held. The
`memcpy` of a candidate is proved to write the candidate and its terminator
and to leave every other byte as it was. What the source promises is proved
as lemmas about those functions.

Some facts about the code that the model follows:

- The ranking sort is `qsort`, which is not stable, so the model promises
  only non-increasing scores and a permutation.
- `wmax` starts at 15, so the vertical listing's label column is never
  narrower than 15.
- A line that is one unbroken identifier yields head 0 in `hints`, and the
  server is still asked for a hint. The
  scan in `completion` has no lower bound (first row of "## Findings"); the
  corrected `Complete` bounds it as `hints` does.
- When a corrupt tag ends the measure pass, the code returns without freeing
  `p`. Memory is not part of the model.
- Integers, floats and blob sizes are measured as `strlen(tmp)` after
  `snprintf` into the 128-byte `tmp`, so no such cell counts as wider than
  127. Integers and floats are then printed in full. A float whose `%f` text
  is longer than 127 characters therefore overruns its column
  (`WideFloatOverruns`), and alignment is proved only when no integer or
  float text was cut.
- The tabular branch reads the first row without checking it. For a result
  with columns but no rows it reads through the null row pointer; the model
  makes that an explicit outcome, `NullRowRead`, rather than inventing
  output for it. With no columns either, nothing is read through the
  pointer, and the do-while prints one empty data line.

## Model

| member | source | states |
|---|---|---|
| CStrings.CLength | util/cli/resql_cli.c:120-126 | the length lies before the first NUL, and no NUL comes earlier |
| CStrings.StrLen30 | util/cli/resql_cli.c:120-127 | the result is the C length modulo 2^30; it is always in [0, 2^30) and equals the C length below 2^30 |
| CStrings.CLengthOfTerminated | util/cli/resql_cli.c:120-127 | a NUL-free string with a terminator appended has C length equal to its length |
| CStrings.Folded | util/cli/resql_cli.c:210-216 | a folded byte is 0 exactly for NUL; the two folded bytes are equal exactly when the characters agree up to letter case |
| CStrings.StrNCaseCmp | util/cli/resql_cli.c:200-227 | the pointer-stepping do-while loop returns the value of the recursive definition `CaseCmp` |
| CStrings.CaseCmpZeroIff | util/cli/resql_cli.c:200-227 | the result is 0 exactly when every compared pair agrees up to case; compared means `n` bytes, or through the first NUL if sooner |
| CStrings.CaseCmpAntisymmetric | util/cli/resql_cli.c:200-227 | swapping the two strings negates the result |
| CStrings.LetterAgainstNonLetter | util/cli/resql_cli.c:210-219 | "A" against "_" compares below zero here, while folding both sides to lower case would compare above zero |
| CStrings.DigitsRoundTrip | util/cli/resql_cli.c:289-290 | reading back the decimal digits of a natural number gives that number |
| CStrings.DecimalRoundTrip | util/cli/resql_cli.c:289-290 | reading back the `%d` text of any integer gives the integer; the text starts with '-' exactly for negatives |
| CStrings.Truncated | util/cli/resql_cli.c:585 | `snprintf` into a buffer keeps the whole text when it fits, and otherwise exactly its first `n` characters |
| Render.MeasureWidths | util/cli/resql_cli.c:271-312 | the measure fails exactly when some cell has an unknown tag; otherwise the array holds `Widths`, the per-column maximum of the name lengths and the cell widths: a text's length, 4 for null, and the `%d`/`%f`/blob text cut to the 127 characters `tmp` keeps |
| Render.NamePass | util/cli/resql_cli.c:274-279 | after the first pass over a zeroed array, `p[k]` is the longest name in column `k` |
| Render.CellPass | util/cli/resql_cli.c:283-312 | the second pass succeeds exactly when no cell is corrupt; then `p[k]` is raised to the widest cell width of column `k` |
| Render.RowCellPass | util/cli/resql_cli.c:285-311 | one row of the second pass: it stops at an unknown tag, and otherwise raises each `p[k]` to that cell's width |
| Render.WidthCovers | util/cli/resql_cli.c:271-312 | every column is at least as wide as each name and each cell width in it |
| Render.WidthAttained | util/cli/resql_cli.c:271-312 | every column width is 0 or the length of some name or the width of some cell in that column |
| Render.TableWidth | util/cli/resql_cli.c:316-318 | the loop computes `total = 1 + Σ(p[i] + 3)` |
| Render.LayoutIsVerticalIff | util/cli/resql_cli.c:261-325 | output is vertical exactly when the flag is set, or the row count is not -1, no cell is corrupt and `total` exceeds the terminal width; a printed table's `total` is never more than the terminal width |
| Render.NoRowsIndependentOfRows | util/cli/resql_cli.c:261-269 | with row count -1, the flag alone decides between vertical and "Done", whatever the rows hold |
| Render.Rep | util/cli/resql_cli.c:245-377 | `resql_cli_rep` after execution: the outcome is `RepSpec`, with the terminal width 120 unless the terminal reports a nonzero width; a lost connection ends the process, a query error returns -1 |
| Render.PrintResult | util/cli/resql_cli.c:261-377 | the printing part of `resql_cli_rep` gives `RepSpec`'s outcome: vertical, "Done", the corruption abort, the table (an empty one-line table for a result with neither rows nor columns), or the null-row read |
| Render.NullRowReadIff | util/cli/resql_cli.c:327-331 | the null row is read through exactly when the flag is off, the row count is not -1, there are no rows but some columns, and `1 + 3 * columns` fits the terminal |
| Render.ZeroColumnTable | util/cli/resql_cli.c:327-372 | a result with neither rows nor columns prints the one-character separator, an empty header line, the separator, an empty data line and the separator, and returns 0 |
| Render.PrintSeparator | util/cli/resql_cli.c:183-198 | the corrected separator loop prints exactly `SeparatorLine(columns)` |
| Render.SeparatorShape | util/cli/resql_cli.c:183-198 | the separator is `total` characters and a newline; character `i` is '+' exactly at the column boundaries `Σ_{j<k}(p[j]+3)`, including 0 and `total-1`, and '-' elsewhere |
| Render.SeparatorReadsAsWritten | util/cli/resql_cli.c:186-195 | the loop as written reads `columns[x]` for x = 0 … count, so its last read is one past the widths |
| Render.Pad | util/cli/resql_cli.c:148 | `%-*s` keeps the text and pads it with blanks to at least the width; a negative width pads to its magnitude |
| Render.VerticalLabelWidth | util/cli/resql_cli.c:133-142 | the first pass of the vertical printer computes `LabelWidth` |
| Render.LabelWidthIsMax | util/cli/resql_cli.c:133-142 | the label width is at least 15 and at least every name length, and equals 15 or some name's length |
| Render.PrintVertical | util/cli/resql_cli.c:131-181 | the vertical printer writes the text of `VerticalLines` at the measured label width, numbering rows from 0 |
| Render.ListRows | util/cli/resql_cli.c:146-180 | the row loop produces `VerticalLines`: per row its number, its fields and a divider; it stops at the first corrupt cell |
| Render.ListFields | util/cli/resql_cli.c:151-178 | the field loop of one row produces `FieldLines`, and reports failure exactly when the row holds a corrupt cell |
| Render.VerticalRowNumbers | util/cli/resql_cli.c:146-180 | with no corrupt cell, the listing has `columns + 2` lines per row, and the `r`-th block opens with "Row number" `k + r` |
| Render.VerticalStopsAtCorruption | util/cli/resql_cli.c:174-176 | when some cell is corrupt, the listing's last line is the corruption message |
| Render.PrintTable | util/cli/resql_cli.c:327-371 | the tabular branch prints `TableText`: a separator, the header from the first row, a separator, then each row's data line and a separator |
| Render.HeaderLine | util/cli/resql_cli.c:330-332 | the header loop produces every column name padded to its width, between the colour codes |
| Render.DataCellsOf | util/cli/resql_cli.c:339-366 | the cell loop produces each cell's text padded to its column width |
| Render.DataLineLength | util/cli/resql_cli.c:339-370 | a data line whose cells fit their widths is exactly as long as the separator line |
| Render.TableAligned | util/cli/resql_cli.c:271-370 | with the measured widths, every data line of the table is as long as the separator, when no integer or float text is longer than 127 characters |
| Render.WideFloatOverruns | util/cli/resql_cli.c:293-294 | a float with a 200-character `%f` text is measured at 127 and its data line is longer than the separator |
| Completion.ScoreIsCommonPrefix | util/cli/resql_cli.c:397-411 | the score is at most both lengths, the two strings agree on that many leading characters, and they differ at the next one |
| Completion.ScoreIsLongestCommonPrefix | util/cli/resql_cli.c:397-411 | `k` characters agree exactly when `k` is at most the score |
| Completion.MatchLength | util/cli/resql_cli.c:397-403 | the counting loop, bounded by the shorter length, computes the score |
| Completion.Compare | util/cli/resql_cli.c:387-414 | the comparator returns `score(s2) - score(s1)`, so it is positive exactly when `s2` scores higher |
| Completion.SortByScore | util/cli/resql_cli.c:432-434 | after the sort, scores are non-increasing and the array is a permutation of its old contents |
| Completion.InsertLast | util/cli/resql_cli.c:434 | one insertion step extends the sorted prefix by one element, keeping a permutation |
| Completion.SwapDown | util/cli/resql_cli.c:434 | exchanging neighbours changes only those two places and keeps a permutation |
| Completion.MetaCompletions | util/cli/resql_cli.c:430-441 | in the dot-command context, all seven commands are offered exactly once each, in non-increasing score order |
| Completion.CommandsOnce | util/cli/resql_cli.c:379-382 | no command is listed twice |
| Completion.ExactCommandRanksFirst | util/cli/resql_cli.c:379-382 | a command typed in full scores its own length, and every other command scores less |
| Completion.TrailingIdentStart | util/cli/resql_cli.c:443-450 | the head is the start of the maximal run of identifier characters that ends the line |
| Completion.TrailingIdentStartUnique | util/cli/resql_cli.c:516-523 | any position with those two properties is the head |
| Completion.Reported | util/cli/resql_cli.c:419 | the line the callbacks work on is the prefix of `buf` whose length is the terminated buffer's C length modulo 2^30, which is what `strlen30` reports |
| Completion.ScanBack | util/cli/resql_cli.c:516-517 | the bounded backward scan stops one position before the start of the identifier that ends the line, so it reports -1 when the whole line is one identifier |
| Completion.CompletionScanAsWritten | util/cli/resql_cli.c:443-444 | the unbounded scan runs before the start of the line exactly when every character is an identifier character, the empty line included; otherwise it stops where the bounded one does |
| Completion.SplicedMembers | util/cli/resql_cli.c:464-471 | a line is offered exactly when it is `buf[0..head)` followed by a candidate with `head + len < 999` |
| Completion.SplicedAppend | util/cli/resql_cli.c:464-471 | splicing distributes over concatenation of candidate lists, so the server's order is kept |
| Completion.CopyCandidate | util/cli/resql_cli.c:467-468 | the `memcpy` puts the candidate and a NUL at `head` and leaves every byte before `head` and after the NUL as it was |
| Completion.SpliceCandidates | util/cli/resql_cli.c:450-471 | the splice loop offers exactly `Spliced(buf[0..head), candidates)` |
| Completion.Complete | util/cli/resql_cli.c:416-473 | a line over 970 characters gets nothing. In the dot-command context, the seven commands come as a permutation in score order. Otherwise the result is `SqlCompletions` of the measured line: nothing when no identifier ends it, the spliced candidates, nothing when there is no result, or the process exit on disconnection |
| Completion.ExactCommand | util/cli/resql_cli.c:497-501 | the corrected loop finds the line exactly when it is one of the commands |
| Completion.ExactCommandAsWritten | util/cli/resql_cli.c:497-501 | the loop as written finds the line exactly when it is ".tables" |
| Completion.TopRankedHint | util/cli/resql_cli.c:503-513 | the hint is a command of the highest score, in colour 35, not bold; the first-character gate always passes |
| Completion.FirstIsBest | util/cli/resql_cli.c:503-511 | the head of a score-sorted permutation of the commands has the best score among them |
| Completion.BestIsExact | util/cli/resql_cli.c:497-511 | when the line is a command, the only best-scoring command is the line itself |
| Completion.CommandLead | util/cli/resql_cli.c:379-382 | every command is a '.' followed by at least one character |
| Completion.ServerHint | util/cli/resql_cli.c:516-545 | the SQL-context hint is nothing when no identifier ends the line, otherwise the whole first server row, nothing without rows, or the process exit on disconnection |
| Completion.Hints | util/cli/resql_cli.c:480-548 | in the dot-command context, a line under 2 characters gets ".tables" and a command typed in full gets no hint; otherwise the hint is a top-ranked command. Outside that context it is `SqlHint` of the measured line |
| Completion.HintsAsWritten | util/cli/resql_cli.c:480-548 | as written, ".tables" typed in full gets no hint, but any other command typed in full is hinted again after itself |
| Dispatch.FirstKeywordNoneIff | util/cli/resql_cli.c:674-689 | the keyword chain finds nothing exactly when no keyword prefixes the line |
| Dispatch.KeywordResultIsKeyword | util/cli/resql_cli.c:674-689 | what the chain finds is one of the keywords' commands |
| Dispatch.ClassifyRunSqlIff | util/cli/resql_cli.c:672-673 | a line is sent as SQL exactly when it is non-empty and does not start with '.' |
| Dispatch.ClassifyUnrecognizedIff | util/cli/resql_cli.c:690-693 | a line is an unrecognised command exactly when it starts with '.' and no keyword prefixes it |
| Dispatch.KeywordWithSuffix | util/cli/resql_cli.c:674-689 | a keyword followed by anything selects that keyword's action: no earlier test captures it |
| Dispatch.EarlierKeywordsDiffer | util/cli/resql_cli.c:674-689 | no keyword tested earlier prefixes a line that a later keyword prefixes |
| Dispatch.KeywordsDiffer | util/cli/resql_cli.c:674-689 | any two keywords differ at position 1, or at position 4 when both begin ".all" |
| Dispatch.FirstKeywordSkips | util/cli/resql_cli.c:674-689 | the chain walks past keywords that do not prefix the line and stops at the first that does |
| Dispatch.OfferedCommandsRecognised | util/cli/resql_cli.c:379-382 | every command completion offers is recognised by the read loop |
| Dispatch.CommandIsKeyword | util/cli/resql_cli.c:379-382 | every entry of the completion table is one of the loop's keywords |
| Dispatch.LastSpace | util/cli/resql_cli.c:579 | `strrchr` finds the last blank, with no blank after it, or reports that there is none |
| Dispatch.SchemaArgSomeIff | util/cli/resql_cli.c:576-587 | the `.schema` argument is exactly a non-empty, blank-free tail that follows a blank |
| Dispatch.SchemaArgNoneIff | util/cli/resql_cli.c:579-583 | the usage message comes exactly when the line has no blank or ends in one |
| Dispatch.SchemaQuery | util/cli/resql_cli.c:585 | the statement is at most 1023 characters; it is `PRAGMA table_info([<arg>])` when the argument has at most 1002 characters, and that text cut to 1023 otherwise |
| Dispatch.FinalVerticalParity | util/cli/resql_cli.c:676-679 | after a run of lines, the flag is flipped exactly when `.vertical` came an odd number of times |
| Dispatch.ToggleTwice | util/cli/resql_cli.c:676-679 | `.vertical` twice restores the flag, whatever follows either keyword |
| Dispatch.RecordedLinesMembers | util/cli/resql_cli.c:690-696 | a line joins the history exactly when it was read and is not an unrecognised dot-command |
| Dispatch.UnrecognizedNotRecorded | util/cli/resql_cli.c:690-696 | an unrecognised dot-command never reaches the history |
| Dispatch.Session.constructor | util/cli/resql_cli.c:606-610 | `resql_cli_init` leaves the flag off; the history starts as loaded |
| Dispatch.Session.Submit | util/cli/resql_cli.c:672-698 | one turn flips the flag exactly for `.vertical`, appends the line unless it is an unrecognised command, and takes the line's action with the new flag |
| Dispatch.Session.Run | util/cli/resql_cli.c:671-699 | the loop leaves the flag at `FinalVertical` and the history extended by `RecordedLines`, and it takes `Actions`, in order |

## Left out

- Terminal and process I/O are not modelled: `printf`, the ANSI colours, `exit` and the signal handler. Output is modelled as the strings written, and an exit as an outcome that carries its message.
- The network client is not modelled. `resql_put_sql`, `resql_bind_param_text`, `resql_exec` and `resql_errstr` are foreign calls. Their results are inputs (`ExecReply`, `OracleReply`), and the bound parameters are not modelled.
- `ioctl` for the terminal width becomes two parameters: whether the call succeeded, and the reported `ws_col`.
- `linenoise` line editing and the history file are not modelled. The history is a sequence that the loop appends to. Whatever `linenoiseHistoryAdd` does beyond appending, such as dropping a repeated line, is not modelled.
- `resql_cli_read_cmdline` and the one-shot `-c` batch path of `main` (lines 651-660) are left out. The line parser depends on option-parsing code that is not part of this model.
- The help screen is the symbolic action `ShowHelp`, not its text. `RejectUnknown` stands for the complaint followed by the help screen. The blank line printed after each recorded line is not modelled.
- Floating point is not modelled. A float cell carries the text `%f` would print. Its measured width is that text cut to 127 characters.
- Render.MeasureWidths: a text cell's width is the length of its text. The client uses the `len` field the library sends with it, and the model assumes the two agree.
- Completion.SpliceCandidates: a candidate's `len` is taken as its length, and candidates are assumed to hold no NUL.
- Integers and blob sizes are unbounded `int` values; the code's `int64_t` and `int32_t` are not modelled.
- Characters stand for bytes. The model does not bound a `char` to 0–255, and `isalnum` is taken in the C locale.
- Render.Rep: the leak of `p` when a corrupt tag aborts the measure pass (lines 307-309) is not modelled, nor is any other leak. Memory is not part of the model.
- Completion.SortByScore: `qsort`'s own algorithm is not modelled. An insertion sort under the same comparator stands in for it. Only what any correct `qsort` guarantees is promised: non-increasing scores and a permutation. The order among equal scores is unspecified.
- Render.TableAligned: alignment is proved only when no integer or float text exceeds 127 characters, because the code measures such cells in `tmp` and then prints them in full (`WideFloatOverruns`). An `int64` text has at most 20 characters, so only floats can break it.
- Render.TableWidth: the 32-bit `int` arithmetic of `p[i]` and `total` is modelled with unbounded integers. Widths are lengths of in-memory strings, far below 2^31.

## Findings

| source | as written | input that shows it | evidently intended | confidence | as-written member | corrected member |
|---|---|---|---|---|---|---|
| util/cli/resql_cli.c:443-444 | the backward scan in `completion` has no `i >= 0` bound, and `i` is a `size_t` | the line `users`, or the empty line: every character before `len` is an identifier character, so the scan reads `buf[-1]` (for the empty line its first read is already out of bounds) | stop at -1 as the scan in `hints` does (line 516), so the completion starts from head 0 | not executed | Completion.CompletionScanAsWritten | Completion.ScanBack, used by Completion.Complete |
| util/cli/resql_cli.c:189-191 | at every boundary the separator loop advances `x` and reads `columns[x]`, the last boundary included | widths `[1]`: `total` is 5, the boundaries are 0 and 4, and at `i = 4` the loop reads `columns[1]`, one past a one-element array | skip the read after the last column; the value read is never used | not executed | Render.SeparatorReadsAsWritten | Render.PrintSeparator |
| util/cli/resql_cli.c:497-501 | the "already complete" loop compares `commands[0]` with the line on every pass | the line `.help`: it is not recognised as complete, and its top-ranked command is `.help` itself, so the hint repeats `.help` after it | compare `commands[j]`, so no command typed in full gets a hint | not executed | Completion.HintsAsWritten, Completion.ExactCommandAsWritten | Completion.Hints, Completion.ExactCommand |
