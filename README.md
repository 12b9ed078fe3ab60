# jucipp editor core, modelled in Dafny

This project models three parts of the jucipp source editor and proves
properties of them.

- **The completion coordinator** (`Autocomplete`, in autocomplete.dfy).
  - Its four states are `Idle`, `Starting`, `Restarting` and `Canceled`.
  - `run()` admits a completion request, folds a request made during a cancelled run into one restart, and blanks the identifier before the caret.
  - `stop()` cancels a pending run.
  - A background worker computes candidate rows and posts a continuation. The continuation restarts, discards or presents the rows in the completion dialog.
  - The buffer-changed, mark-set and focus-out handlers drive all of this.
  - Threads and the dispatcher only carry events, so they become explicit steps. `WorkerFinished` is the worker's body; `Reconcile` runs the posted continuation.
  - Each hook answer is a boolean parameter. The observable hook calls are counted.
- **Compile-command handling** (`CompileCommands`).
  - The shell-like tokenizer of a compilation-database `command` string, and its escape removal.
  - `parameter_values`.
  - The header and source extension tests.
  - The argument list `get_arguments` composes for libclang. The database's argument lists, whether the database loaded, and the clang version are inputs.
- **Text-buffer utilities of the editing view** (`TextLines`, `Cleanup`, `Paste`, `Snippets`, `TabDetection`, `SourceBase`).
  - The buffer is a `string`. Lines are split at `'\n'`. GTK iterators and marks are offsets into the buffer.
  - The view is the class `SourceBase.BaseView`. Its fields are the text, the cursor and selection-bound marks, the indentation settings, the queue of snippet-argument groups and the extra snippet cursors.
  - Its methods are:
    - `set_tab_char_and_size`;
    - whole-buffer whitespace cleanup;
    - paste;
    - snippet insertion;
    - selection and clearing of snippet arguments.
  - The pure parts are functions with lemmas:
    - line and offset clamping;
    - line ends;
    - the indentation end and smart home;
    - token bounds;
    - carriage-return normalisation;
    - paste re-indentation;
    - `${N:text}` placeholder expansion;
    - the choice of the most frequent indentation.

Every loop of the source is a method whose `ensures` ties its result to a specification function. The lemmas prove what the source promises about that function.

`run()` returns early, without calling `cancel_reparse`, when a request is refused because a run is already pending (src/autocomplete.cc:50-51); `Autocomplete.Admit` and `Autocomplete.Coordinator.Run` state this.

## Model

| member | source | states |
|---|---|---|
| Autocomplete.StopState | src/autocomplete.cc:133-136 | stop() turns a pending run (Starting, Restarting) into Canceled and leaves Idle and Canceled unchanged; it never yields a pending state, and yields Idle exactly from Idle |
| Autocomplete.StopIdempotent | src/autocomplete.cc:133-136 | stopping twice is stopping once |
| Autocomplete.Admit | src/autocomplete.cc:42-131 | a worker is spawned iff run_check and is_processing hold and the state is Idle, and then the state is Starting and cancel_reparse is called; is_processing false changes nothing and calls nothing; Canceled becomes Restarting without a worker; Starting/Restarting stay; with run_check false, cancel_reparse is called iff the state is not Idle |
| Autocomplete.ReactToEdit | src/autocomplete.cc:6-21 | a visible dialog only cancels the reparse; no focus means no reaction; run alone iff a continue key and (interactive or not Idle); stop then run iff otherwise a restart key in interactive mode |
| Autocomplete.Decide | src/autocomplete.cc:86-106 | the continuation restarts iff the state is Restarting; Canceled or no rows discards; the anchor fails iff a non-empty prefix cannot be stepped back over; presentation only for a live run with rows and a usable anchor |
| Autocomplete.WordStart | src/autocomplete.cc:64-67 | the start of the maximal run of identifier characters that ends just before the caret |
| Autocomplete.MakeRequest | src/autocomplete.cc:59-72 | the request's line is the 1-based caret line; with word stripping the buffer keeps its length, exactly the identifier run before the caret becomes spaces, nothing else changes and the column drops by the run's length; without it the buffer is empty and the column is the 1-based line index |
| Autocomplete.StripWordBeforeCaret | src/autocomplete.cc:63-72 | the strip loop produces the buffer with the identifier run before the caret blanked and the column lowered by its length |
| Autocomplete.DefaultHooksStayIdle | src/autocomplete.h:35-37 | with the default run_check, is_continue_key and is_restart_key (all false), no sequence of events ever moves an idle coordinator |
| Autocomplete.StopStimuliNeverStart | src/autocomplete.cc:23-39 | mark-set and focus-out events never create a pending run |
| Autocomplete.DefaultKeysOnlyStop | src/autocomplete.h:35-36 | with the default key hooks, an edit with focus and no dialog reduces to stop() |
| Autocomplete.Coordinator.constructor | src/autocomplete.h:18-27 | a new coordinator is Idle, with no worker, nothing posted, no rows, no dialog and no hook called |
| Autocomplete.Coordinator.Stop | src/autocomplete.cc:133-136 | the state becomes StopState of the old state and nothing else changes |
| Autocomplete.Coordinator.Run | src/autocomplete.cc:42-131 | the new state, the spawn and the cancel_reparse call are those of Admit; a worker is spawned only when none is running and nothing is posted (the join finds the previous worker finished), so at most one computation is ever in flight; the request is MakeRequest of the input |
| Autocomplete.Coordinator.WorkerFinished | src/autocomplete.cc:73-126 | is_processing false at the lock: nothing is posted and rows and state are untouched; otherwise stop_parse is called, rows become what add_rows produced, and a success or a shutdown-error continuation is posted according to the second is_processing |
| Autocomplete.Coordinator.Reconcile | src/autocomplete.cc:84-124 | shutdown error: Canceled and on_add_rows_error, nothing else changes; restart: Idle, reparse, then run() again, whose spawn issues MakeRequest of the stored input; discard or failed anchor: Idle and reparse, no dialog, request and user action kept; presentation (only from Starting): the dialog holds every row in order, each row is emptied but their number kept, Idle, and a user action opened; the tooltip and prefix never change and the posted continuation is consumed |
| Autocomplete.Coordinator.ShowRows | src/autocomplete.cc:109-112 | the dialog receives exactly the rows in order and every row is left empty |
| Autocomplete.Coordinator.OnHide | src/autocomplete.cc:143-149 | the dialog closes, the user action is closed, the tooltip is hidden and reparse is called once |
| Autocomplete.Coordinator.OnChanged | src/autocomplete.cc:151-171 | on_changed is forwarded iff the index is inside rows; the tooltip is shown iff forwarded with non-empty text |
| Autocomplete.Coordinator.OnSelect | src/autocomplete.cc:173-178 | on_select is forwarded iff the index is inside rows |
| Autocomplete.Coordinator.OnBufferChanged | src/autocomplete.cc:6-21 | the new state follows the ReactToEdit policy; a visible dialog only counts one cancel_reparse; ignoring or stopping calls no hook, spawns nothing and keeps the worker and request; a run (after a stop or not) spawns, calls cancel_reparse and issues MakeRequest exactly as Admit decides; rows, dialog, user action, tooltip and prefix never change |
| Autocomplete.Coordinator.OnMarkSet | src/autocomplete.cc:23-26 | moving the "insert" mark stops completion; other marks change nothing |
| Autocomplete.Coordinator.OnFocusOut | src/autocomplete.cc:36-39 | losing focus stops completion |
| Autocomplete.ScenarioCancelBeforeCompletion | src/autocomplete.cc:86-94 | run, stop, then 5 candidates: nothing is presented, the coordinator is Idle and reparse ran once |
| Autocomplete.ScenarioCoalescedRestart | src/autocomplete.cc:47-90 | repeated cancel and run while a worker is busy: the first result is never shown and exactly one more worker is spawned |
| Autocomplete.ScenarioPresent | src/autocomplete.cc:95-117 | 3 candidates are shown in the dialog in order, and the coordinator ends Idle |
| Autocomplete.ScenarioDefaultWorker | src/autocomplete.h:29-44 | with the default is_processing and add_rows, an admitted run ends Idle with one reparse and no dialog |
| CompileCommands.ParameterValues | src/compile_commands.cc:7-21 | the found_argument loop returns ValuesAfter, the element after each occurrence of the name that is not itself taken as a value |
| CompileCommands.ValuesFollowName | src/compile_commands.cc:7-21 | every returned value immediately follows an occurrence of the name |
| CompileCommands.FirstOccurrenceTakesNext | src/compile_commands.cc:7-21 | at its first occurrence the name takes the next element, and a trailing name contributes nothing |
| CompileCommands.Unescape | src/compile_commands.cc:43-46 | escape removal never lengthens a parameter and keeps a non-empty one non-empty |
| CompileCommands.UnescapeEscapeAll | src/compile_commands.cc:43-46 | escape removal undoes a backslash before every character |
| CompileCommands.UnescapeNoBackslash | src/compile_commands.cc:43-46 | a parameter without backslashes is unchanged |
| CompileCommands.RemoveEscapes | src/compile_commands.cc:40-48 | the in-place replace loop computes Unescape |
| CompileCommands.TokenizeCommand | src/compile_commands.cc:34-76 | the tokenizer loop, with its flags and add_parameter, computes RawTokens (the code as written) |
| CompileCommands.TokensNonEmpty | src/compile_commands.cc:38-76 | runs of blanks never produce a parameter: every parameter of the tokenizer as written, and of the corrected one, is non-empty |
| CompileCommands.PlainCommandWords | src/compile_commands.cc:49-76 | for a command without quotes or backslashes, the parameters are exactly its maximal runs of non-blank characters, in order |
| CompileCommands.ScanQuoted | src/compile_commands.cc:62-69 | corrected tokenizer: inside a quote every character but the closing quote is kept, blanks included |
| CompileCommands.RawScanQuoted | src/compile_commands.cc:54-73 | tokenizer as written: inside a quote every character but the closing quote is counted from the first one on, blanks included, and the quote flag is cleared at the closing quote |
| CompileCommands.QuotedParameter | src/compile_commands.cc:38-76 | a parameter enclosed in one pair of matching quotes yields its inner text, blanks kept, quotes dropped, both as written and corrected |
| CompileCommands.EscapedBlank | src/compile_commands.cc:50-54 | a backslash keeps a blank from separating, and escape removal drops the backslash, as written and corrected |
| CompileCommands.EscapedParameter | src/compile_commands.cc:38-76 | any non-empty text with a backslash before each character is one parameter, the text itself, as written and corrected: escaped blanks never separate and escaped quotes never toggle |
| CompileCommands.QuoteFreeAgree | src/compile_commands.cc:34-76 | without quote characters, the tokenizer as written and the corrected one give the same parameters |
| CompileCommands.QuoteInsideParameter | src/compile_commands.cc:38-76 | as written, `x"a"` yields `x"`; the corrected tokenizer yields `xa` |
| CompileCommands.HeaderSourceDisjoint | src/compile_commands.cc:196-215 | no extension is both a header and a source extension, and the empty extension is neither |
| CompileCommands.FilteredKeepsOnlyMiddle | src/compile_commands.cc:113-128 | copied arguments are never `-c`, `-o`, `-x`, `-MF` (nor `-include-pch` for a header) and all come from strictly between the first and the last argument |
| CompileCommands.FilteredPlain | src/compile_commands.cc:113-128 | without dropped flags, exactly the arguments between the first and the last are copied |
| CompileCommands.FilterCommand | src/compile_commands.cc:113-128 | the ignore_next loop over one command computes Filtered |
| CompileCommands.FilterCommands | src/compile_commands.cc:109-130 | the loop over the database commands concatenates their filtered arguments in order |
| CompileCommands.HeadArguments | src/compile_commands.cc:105-159 | the database (or default standard) arguments followed by the clang include directories |
| CompileCommands.TailArguments | src/compile_commands.cc:165-191 | the header warnings, the language flags by extension, and the working directory when the build path is non-empty |
| CompileCommands.GetArguments | src/compile_commands.cc:85-194 | get_arguments computes the whole argument list Arguments |
| CompileCommands.EmptyBuildPathDefaultStd | src/compile_commands.cc:135-136 | without a build path the list starts with `-std=c++1y` |
| CompileCommands.WorkingDirectoryLast | src/compile_commands.cc:188-191 | `-working-directory` and the build path are the last two arguments iff the build path is non-empty |
| CompileCommands.RetainCommentsUnlessPch | src/compile_commands.cc:161-163 | `-fretain-comments-from-system-headers` follows the database arguments and include directories iff none of them is `-include-pch` |
| TextLines.SplitLines | src/source_base.cc:498-513 | a text has at least one line and no line holds a '\n' |
| TextLines.JoinSplit | src/source_base.cc:498-513 | joining the lines of a text with '\n' gives the text back |
| TextLines.SplitJoin | src/source_base.cc:498-513 | splitting joined lines without '\n' gives the lines back |
| TextLines.JoinReplace | src/source_base.cc:649-661 | replacing line k replaces exactly its characters in the joined text |
| TextLines.LineEnd | src/source_base.cc:498-513 | past the last line the end of the buffer; otherwise the first position at or after the line start that ends a line ("\r\n" counted as one delimiter, so never the '\n' of a "\r\n") |
| TextLines.IterAtLineOffset | src/source_base.cc:476-485 | the line is clamped into [0, line count - 1] and the offset into [0, length of that line without its delimiter] |
| TextLines.ClampInRange | src/source_base.cc:476-485 | clamping is idempotent, and a position already in range is kept |
| TextLines.ClampWithinLine | src/source_base.cc:476-485 | the clamped position lies between the line's start and its end |
| TextLines.IndentEnd | src/source_base.cc:608-613 | the first position at or after the line start that is not a blank |
| TextLines.TabsEnd | src/source_base.cc:608-613 | the get_tabs_end_iter loop stops at IndentEnd |
| TextLines.LineBegin | src/source_base.cc:544-546 | the start of the line that holds the position |
| TextLines.SmartHome | src/source_base.cc:544-556 | from the line start or past the indentation: to the end of the indentation; from inside the indentation: to the line start |
| TextLines.SmartHomeToggles | src/source_base.cc:544-556 | from inside an indented line, home alternates between the line start and the indentation end |
| TextLines.TokenBounds | src/source_base.cc:618-639 | start <= pos <= end and every character between is a token character; a non-token character at pos gives the empty range at pos; otherwise the range is maximal |
| Cleanup.StripTrailing | src/source_base.cc:654-658 | the longest prefix that does not end with a blank; only blanks are removed |
| Cleanup.StripTrailingIdempotent | src/source_base.cc:654-658 | stripping twice is stripping once |
| Cleanup.CleanLines | src/source_base.cc:649-662 | every line is replaced by its cleaned form, and the number of lines is kept |
| Cleanup.CleanLineRemovesOnlyTrailingBlanks | src/source_base.cc:654-661 | a cleaned line keeps its text up to the last non-blank and its "\r\n"; only blanks before the delimiter go |
| Cleanup.CleanupText | src/source_base.cc:646-667 | the cleaned buffer is empty or ends with '\n' |
| Cleanup.CleanupLines | src/source_base.cc:646-667 | the lines of the cleaned buffer are the cleaned lines, plus one empty line when a final '\n' was added |
| Cleanup.CleanupIdempotent | src/source_base.cc:646-667 | cleaning a cleaned buffer changes nothing, when every '\r' belongs to a "\r\n" |
| Cleanup.CleanupHelloWorld | tests/source_test.cc:5-39 | the cleanup test's `hello_world` becomes `hello_world_cleaned` |
| Cleanup.TrailingBlankStart | src/source_base.cc:654-658 | the backward scan stops where the stripped line ends |
| Cleanup.BlankRangeAround | src/source_base.cc:669-688 | the erased range holds only blanks, reaches forward to the next non-blank or line end, and reaches back over the blanks before the position unless they reach the line start |
| Cleanup.PartlyCleaned | src/source_base.cc:649-662 | after n rounds the lines before n are cleaned and the others untouched |
| Cleanup.CleanStep | src/source_base.cc:649-662 | on a buffer whose first n lines are cleaned, erasing from the end of line n's stripped text up to its line end yields the buffer whose first n + 1 lines are cleaned |
| Cleanup.NextPartlyCleaned | src/source_base.cc:649-662 | one more round cleans exactly line n |
| Cleanup.LinesOfPartlyCleaned | src/source_base.cc:649-662 | the loop never changes the number of lines |
| Cleanup.EraseTrailing | src/source_base.cc:659-661 | erasing from the end of the stripped text to the line end replaces the line by its cleaned form |
| Paste.Normalised | src/source_base.cc:725-732 | the normalised paste holds no '\r', and text without '\r' is unchanged |
| Paste.NormaliseNewlines | src/source_base.cc:725-732 | the in-place replace loop computes Normalised |
| Paste.NormalisedExample | src/source_base.cc:725-732 | "\r\n" and a lone '\r' each become one '\n' |
| Paste.PasteLines | src/source_base.cc:765-773 | the lines the paste loops visit hold no '\n' |
| Paste.PasteLinesCount | src/source_base.cc:765-773 | one line per '\n', plus one for a last line not ended by '\n' |
| Paste.Leading | src/source_base.cc:778-785 | the count of leading tab characters |
| Paste.CountLeading | src/source_base.cc:777-785 | the loop counts the leading tab characters and notes whether the line holds nothing else |
| Paste.LastNonBlank | src/source_base.cc:791-797 | the last character that is not a blank, or 0 when there is none |
| Paste.FindLastNonBlank | src/source_base.cc:792-796 | the Python check's loop computes LastNonBlank |
| Paste.MeasureOne | src/source_base.cc:776-808 | one line of the first pass computes MeasureLine |
| Paste.MeasureIsMinimum | src/source_base.cc:786-812 | the measured indentation is at most that of every later non-empty line, and of the first line when that line set it |
| Paste.MeasurePaste | src/source_base.cc:759-812 | the first pass computes Measure over PasteLines (paste_line_tabs 0 when nothing was measured) |
| Paste.Dropped | src/source_base.cc:835-848 | a line loses only leading tab characters and never more than the measured indentation |
| Paste.EmitOne | src/source_base.cc:827-848 | one line of the second pass computes EmitLine |
| Paste.EmitPaste | src/source_base.cc:813-852 | the second pass computes Emit over PasteLines |
| Paste.EmitPrefixed | src/source_base.cc:840-848 | every line inserted after the first starts with the prefix, and there is one '\n' fewer than lines |
| Paste.FinalNewline | src/source_base.cc:853-855 | a final '\n' adds one '\n' followed by the prefix |
| Paste.ReindentPaste | src/source_base.cc:759-855 | both passes and the final newline compute Reindented |
| Paste.ReindentedLines | src/source_base.cc:759-855 | the inserted text has as many '\n' as the normalised paste, and every '\n' is followed by the prefix |
| Snippets.FindOpen | src/source_base.cc:1088 | a found "${" lies at or after the start |
| Snippets.FindOpenFirst | src/source_base.cc:1088 | the search finds the first "${", and nothing when there is none |
| Snippets.FindCharFirst | src/source_base.cc:1089-1091 | the search finds the first ':' or '}', and nothing when there is none |
| Snippets.Stoul | src/source_base.cc:1094 | a number read is at most the largest unsigned long |
| Snippets.StoulNeedsDigit | src/source_base.cc:1094 | std::stoul rejects a string without a digit |
| Snippets.StoulDigits | src/source_base.cc:1094 | reading a number written in decimal gives the number back |
| Snippets.NextPlaceholder | src/source_base.cc:1088-1094 | a found placeholder has "${", then ':', then '}' in that order, inside the snippet |
| Snippets.NextViaFind | src/source_base.cc:1088-1094 | finding the next placeholder is searching for "${" and reading the placeholder there |
| Snippets.ReadPlaceholder | src/source_base.cc:1088-1094 | the three searches and the number parse compute NextPlaceholder |
| Snippets.Erased | src/source_base.cc:1096-1097 | the two erases shorten the snippet by the "${", the number, the ':' and the '}' |
| Snippets.EraseTwice | src/source_base.cc:1096-1097 | erasing the '}' first and then "${N:" leaves the placeholder's text in its place |
| Snippets.ExpandStep | src/source_base.cc:1088-1100 | one turn of the loop reads and erases one placeholder and records its range, or stops |
| Snippets.ExpandShape | src/source_base.cc:1087-1107 | the expansion keeps the text before the start and its ranges follow each other within the expanded text |
| Snippets.ParseSnippet | src/source_base.cc:1086-1107 | the loop computes the expanded text and groups the ranges by number |
| Snippets.GroupArgsKeys | src/source_base.cc:1098 | the map holds exactly the placeholder numbers that occur |
| Snippets.GroupArgsValues | src/source_base.cc:1098 | each number maps to the ranges of its placeholders, in the order found, and to at least one |
| Snippets.ExpandRender | src/source_base.cc:1086-1107 | each `${N:text}` of a well-formed snippet becomes its text, and the ranges are the positions of those texts |
| Snippets.ArgsSpellText | src/source_base.cc:1095-1099 | each recorded range of the expanded text spells its placeholder's text and carries its number |
| Snippets.StopsAtMalformed | src/source_base.cc:1087-1107 | for any well-formed placeholders followed by a tail whose first "${" does not start a placeholder, parsing expands the placeholders, keeps the tail verbatim at the end and records no range inside it |
| Snippets.NextPlaceholderShift | src/source_base.cc:1088-1094 | text before the search start does not change what is found after it: the result is shifted by the text's length |
| Snippets.MissingNumberStops | src/source_base.cc:1094 | a "${" whose number part has no digit is the first placeholder found and stops parsing |
| Snippets.ParsedRangesWithin | src/source_base.cc:1095-1099 | every recorded range is ordered and lies within the expanded text |
| TabDetection.SelectedIsFirstMaximum | src/source_base.cc:444-460 | the choice has the largest count and is the first such entry, or the null key when every count is 0 |
| TabDetection.SelectMostFrequent | src/source_base.cc:444-451 | the selection loop computes Selected |
| TabDetection.FindTabCharAndSize | src/source_base.cc:307-460 | Python gets (' ', 4); otherwise the most frequent character and size |
| TabDetection.DetectedIsSmallestMostFrequent | src/source_base.cc:444-460 | over ordered maps, the chosen key is counted most often, ties go to the smaller key, and 0 is chosen iff nothing was counted |
| SourceBase.TabString | src/source_base.cc:467-469 | the indentation unit is the character repeated exactly n times |
| SourceBase.MovedInside | src/source_base.cc:1109-1112 | an edit keeps a mark inside the buffer, and two marks of one gravity keep their order |
| SourceBase.MarksStayWithin | src/source_base.cc:1120-1151 | an edit keeps every snippet range ordered and inside the buffer, and every extra cursor inside it |
| SourceBase.Largest | src/source_base.cc:1113 | the reverse visit of the argument map starts at its largest number |
| SourceBase.SortedKeys | src/source_base.cc:1113 | the numbers of the map, each once, in increasing order |
| SourceBase.NewGroupsOrder | src/source_base.cc:1113-1123 | one queued group per number, by increasing number, each holding that number's ranges in order moved to the insertion offset, none empty |
| SourceBase.ShiftRanges | src/source_base.cc:1115-1120 | each range moved to the insertion offset |
| SourceBase.Starts | src/source_base.cc:1151 | an extra cursor at the start of each range |
| SourceBase.PastePrefix | src/source_base.cc:755-757 | the blanks from the start of the cursor's line up to the first other character or the cursor |
| SourceBase.BaseView.constructor | src/source_base.cc:40-49 | the configured indentation, replaced by the detected one when detection is on and finds a non-zero size; `tab` is the character repeated that many times |
| SourceBase.BaseView.SetTabCharAndSize | src/source_base.cc:463-470 | `tab` becomes the character repeated exactly n times, and nothing else changes |
| SourceBase.BaseView.Replace | src/source_base.cc:1109-1112 | the range is replaced and every mark moves with the text, by its gravity |
| SourceBase.BaseView.CleanupWhitespace | src/source_base.cc:646-667 | the text becomes CleanupText of the old text, and the settings are kept |
| SourceBase.BaseView.CleanAllLines | src/source_base.cc:649-662 | the loop over the lines cleans every line |
| SourceBase.BaseView.EraseTrailingBlanks | src/source_base.cc:650-661 | one round erases the blanks before the end of one line |
| SourceBase.BaseView.EraseSelection | src/source_base.cc:750-754 | the selection is erased and the cursor and the bound meet at its start |
| SourceBase.BaseView.PrefixTabs | src/source_base.cc:755-757 | the prefix is PastePrefix at the cursor |
| SourceBase.BaseView.Paste | src/source_base.cc:722-855 | a whitespace-only paste is handed back unchanged; otherwise the selection is replaced by the re-indented normalised text, the cursor ends after it and the marks move with the edits |
| SourceBase.BaseView.InsertSnippet | src/source_base.cc:1085-1127 | the expanded snippet is inserted; one group per number is queued in front by increasing number; when there is a group its first range is selected and extra cursors are put at its other ranges |
| SourceBase.BaseView.QueueGroups | src/source_base.cc:1113-1123 | the queue becomes NewGroups in front of the old queue |
| SourceBase.BaseView.QueueAll | src/source_base.cc:1113-1123 | visiting the numbers from the largest down and pushing each group on the front gives NewGroups in front of the queue, all inside the buffer |
| SourceBase.BaseView.ShiftGroup | src/source_base.cc:1115-1122 | the inner loop creates the mark pairs of one group at the insertion offset |
| SourceBase.BaseView.SelectSnippetArgument | src/source_base.cc:1129-1163 | returns true iff the queue was non-empty; the front group is removed, its first range selected and an extra cursor put at the start of each other range, replacing the old extra cursors; an empty queue also clears the extra cursors |
| SourceBase.BaseView.ClearSnippetMarks | src/source_base.cc:1165-1191 | the queue and the extra cursors are emptied; the result says whether there was anything to clear |

## Left out

- Threads, `std::atomic`, the dispatcher, mutexes and the parse lock. Worker completion and the posted continuation are explicit sequential steps; thread safety is not modelled.
- GTK and GtkSourceView objects are not modelled: the completion dialog, tooltips rendering, tags, user-action grouping, scrolling and the search/replace API. The dialog is a flag with its rows. The tooltip is an optional string.
- The backward move of the completion prefix is a success/failure input. `prefix` is set by the clients of the coordinator and is kept as the field `prefixSize`.
- Hooks with no observable effect are not counted: before_add_rows, after_add_rows, on_show, on_hide, on_changed, on_select and get_tooltip. Their answers, where they matter, are parameters.
- File I/O and monitoring are not modelled: `load`, `rename`, `monitor_file`, `check_last_write_time`, UTF-8 validation.
- `replace_text` depends on a git diff and on floating-point rounding.
- The clipboard is not modelled. That covers `cut` and `cut_line`, and GTK's own paste of a whitespace-only clipboard: `Paste` hands that text back instead of inserting it.
- The extra-cursor signal handlers are reactive GTK callbacks.
- SourceBase.BaseView.Paste: `paste` turns on `enable_multiple_cursors` (src/source_base.cc:717), and when extra cursors exist the handlers at src/source_base.cc:1026-1081 repeat each insert and erase at every extra cursor; the model describes the single insertion at the cursor only.
- `set_snippets` depends on a regex match.
- `get_smart_end_iter`, `get_line` and `get_line_before` are not modelled.
- The character scan of `find_tab_char_and_size` is not modelled. The counts are inputs. Only the Python rule and the selection step are modelled.
- Compile-command inputs are not modelled:
  - the JSON reading of the compilation database;
  - `clangmm::CompilationDatabase`, whose argument lists and load result are inputs;
  - the lookup of sibling source files for a header, whose result is part of the input commands;
  - the clang version regex (the version is an input);
  - `getenv`;
  - the platform-specific include directories.
- SourceBase.BaseView.Replace: marks are offsets moved by GTK's gravity rule. Snippet marks have left gravity; the cursor, the selection bound and the extra cursors have right gravity. GTK's mark objects and their deletion are not modelled.
- TextLines.SplitLines: a lone '\r' is an ordinary character. GTK also ends a line at a lone '\r'. "\r\n" is one delimiter, as in GTK.
- TextLines.IterAtLineOffset: also stands for `get_iter_at_line_index`, which counts bytes. Characters are taken as one byte each.
- Snippets.Stoul: base 10 only, as `insert_snippet` calls it. An out-of-range value is rejected like a missing digit.
- SourceBase.BaseView.CleanupWhitespace: for marks, the contract states only that they keep their number and stay inside the buffer, not where each one moves.
- Cleanup.CleanupIdempotent: stated only for buffers whose every '\r' belongs to a "\r\n", because lone '\r' line ends are not modelled.

## Findings

| source | as written | input that shows it | evidently intended | confidence | as-written member | corrected member |
|---|---|---|---|---|---|---|
| src/compile_commands.cc:38-76 | a parameter is cut out as `substr(start, size)`, where `size` counts only the characters kept but quotes that toggle are not counted; a quote inside a parameter therefore stays and the parameter's last character is lost | the command `x"a"` gives the parameter `x"` | quotes are dropped and the parameter is `xa`, as for a fully quoted parameter | not executed | CompileCommands.QuoteInsideParameter | CompileCommands.QuotedParameter |
