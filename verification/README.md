# A model of the command-line interface library core

This project models two parts of a small embedded CLI library.

The **command core** (`src/lib_cli_core.c`) covers:

- the binary search tree of command names;
- the counting, arming and activation of the command registry;
- the classification of commands into user groups;
- the normalisation and dispatch of a command line;
- the help-flag check;
- the clone counter;
- the list of user-interface sinks and what happens to it on quit.

The **console** (`src/lib_cli_console.c`) covers:

- the key state machine that reads the prompt line;
- the four-slot command history with its arrow-key navigation;
- Tab completion: the prepare pass, the outcome on the line, and the column layout of the match list;
- the non-blocking poll budget;
- one whole call of the console handler, from its set-up checks to the hand-over of the command word and arguments to the core.

Every operation is a pure function or a method over immutable datatypes:

- the tree is a `datatype`;
- strings are `seq<char>`, with a NUL-terminated buffer read through `CStrings.CStr`;
- 32-bit masks are `bv32`;
- `unsigned` arithmetic is written out with `% 2^32` where it can wrap.

Input characters, `select` answers, allocation outcomes and the return value of a command handler are parameters.

Modules, one per file:

- `CStrings`: C string helpers.
- `CmdTree`: the key tree.
- `Groups`: the group mask.
- `Registry`: key_add and the life cycle.
- `UserIf` and `UserQuit`: the sink list.
- `Dispatch`: line normalisation, `cmd_parse_execute` and `cmd_check_help`.
- `LineRead`: `cmd_line_read`.
- `CmdHistory`: the history ring.
- `Completion`: Tab.
- `Console`: the read count, the `sscanf` word and the arguments.
- `ConsoleLoop`: `console_handle`.

Where the source has a defect shown under "## Findings", the model keeps two definitions:

- the code as written, with a lemma exhibiting the defect;
- a corrected definition, which the rest of the model uses.

## Model

| member | source | states |
|---|---|---|
| CmdTree.Insert | src/lib_cli_core.c:317-367 | a key already on the search path is refused unless it is the empty-command marker; with no free node nothing changes; on success the tree holds one node more and its keys gain exactly the new key |
| CmdTree.InsertAddsEntry | src/lib_cli_core.c:339-366 | a successful insertion adds exactly the one (key, data) entry and removes none |
| CmdTree.InsertKeepsOrdered | src/lib_cli_core.c:317-366 | insertion keeps the search-tree order: every key left of a node is less than its key, none right of it is |
| CmdTree.Find | src/lib_cli_core.c:372-393 | whatever the lookup returns is stored in the tree under that key |
| CmdTree.FindIffPresent | src/lib_cli_core.c:372-393 | in an ordered tree the lookup succeeds exactly for the keys present |
| CmdTree.InsertDuplicateIff | src/lib_cli_core.c:327-336 | insertion reports a duplicate exactly when the key is present and is not the empty-command marker |
| CmdTree.FindAfterInsert | src/lib_cli_core.c:317-393 | after a successful insert, looking the key up returns the data just inserted |
| CmdTree.FindOtherAfterInsert | src/lib_cli_core.c:317-393 | inserting one key never changes what a lookup of any other key returns |
| CmdTree.InsertKeepsUnique | src/lib_cli_core.c:317-367 | inserting an absent key keeps every key except the marker unique in the tree |
| CmdTree.Traverse | src/lib_cli_core.c:204-217 | the in-order walk visits every key of the tree except the empty-command marker, and nothing else |
| CmdTree.TraverseSorted | src/lib_cli_core.c:204-217 | in a search tree the walk visits the names in strcmp order: no name comes after a greater one |
| CmdTree.TraverseDistinct | src/lib_cli_core.c:204-217 | in a tree with unique keys the walk visits no name twice |
| Groups.GroupBitInRange | src/lib_cli_core.c:311 | the bit of a counted group is a user bit, differs from the misc bit, and lies within the registered groups |
| Groups.BestMatch | src/lib_cli_core.c:286-306 | finds a table entry whose search key is a prefix of the long name exactly when one exists; it is a longest one, and the first of the longest |
| Groups.PrefixGroup | src/lib_cli_core.c:286-311 | the result is the misc group exactly when no entry matches; otherwise it is a registered group bit |
| Groups.GroupMask | src/lib_cli_core.c:269-312 | an explicit mask naming unregistered groups yields those groups; an explicit registered mask yields itself; without one, the long-name lookup decides; the result is always a nonzero user mask |
| Groups.GroupMaskRegistered | src/lib_cli_core.c:283-311 | when the request names no unregistered group, any result other than misc is a registered group |
| Groups.NoteUnregistered | src/lib_cli_core.c:277-280 | only the not-registered mask changes; it gains the unregistered bits requested, and its registered part stays the same |
| Groups.PrefixGroupIsLongestEarliest | src/lib_cli_core.c:286-311 | with no explicit mask, a command goes to the group of the longest matching search key, the earliest among equals |
| Groups.GroupInit | src/lib_cli_core.c:1847-1923 | outside counting nothing happens; a list of 15 or more groups is refused; without names or entries nothing is registered and the call succeeds; otherwise it succeeds exactly when every entry names a listed group and the allocation works, and then the names, the entries and the first-n-groups mask are registered, else nothing is |
| Groups.GroupInitClassifies | src/lib_cli_core.c:269-312 | after a successful set-up, a command without explicit bits gets the group of its best matching search key, or the misc group when none matches; a command asking for one listed group gets exactly it |
| Groups.TableClassifies | src/lib_cli_core.c:286-311 | without explicit bits the group is the one of the best matching table entry, or misc |
| Groups.ExplicitGroupKept | src/lib_cli_core.c:277-284 | a request for a single group bit returns that bit, whether the group is registered or not |
| Registry.NewCore | src/lib_cli_core.c:727-772 | a new core is consistent, empty and counting, in the output mode asked for |
| Registry.SelectFct | src/lib_cli_core.c:1991-2035 | the buffer or file handler is picked by the core's output mode, and a missing one is reported |
| Registry.InsertKey | src/lib_cli_core.c:317-367 | the used-node count grows exactly when the tree insertion succeeds, and a node is taken only while the arena has room |
| Registry.KeyAdd | src/lib_cli_core.c:395-507 | counting adds two nodes to the count; the wrong state, a null name or a missing handler is an error; no more than two nodes are used; no key is lost; without an error exactly the short and the long name are added |
| Registry.InsertKeyPreservesValid | src/lib_cli_core.c:317-367 | a single insertion keeps the core consistent (order, unique keys, node count, handler shape) |
| Registry.KeyAddPreservesValid | src/lib_cli_core.c:395-507 | registering a command in any state keeps the core consistent |
| Registry.KeyAddRegistersBoth | src/lib_cli_core.c:461-506 | after a clean registration the short name finds the long name and the mask, and the long name finds the short name and the mask with the long-form bit |
| Registry.KeyAddDuplicateShortKeepsFirst | src/lib_cli_core.c:461-506 | registering a short name a second time leaves the first registration's data in place; when the long name is new and a node is free the call still succeeds and the long name finds the short name, the mask with the long-form bit and the handler |
| Registry.KeyAddDuplicateLongFails | src/lib_cli_core.c:485-498 | registering an existing long name is an error, and the existing long entry is unchanged |
| Registry.CfgModeCmdReg | src/lib_cli_core.c:1713-1751 | the arena is armed exactly when the core is counting, counted at least one node, and the allocation succeeds; otherwise nothing changes |
| Registry.CfgModeActive | src/lib_cli_core.c:1753-1778 | the core becomes active exactly when it is allocating, has an arena and holds at least one command |
| Registry.Shutdown | src/lib_cli_core.c:1687-1711 | shutdown leaves a consistent, empty core that counts again |
| Registry.ShutdownIsFresh | src/lib_cli_core.c:1687-1751 | a shut-down core equals a new one, so it cannot be armed before commands are counted again |
| Registry.RegisterAll | src/lib_cli_core.c:395-507 | registering a list of commands while counting adds two nodes per command to the count and never runs out of nodes; in any state no registered key is lost |
| Registry.RegisterAllPreservesValid | src/lib_cli_core.c:395-507 | registering a list of commands keeps the core consistent |
| Registry.RegisterAllHasRoom | src/lib_cli_core.c:339-349 | with two free nodes per command, registration never runs out of nodes |
| Registry.SetupSequence | src/lib_cli_core.c:1713-1778 | counting a list, arming and registering the same list succeeds, and the core can then be made active |
| Registry.Clone | src/lib_cli_core.c:2301-2362 | only an active core can be cloned; the clone shares the tree and groups, owns no arena, and the parent's clone count grows by one |
| Registry.ReleaseClone | src/lib_cli_core.c:1794-1802 | releasing a clone lowers the parent's counter by one, never below zero, and changes nothing else |
| Registry.CloneRelease | src/lib_cli_core.c:2301-2362 | cloning then releasing restores the parent, and the clone finds exactly what the parent finds |
| UserIf.Register | src/lib_cli_core.c:2462-2514 | a new sink is appended last with a fresh handle; an already filled slot or a failed allocation changes nothing |
| UserIf.IndexOf | src/lib_cli_core.c:2533-2552 | the unlink walk finds the first sink with the handle, or reports that none has it |
| UserIf.Unregister | src/lib_cli_core.c:2516-2565 | succeeds exactly when a sink has the handle, and removes that one sink in place; an empty slot is a no-op success |
| UserIf.UnregisterPreservesValid | src/lib_cli_core.c:2516-2565 | unregistering keeps the handles distinct, and the handle is gone afterwards |
| UserIf.RegisterUnregister | src/lib_cli_core.c:2462-2565 | registering then unregistering the new handle restores the sink list |
| UserIf.ExitCallsMembers | src/lib_cli_core.c:1191-1209 | quit calls an exit callback exactly for the sinks that have one |
| UserIf.ExitCallsAppend | src/lib_cli_core.c:1191-1209 | the exit calls of two lists laid end to end are the calls of each, in order |
| UserIf.RegisteredLastQuitsLast | src/lib_cli_core.c:1191-1209 | the sink registered last has its exit callback called last |
| UserIf.SurvivorsMembers | src/lib_cli_core.c:1191-1209 | after quit, exactly the sinks whose exit callback does not unregister them remain |
| UserQuit.QuitAll | src/lib_cli_core.c:1191-1209 | walking the list while callbacks unlink their own sink calls every exit callback once, in list order, and leaves a consistent list of exactly the sinks that did not unlink themselves |
| Dispatch.RemoveWhitespacesAsWritten | src/lib_cli_core.c:522-555 | the loop as written drops leading blanks, keeps one blank of each run and keeps every non-blank in order; the words of the line stay the same words, in order, so no two words are joined |
| Dispatch.CollapseAsWrittenWords | src/lib_cli_core.c:533-552 | the collapsing loop as written only drops blanks: the words of the line are the same before and after |
| Dispatch.RemoveWhitespacesAsWrittenKeepsTrailingBlank | src/lib_cli_core.c:536-548 | any word without blanks followed by two blanks keeps one trailing blank, so the result is not collapsed |
| Dispatch.RemoveWhitespaces | src/lib_cli_core.c:522-555 | the result has no leading, trailing or doubled blank, the same non-blank characters in order, and exactly the same words in order |
| Dispatch.CollapseWords | src/lib_cli_core.c:533-552 | the corrected collapsing loop keeps the words of the line, and starts inside a word exactly when the line does |
| Dispatch.RemoveWhitespacesFixpoint | src/lib_cli_core.c:522-555 | a line is left unchanged exactly when it is already collapsed, so collapsing twice is the same as once |
| Dispatch.RemoveWhitespacesAgree | src/lib_cli_core.c:522-555 | on a line that does not end in a blank the corrected and the as-written loop give the same result |
| Dispatch.RemovePrefixAsWrittenErasesShortLine | src/lib_cli_core.c:562-598 | as written, a line that is a proper prefix of the reserved prefix ("CL", "C") comes back empty |
| Dispatch.RemovePrefix | src/lib_cli_core.c:562-598 | a line starting with the reserved prefix loses exactly that prefix; any other line is unchanged |
| Dispatch.RemovePrefixAgree | src/lib_cli_core.c:562-598 | the two versions differ exactly on the nonempty lines shorter than the prefix that start a prefix of it |
| Dispatch.SplitWordJoin | src/lib_cli_core.c:795-803 | splitting at the first blank gives the command word and the tail, and putting them back around that blank gives the line |
| Dispatch.SplitWordNormalized | src/lib_cli_core.c:788-803 | the tail of a collapsed line is collapsed, and a nonempty tail comes with a nonempty word |
| Dispatch.Execute | src/lib_cli_core.c:805-868 | a handler is called only for a registered command, with that command and the argument tail, and with the core context exactly for a built-in |
| Dispatch.ExecuteLookup | src/lib_cli_core.c:805-868 | a registered command calls its stored handler; an unregistered one gets the unknown-command reply in the buffer |
| Dispatch.ParseExecuteLookup | src/lib_cli_core.c:775-871 | the whole line is dispatched by its normalised first word, with the rest of the normalised line as argument |
| Dispatch.ParseExecuteSkipsLeadingBlank | src/lib_cli_core.c:528-531 | a blank in front of a line changes nothing in how it is dispatched |
| Dispatch.SplitJoinLine | src/lib_cli_core.c:795-803 | a word and a tail joined by one blank split back into exactly that word and tail |
| Dispatch.NormalizeJoinLine | src/lib_cli_core.c:788-789 | a collapsed line whose word does not start with the reserved prefix is already normalised |
| Dispatch.NormalizeKeeps | src/lib_cli_core.c:788-789 | a collapsed line that does not start with "CLI" comes out of the clean-up unchanged |
| Dispatch.ParseExecuteNormalizedLine | src/lib_cli_core.c:775-871 | a word followed by a collapsed argument string reaches the stored handler with exactly that word and argument string |
| Dispatch.CheckHelpFrom | src/lib_cli_core.c:618-639 | the table loop answers true exactly when some flag from that entry on stands alone at the start of the line |
| Dispatch.CheckHelp | src/lib_cli_core.c:600-642 | a help request is a help flag at the very start, followed by a blank or the end; a null argument is none |
| Dispatch.CheckHelpExamples | src/lib_cli_core.c:620-636 | a flag after the command or glued to more text is no help request; "-h" alone or "--help all" is |
| LineRead.ReadLoop | src/lib_cli_console.c:490-627 | the line never exceeds the count given; Ctrl-D ends with no key; with keys still to read, at least one is consumed |
| LineRead.ReadLoopGrows | src/lib_cli_console.c:490-627 | the line only grows from what was there, except for backspace, which removes the last character; the terminator follows the line, or lands before the buffer when backspace finds it empty |
| LineRead.ReadLoopNoDoubleSpace | src/lib_cli_console.c:510-527 | within one read, a line that has no doubled blank and does not end in a blank (unless the loop has just written that blank) gets no doubled blank |
| LineRead.ReadLoopNoLeadingBlank | src/lib_cli_console.c:503-506 | blanks typed before the first character never reach the line |
| LineRead.KeyOfControl | src/lib_cli_console.c:530-566 | while the count is not used up, Enter (CR or LF) ends the read with the Enter key, either backspace with the backspace key and the last character removed, Tab with the Tab key, Ctrl-D with no key and the run flag cleared; the line is otherwise unchanged and the input after the key is left |
| LineRead.KeyOfArrow | src/lib_cli_console.c:569-612 | ESC [ A ends the read with the up key, ESC [ B with the down key, any other third character with a plain character; nothing of the sequence reaches the line |
| LineRead.KeyOfEscape | src/lib_cli_console.c:569-612 | ESC followed by anything but [ ends the read with a plain character, consuming both |
| LineRead.TypeEnter | src/lib_cli_console.c:490-566 | typing ordinary characters that fit and then Enter ends the read with exactly them appended, Enter as the key and the rest of the input left |
| LineRead.TypeFill | src/lib_cli_console.c:487-624 | as written, typing exactly the count's worth of ordinary characters appends them all and ends the read with a plain-character key |
| LineRead.ReadLineAsWritten | src/lib_cli_console.c:484-627 | as written, the terminator index lies between -1 and the buffer size, both included |
| LineRead.ReadLineAsWrittenOverflows | src/lib_cli_console.c:487-624 | typing 640 characters into an empty line writes the terminator at index 640, past the buffer |
| LineRead.ReadLineAsWrittenStallsWhenFull | src/lib_cli_console.c:487-490 | on a full line a read consumes no key and reports a plain character, so Enter is never seen |
| LineRead.ReadLineAsWrittenBackspaceUnderflows | src/lib_cli_console.c:530-536 | backspace on an empty line writes the terminator at index -1 |
| LineRead.ReadLine | src/lib_cli_console.c:470-627 | the terminator stays inside the buffer at the end of the line; each read consumes a key; the line extends what was there unless the key is backspace |
| LineRead.ReadLineCollapsed | src/lib_cli_console.c:503-527 | a line read from an empty prompt has no leading and no doubled blank |
| LineRead.ReadLineKey | src/lib_cli_console.c:470-627 | a prompt-line read returns the key typed: Enter, Tab, Ctrl-D with the console stopped, backspace with the last character removed (terminator at 0 on an empty line), and the up and down arrows, each with the rest of the input left |
| LineRead.ReadLineDoublesBlankAcrossCalls | src/lib_cli_console.c:480-527 | the blank counter starts at zero on each call, so a blank typed after a line that already ends in a blank is appended and the line holds a doubled blank |
| LineRead.TypeThenEnter | src/lib_cli_console.c:490-566 | typing text that fits and pressing Enter yields that text appended to the line, with Enter as the key |
| CmdHistory.Up | src/lib_cli_console.c:789-806 | Up steps back one slot in the ring and recalls it; an empty slot restores the entry position and keeps the line; the stored lines never change |
| CmdHistory.Down | src/lib_cli_console.c:808-826 | Down steps forward one slot with the same handling of an empty slot |
| CmdHistory.UpThenDown | src/lib_cli_console.c:789-826 | between written slots, Down undoes Up and recalls the line the cursor was on |
| CmdHistory.Store | src/lib_cli_console.c:902-918 | a line is written to the next slot unless the last stored line starts with the same command-word length of text; either way the arrow keys restart at the next slot |
| CmdHistory.StoreKeepsLinked | src/lib_cli_console.c:902-918 | storing keeps the last-written slot just before the next one and non-empty |
| CmdHistory.StoreThenUp | src/lib_cli_console.c:789-806 | Up right after a command recalls a line that agrees with it on the command word's length of text, and recalls the line itself when it was stored |
| CmdHistory.NoRepeatedStore | src/lib_cli_console.c:906-916 | the same command submitted twice in a row is stored once |
| Completion.Matches | src/lib_cli_console.c:351-356 | the commands the prepare pass counts are exactly the registered names the line is a prefix of |
| Completion.Prepare | src/lib_cli_console.c:345-381 | the match count is the number of names the line starts, and the remembered match is the last of them in tree order |
| Completion.PrepareMaxLen | src/lib_cli_console.c:358-359 | the maximum length is the length of the longest match, or zero without matches |
| Completion.FirstMismatchIsLcp | src/lib_cli_console.c:363-373 | the character scan stops at the first position where two names differ |
| Completion.PrepareCommonPrefix | src/lib_cli_console.c:345-381 | with two or more matches the kept character count is a common prefix of all matches, and one that some neighbouring pair does not extend |
| Completion.Complete | src/lib_cli_console.c:833-875 | Tab keeps the line or replaces it by at most the characters of one registered name |
| Completion.CompleteExtends | src/lib_cli_console.c:833-875 | Tab never removes typed characters and every match still starts with the new line; one match becomes the line; with several, no longer common prefix exists |
| Completion.TerminalWidth | src/lib_cli_console.c:242-258 | the width is the reported column count, or a positive default when none is reported |
| Completion.Layout | src/lib_cli_console.c:846-851 | one column when the width does not exceed the longest name; otherwise the number of columns is the width divided by the longest name plus one, rounded down; the column width is the width divided by the number of columns, rounded down, and then wider than the longest name |
| Completion.LayoutUnique | src/lib_cli_console.c:846-851 | those bounds leave exactly one column count and one column width for each width and name length |
| Completion.LineOfMatch | src/lib_cli_console.c:401-404 | match i ends up on row i div m, except that with one match per row the first two share a row |
| Completion.PrintCell | src/lib_cli_console.c:399-410 | each printed match starts with its name; a cell that ends a row is the name and the line end, any other is the name padded with blanks to the column width (or the bare name when it is wider) |
| Completion.PrintMatches | src/lib_cli_console.c:387-416 | the print pass prints one cell per match, in order: the match itself, then the line end exactly where the row breaks, else blanks up to the column width |
| Completion.PrintedRows | src/lib_cli_console.c:387-416 | before the match with index i the printed list holds exactly i div matches_per_line line ends, one fewer with one match per row, so the matches are printed in columns, matches_per_line to a row |
| Console.CycleTime | src/lib_cli_console.c:285 | the cycle is the requested one, or a positive default when zero is requested |
| Console.NonBlockInit | src/lib_cli_console.c:262-305 | initialisation succeeds unless non-blocking is requested on an input without a descriptor; only a successful non-blocking initialisation passes the handler's set-up check |
| Console.ReadCount | src/lib_cli_console.c:719-728 | the count is the wait-forever value exactly when the timeout is; a timeout shorter than one cycle gives one poll; otherwise the count is the timeout divided by the cycle, rounded down, and is at least one |
| Console.IdlePollWithinTimeout | src/lib_cli_console.c:771-779 | an idle poll never lets the count or the time left exceed the caller's timeout, so the unsigned product never wraps |
| Console.ReadCountWithinTimeout | src/lib_cli_console.c:719-728 | the count a call starts with stays within its timeout |
| Console.FirstWord | src/lib_cli_console.c:896-900 | the command word is at most 64 characters, occurs right after the leading blanks, holds no white space, and runs up to white space, the end of the line or the 64-character limit; it is empty exactly when the line holds only blanks |
| Console.FirstWordArgs | src/lib_cli_console.c:896-925 | a line typed as a word, one blank and arguments hands exactly that word and those arguments to the core |
| ConsoleLoop.EditLine | src/lib_cli_console.c:787-888 | only the arrow keys and Tab change the line; the stored history lines and write positions never change; the line still fits the prompt buffer |
| ConsoleLoop.Handle | src/lib_cli_console.c:672-940 | a non-blocking call without a timeout or set-up is an error; a stopped console quits and keeps its history; an executed command is the line's first word with the rest as arguments, and the line is stored in the history; the handler returning 1 means quit; the time left never exceeds the timeout; a typed command followed by Enter executes exactly that line |

## Left out

- Output is not modelled. That covers the prompt, the echo and redraw of the line, the match-list `fprintf`, and the text the built-in help/what/tree commands print. The model keeps only what is printed (`Completion.PrintCell`) and the reply strings of `cmd_parse_execute`.
- `select`, `ioctl` and `char_read` are not modelled as calls. Their answers are parameters (`ConsoleLoop.Poll`, the input sequence, `TerminalWidth`'s reported width).
- Locks, memory allocation and freeing are not modelled. A failed allocation is a boolean parameter, for example in `Registry.CfgModeCmdReg` and `UserIf.Register`.
- `cli_sscanf` is not modelled: the core's own scanf is outside the named core. The console's `%64s` is modelled by `Console.FirstWord`.
- The built-in commands' bodies are not modelled: help, what, tree print, quit. Only `all_user_if_quit` is, which the quit command calls. Handlers are opaque numbers.
- `cli_core_cmd_arg_exec__file` is not modelled as a call. The handler's return value is a parameter of `ConsoleLoop.Handle`. `Dispatch.ParseExecute` models the shared dispatcher.
- The pipe and Linux front ends (`lib_cli_pipe.c`, `lib_cli_linux.c`) are not part of this model.
- The prompt-update flag `b_upd_prompt` and the `b_new_call == 0` path are not modelled. Both public entry points always pass a new call.
- ConsoleLoop.Handle: two kinds of endless loop in the source are a `Stalled` outcome. One is blocking mode, where the input is used up and `char_read` keeps reporting end of file. The other is non-blocking mode, where the polls run out.
- ConsoleLoop.Handle: command names are assumed shorter than the prompt buffer (`KeysFit`). Tab copies a name into the 640-byte line with `strcpy`.
- ConsoleLoop.Handle: the non-blocking timeout is assumed to fit in 32 bits, as the `unsigned int` argument does.
- ConsoleLoop.Handle: a command word longer than 64 characters is cut at 64, as `%64s` reads it. Writing 64 characters and the terminator into the 64-byte `user_cmd` overflows it by one byte, and that is not modelled.
- Console.Args: when the word reaches the end of the line, `prompt_line + len + 1` points past the terminator at bytes zeroed on entry. The model returns the empty string. Bytes left there by a Tab or history recall before the current line are not modelled.
- ConsoleLoop.Handle: the source does not record an Executed outcome's return code. A quit from the handler and an empty line (no word) both make the call return an error. `cli_console_run` then stops its loop in both cases, so an empty Enter ends a console run. The model reports them as `Executed` with `handlerQuit` and as `NoCommand`.
- Completion.LineOfMatch: the row break counts from the first match, so with one match per row the first two share a row. This is modelled as written; it is not treated as a defect because the terminal wrap hides it.
- CStrings: `strcmp` order on `char` values stands in for the unsigned-byte comparison of the C library. Characters above 255 cannot occur in the source's byte strings.
- Groups.GroupInit: the two fixed group description strings are left out. They only feed the help output.
- LineRead.ReadLoopNoDoubleSpace: holds within one call only. `cmd_line_read` starts each call with `blank_cnt` at zero. A line left ending in a blank by a backspace, a history recall or a completion therefore gets a second blank when one is typed next. `LineRead.ReadLineDoublesBlankAcrossCalls` shows this; the doubled blank is removed later by the dispatcher's `remove_whitespaces`.

## Findings

| source | as written | input that shows it | evidently intended | confidence | as-written member | corrected member |
|---|---|---|---|---|---|---|
| src/lib_cli_core.c:522-555 | `remove_whitespaces` keeps one blank of a trailing run of blanks | any word followed by two blanks, e.g. "foo  " gives "foo " | no trailing blank, like the leading ones | not executed | Dispatch.RemoveWhitespacesAsWrittenKeepsTrailingBlank | Dispatch.RemoveWhitespacesFixpoint |
| src/lib_cli_core.c:562-598 | `remove_prefix` returns an empty string for a line that is a proper prefix of "CLI" | "CL" or "C" | the line unchanged, since it does not start with the prefix | not executed | Dispatch.RemovePrefixAsWrittenErasesShortLine | Dispatch.RemovePrefixAgree |
| src/lib_cli_console.c:487-627 | `cmd_line_read` is called with the full buffer size, and backspace moves before the buffer | 640 typed characters put the terminator at index 640; a full line stops reading keys; backspace on an empty line writes index -1 | the count leaves room for the terminator, backspace stops at the start, and a full line still reads Enter | not executed | LineRead.ReadLineAsWrittenOverflows | LineRead.ReadLine |

For the third row:

- `LineRead.ReadLineAsWrittenStallsWhenFull` and `LineRead.ReadLineAsWrittenBackspaceUnderflows` show the other two inputs.
- `LineRead.TypeThenEnter` proves that the corrected read delivers a typed line with Enter.
- `ConsoleLoop.Handle` uses the corrected read.

The dispatcher (`Dispatch.ParseExecute`) uses the corrected `RemoveWhitespaces` and `RemovePrefix`. `Dispatch.RemoveWhitespacesAgree` and `Dispatch.RemovePrefixAgree` state where the two versions coincide.
