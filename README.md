# dmcc: the inotify watcher and the command-line reader

dmcc watches a directory with Linux inotify and takes commands from an
interactive prompt. This project models two sequential cores of it and
proves properties of the models.

**The watcher** is `src/dmcc/inotify/inotify.cpp`. The model covers:
- the table from watch descriptors to watched paths that `add_watch` fills;
- the `listen` loop. It reads chunks of back-to-back kernel records in the
  inotify(7) layout: a 16-byte header of `wd`, `mask`, `cookie` and `len`,
  then `len` name bytes. It walks each chunk with a cursor that advances by
  16 + `len`. For each record it resolves the path through `m_wd_map[wd]`,
  joins the record's name to it, and emits the event signal. It stops as
  soon as the signal returns true;
- the `event` accessors.

The modules are:
- `InotifyRecord` (`inotify_record.dfy`): pure record layout, the walk, and
  an encoder as the walk's partner.
- `Inotify` (`inotify.dfy`): the listen loop as functions, with their
  lemmas, and the class `Inotify`. The class has the table and the slots as
  fields. Its methods are proved against those functions.

**The reader** is `src/dmcc/readline/reader.cpp`. The model covers:
- `parse_command`: a boost escaped-list tokenizer with escape `\`,
  separator space and quotes `"` `'`. Empty tokens are dropped.
- the readline completion callback `compl_proxy`. It keeps its state in
  statics. It decides between argument completion and command completion
  with a regular expression. It enumerates command names by prefix in map
  order.
- `readline()` with its history rule.
- `run_mainloop`.
- registration with `operator<<` and `add`.

The modules are:
- `LineSyntax` (`line_syntax.dfy`): tokenizer, trim and the completion
  pattern.
- `CommandTable` (`command_table.dfy`): the global `cmd_pairs` map, kept as
  a list in key order, and the command signals.
- `Reader` (`reader.dfy`):
  - `ParseCommand`;
  - the class `Completer` (the statics of `compl_proxy`);
  - the class `Reader` (`exit`, `history`, and the main loop).
- `Wrappers` (`wrappers.dfy`): `Option`.

Where the headers and the code disagree, the model follows the code:
- `listen` stops when the signal returns **true**. The comment in
  `inotify.hpp:84` says false.
- `m_wd_map` holds paths, as `inotify.cpp:58` inserts them. `inotify.hpp:93`
  declares shared pointers to `watch`.
- An event carries its resolved path (`inotify.cpp:101`, `149`).

Kernel calls and the line editor are parameters:
- the descriptor that `inotify_init` returns;
- the `wd` that `inotify_add_watch` returns;
- the chunks that `read` returns, as a sequence;
- the lines the editor delivers (`None` for end of input);
- readline's line buffer;
- `rl_filename_completion_function`.

Slots and completion callbacks are Dafny function values. A signal's value
is its last connected slot's result, as the default combiner gives it.

## Model

| member | source | states |
|---|---|---|
| InotifyRecord.I32 | src/dmcc/inotify/inotify.cpp:118-122 | `wd` is the header's first word read as a signed 32-bit value: in range, and its two's-complement image is the unsigned word |
| InotifyRecord.RecordSize | src/dmcc/inotify/inotify.cpp:107 | the cursor step is 16 + `len`, so at least the header size: the cursor strictly increases |
| InotifyRecord.NameField | src/dmcc/inotify/inotify.cpp:136-144 | the name field is exactly `len` bytes long |
| InotifyRecord.Walk | src/dmcc/inotify/inotify.cpp:88-107 | every record offset of a successful walk is at or after the start and the whole record lies inside the chunk, so below its length |
| InotifyRecord.WalkChain | src/dmcc/inotify/inotify.cpp:88-107 | a successful walk starts at the cursor, each record starts where the previous one ends (previous start + 16 + len), and the last one ends exactly at the chunk's end |
| InotifyRecord.StartIsPrefixSum | src/dmcc/inotify/inotify.cpp:91-107 | the k-th record starts at the cursor plus the sum of 16 + len over the records before it |
| InotifyRecord.DecodeEncoded | src/dmcc/inotify/inotify.cpp:97-143 | reading the header fields of an encoded record, wherever it lies in the chunk, gives back `wd`, `mask`, `cookie`, `len` and the name field as written |
| InotifyRecord.WalkEncoded | src/dmcc/inotify/inotify.cpp:88-107 | a chunk made of N encoded records walks to exactly N offsets, each decoding the record written there, in order |
| InotifyRecord.WalkRejectsTruncated | src/dmcc/inotify/inotify.cpp:91-97 | a chunk whose last record is cut inside its header fails the walk instead of being read past its end |
| InotifyRecord.ChunkOfRecords | src/dmcc/inotify/inotify.cpp:88-107 | the two lemmas above for a chunk that is a run of encoded records, followed or not by a short tail |
| Inotify.JoinParts | src/dmcc/inotify/inotify.cpp:101 | `p / name` starts with `p`, ends with `name`, adds at most one separator between them, and is `p` for an empty name |
| Inotify.CStringIsNulFreePrefix | src/dmcc/inotify/inotify.cpp:143 | the name is the longest NUL-free prefix of the name field, byte for byte |
| Inotify.EventAccessors | src/dmcc/inotify/inotify.cpp:118-144 | `wd()`, `mask()` and `cookie()` return the header fields written into the record; `name()` is empty when `len` is 0 and otherwise the stored name up to its NUL |
| Inotify.InsertFacts | src/dmcc/inotify/inotify.cpp:58 | `insert` adds the key, keeps every stored path, and stores the new path only under a missing key |
| Inotify.InsertAllResolves | src/dmcc/inotify/inotify.cpp:58 | after successful add_watch calls with fresh, distinct descriptors each descriptor maps to exactly the path it was added with |
| Inotify.InsertAllKeeps | src/dmcc/inotify/inotify.cpp:58 | a descriptor already in the table keeps its first path whatever is added later |
| Inotify.ChunkIsDispatch | src/dmcc/inotify/inotify.cpp:88-107 | the cursor loop over a chunk emits exactly the decoded records in chunk order, and ends as the record scan does unless a slot fires or none is connected |
| Inotify.DispatchStopsAtFirstFire | src/dmcc/inotify/inotify.cpp:99-105 | over the decoded records only the last emitted event may make the signal return true, and it does exactly when the loop stopped |
| Inotify.ChunkStopsAtFirstFire | src/dmcc/inotify/inotify.cpp:104-105 | within a chunk no record after the one the signal returned true for is emitted, and the walk stops exactly then |
| Inotify.MalformedOnlyIfWalkFails | src/dmcc/inotify/inotify.cpp:91-97 | a chunk walk ends on a record that does not fit only when the chunk is not a chain of whole records |
| Inotify.MalformedIfWalkFails | src/dmcc/inotify/inotify.cpp:91-107 | conversely, with a slot connected, a chunk that is not a chain of whole records ends Malformed unless the signal returned true first |
| Inotify.ScanFollowsWalk | src/dmcc/inotify/inotify.cpp:88-107 | the record scan reaches the chunk's end exactly when the walk succeeds, and then decodes the records at the walk's offsets |
| Inotify.DispatchTable | src/dmcc/inotify/inotify.cpp:99-101 | the table only grows: known descriptors keep their paths, unknown ones are added with the empty path, and every event's path is its descriptor's path joined with its name; with a slot connected, the keys added are exactly the descriptors of the emitted events, and with none connected, only the descriptor of the first record |
| Inotify.ChunkTable | src/dmcc/inotify/inotify.cpp:99-101 | the same for the cursor loop over a chunk: with no slot connected, the only key added is the descriptor of the record at the cursor, if one fits |
| Inotify.ListenStopsAtFirstFire | src/dmcc/inotify/inotify.cpp:68-109 | over all chunks listen stops at the first event the signal returns true for; when it never does, every chunk read is consumed and the loop goes on to the next |
| Inotify.DispatchInOrder | src/dmcc/inotify/inotify.cpp:91-107 | with a slot connected the decoded records are emitted in order, all of them unless the signal returned true |
| Inotify.ChunkInOrder | src/dmcc/inotify/inotify.cpp:91-107 | the k-th event of a chunk is made from the record at the k-th offset of the walk; a walk without a stop emits every record |
| Inotify.ListenDispatchesInOrder | src/dmcc/inotify/inotify.cpp:66-110 | when every chunk holds whole records, listen emits them in arrival order, chunk after chunk, never skipping one: a prefix of all records, all of them when nothing stopped it |
| Inotify.Inotify.Open | src/dmcc/inotify/inotify.cpp:41-47 | a descriptor that is not positive makes no watcher (the system error); otherwise a watcher with that descriptor, an empty table and no slots |
| Inotify.Inotify.constructor | src/dmcc/inotify/inotify.cpp:41-47 | the watcher starts with the descriptor, an empty table and no slots |
| Inotify.Inotify.AddWatch | src/dmcc/inotify/inotify.cpp:49-59 | a descriptor that is not positive is an error and leaves the table unchanged; otherwise the table becomes the `insert` of the pair |
| Inotify.Inotify.ConnectSlot | src/dmcc/inotify/inotify.cpp:61-64 | the slot is connected after the existing ones |
| Inotify.Inotify.MakeEvent | src/dmcc/inotify/inotify.cpp:94-101 | the event is the decoded record with its resolved path, and `operator[]` leaves the table with the descriptor added |
| Inotify.Inotify.DispatchChunk | src/dmcc/inotify/inotify.cpp:88-108 | the inner loop's outcome, table and emitted events are those of the chunk walk function |
| Inotify.Inotify.Listen | src/dmcc/inotify/inotify.cpp:66-110 | the nested loops' outcome, chunks read, table and emitted events are those of the listen function |
| LineSyntax.Words | src/dmcc/readline/reader.cpp:67-69 | the tokens kept are non-empty and no more than the tokens read |
| LineSyntax.TokensOfJoin | src/dmcc/readline/reader.cpp:60-61 | the tokenizer gives back words written with their escapes, quotes and separators escaped and separated by single spaces, empty words included, without error |
| LineSyntax.TokenizeJoin | src/dmcc/readline/reader.cpp:60-61 | the same for a whole line |
| LineSyntax.ScanEscaped | src/dmcc/readline/reader.cpp:60 | a backslash makes the next escape, space or quote an ordinary character of the token |
| LineSyntax.QuotedStaysOne | src/dmcc/readline/reader.cpp:60 | a segment in either quote character, `"` or `'`, is one token, spaces included, without its quotes |
| LineSyntax.EscapedSpace | src/dmcc/readline/reader.cpp:60 | `a\ b` is the single token `a b` |
| LineSyntax.TrailingEscapeFails | src/dmcc/readline/reader.cpp:60-67 | for any non-empty list of words written as a line, a trailing ` \` makes the tokenizer throw "cannot end with escape" after delivering exactly those words |
| LineSyntax.UnknownEscapeFails | src/dmcc/readline/reader.cpp:60-67 | for any plain word and any character other than `n`, a quote, a space or a backslash, the word followed by a backslash and that character makes the tokenizer throw before delivering a token |
| LineSyntax.TrimSlice | src/dmcc/readline/reader.cpp:221 | the trimmed line is a slice of the line and everything cut off on either side is white space |
| LineSyntax.TrimEnds | src/dmcc/readline/reader.cpp:221 | a non-empty trimmed line starts and ends with a character that is not white space |
| LineSyntax.TrimIdempotent | src/dmcc/readline/reader.cpp:221 | trimming twice is trimming once |
| LineSyntax.ArgLineMatches | src/dmcc/readline/reader.cpp:98-105 | the command name is found exactly when the line matches blanks, a `[a-z0-9A-Z_]+` word and at least one blank, and it is the group the match captures |
| CommandTable.Signal.constructor | src/dmcc/readline/reader.cpp:240 | a new signal has no slots |
| CommandTable.Signal.Connect | src/dmcc/readline/reader.cpp:241 | the slot is connected after the existing ones |
| CommandTable.CmdPair.constructor | src/dmcc/readline/reader.cpp:41 | the pair holds the signal and the completion function it was made with |
| CommandTable.LessIrreflexive | src/dmcc/readline/reader.cpp:47 | no name is below itself in key order |
| CommandTable.LessTransitive | src/dmcc/readline/reader.cpp:47 | key order is transitive |
| CommandTable.LessTotal | src/dmcc/readline/reader.cpp:47 | any two names are equal or ordered one way |
| CommandTable.FindAssign | src/dmcc/readline/reader.cpp:243 | after `cmd_pairs[name] = p` the name holds `p` and every other name keeps what it had: registering under an existing name replaces the entry |
| CommandTable.AssignSorted | src/dmcc/readline/reader.cpp:47-50 | assignment keeps the names in strict key order, without duplicates |
| CommandTable.TouchFacts | src/dmcc/readline/reader.cpp:193 | reading `cmd_pairs[name]` leaves an element under the name holding the pointer it returned, null for a missing name, and changes no other name |
| CommandTable.Commands.constructor | src/dmcc/readline/reader.cpp:50 | the map starts empty |
| CommandTable.Commands.Put | src/dmcc/readline/reader.cpp:243 | the map becomes the assignment of the pointer under the name and stays in key order |
| CommandTable.Commands.Index | src/dmcc/readline/reader.cpp:193 | `operator[]` returns the stored pointer, or null after inserting a null element, and keeps key order |
| Reader.ParseCommand | src/dmcc/readline/reader.cpp:56-79 | the name becomes the first non-empty token and the later non-empty tokens are appended to the arguments in order; a tokenizer exception ends it with the outputs as far as they got |
| Reader.ParseOfJoin | src/dmcc/readline/reader.cpp:64-78 | a line of escaped words gives back the first word as the name and the others, in order, appended to the arguments |
| Reader.BlankLineKeepsOutputs | src/dmcc/readline/reader.cpp:66-78 | the name and argument outputs are left as they were exactly when the line has no non-empty token |
| Reader.QuotedArgument | src/dmcc/readline/reader.cpp:53-78 | `cmd "a b"` or `cmd 'a b'` is the command `cmd` with the single argument `a b` |
| Reader.NextMatch | src/dmcc/readline/reader.cpp:141-150 | the search stops at the first name from the iterator on that begins with `text`, or at the end, skipping only names that do not |
| Reader.MatchingComplete | src/dmcc/readline/reader.cpp:138-150 | the names left to yield are exactly the map's names from the iterator on that begin with `text` |
| Reader.MatchingSorted | src/dmcc/readline/reader.cpp:141 | they come out strictly increasing in key order |
| Reader.NextMatchIsHead | src/dmcc/readline/reader.cpp:141-150 | each search finds the first of the names left to yield; it runs past the end exactly when none is left |
| Reader.Restart | src/dmcc/readline/reader.cpp:94-111 | on `state == 0` argument completion is chosen exactly when ArgLineCommand finds a name, which LineSyntax.ArgLineMatches proves is exactly when the line matches the pattern; the command name becomes the captured word (the old one is kept otherwise), and the iterator goes back to the first command |
| Reader.ArgCompletionCorrects | src/dmcc/readline/reader.cpp:118-134 | argument completion calls the command's completion function, or filename completion when it has none, and answers null for an unknown command; it differs from the code as written only where the code dereferences a null pointer |
| Reader.SessionFromCursor | src/dmcc/readline/reader.cpp:138-154 | from an iterator position, successive command-completion calls answer the matching names one by one, then null; stated for maps without an empty command name |
| Reader.CommandCompletionEnumerates | src/dmcc/readline/reader.cpp:94-154 | a session started with `state == 0` on a line that is not a command word followed by blanks answers with the registered names that begin with `text`, in key order, one per call, then null; stated for maps without an empty command name, since an empty name reads as null and ends the answers early |
| Reader.ArgumentCompletionDelegates | src/dmcc/readline/reader.cpp:94-134 | on a line that is a command word followed by blanks every call hands `text` and `state` to that command's argument completion |
| Reader.Completer.constructor | src/dmcc/readline/reader.cpp:88-90 | the statics start with no command completion and an empty name; the iterator, which the source leaves default-constructed, is a position that the first call (with `state == 0`) resets anyway |
| Reader.Completer.Complete | src/dmcc/readline/reader.cpp:86-164 | one call of `compl_proxy` answers and updates its statics as one step of the completion function (with null in place of the null dereference) |
| Reader.RememberKeepsDeduplicated | src/dmcc/readline/reader.cpp:223-233 | a line is added to the history only when non-empty and different from the last entry; the history stays free of empty entries and adjacent repeats |
| Reader.Reader.constructor | src/dmcc/readline/reader.cpp:168-173 | a reader starts with the exit flag false, the prompt and an empty history |
| Reader.Reader.ReadLine | src/dmcc/readline/reader.cpp:207-236 | the exit flag is true exactly at end of input, the line is the trimmed input (empty at end of input), and the history follows the history rule |
| Reader.Reader.HandleLine | src/dmcc/readline/reader.cpp:180-203 | one pass of the loop body leaves the loop, the exit flag, the history and the map as the body function says, and keeps the map in key order |
| Reader.Reader.RunMainloop | src/dmcc/readline/reader.cpp:176-205 | the loop's end, lines read, exit flag, history and map are those of the main-loop function |
| Reader.Reader.RegisterSimple | src/dmcc/readline/reader.cpp:238-247 | a new signal with the handler as its only slot is stored without a completion function under the name, replacing what was there |
| Reader.Reader.Register | src/dmcc/readline/reader.cpp:249-257 | the same with the given completion function |
| Reader.Reader.Add | src/dmcc/readline/reader.cpp:259-267 | a new signal without slots is stored with the completion function under the name and returned |
| Reader.SingleWord | src/dmcc/readline/reader.cpp:186 | a line of one plain word reads as that command with no arguments |
| Reader.QuitLeaves | src/dmcc/readline/reader.cpp:188-190 | `exit` and `quit` leave the loop without emitting and without touching the map; the exit flag is set only by end of input, not by the command |
| Reader.BlankLineSkipped | src/dmcc/readline/reader.cpp:191 | a line without a command goes on with nothing emitted and the map unchanged |
| Reader.UnknownCommandInserted | src/dmcc/readline/reader.cpp:193-195 | an unknown command is not emitted; the loop goes on with a null element added under its name |
| Reader.HandlerDecidesExit | src/dmcc/readline/reader.cpp:195-199 | a registered command emits its signal with the arguments and its value becomes the exit flag, so the loop ends exactly when the handler returns true |
| Reader.EndOfInputExits | src/dmcc/readline/reader.cpp:180-214 | end of input ends the loop after that line, with the exit flag true and the history and map unchanged |
| Reader.LoopGoesOn | src/dmcc/readline/reader.cpp:180-204 | a pass that neither breaks nor sets the exit flag is followed by the loop on the remaining lines |
| Reader.BodyOnlyTouches | src/dmcc/readline/reader.cpp:193 | one pass keeps every stored pointer and can only add a null one |
| Reader.LoopOnlyTouches | src/dmcc/readline/reader.cpp:176-205 | the main loop never changes a registered entry; it can only add null elements |
| Reader.UnknownCommandBreaksCompletion | src/dmcc/readline/reader.cpp:118-124 | after the unknown command `foo` was typed, argument completion on `foo ` dereferences the null element as written; the corrected completion answers null |

## Left out

- Kernel calls: `inotify_init`, `inotify_add_watch` and `read` are not called. Their results are parameters. A finite sequence of chunks stands for the reads; when it runs out, `Inotify.Inotify.Listen` returns where the source would block in the next `read`.
- The `do … while (len == -1)` retry and the unreachable error checks after it (`inotify.cpp:76-86`) are left out. The stack buffer's size is only a constant.
- Inotify.Inotify.Listen: a record that does not fit in its chunk ends the run as `Malformed`. The source reads past the buffer there.
- Inotify.Inotify.Listen: with no slot connected the run ends as `Unconnected`. The source leaves that case to the signal library.
- Reader.Reader.HandleLine: emitting a signal with no slots ends the loop as `NoSlots`, for the same reason.
- Name bytes are read as characters one by one. No character encoding is modelled.
- Inotify.NameAt: a name field with no NUL ends at the field; the source reads on to the next NUL, past the field. The kernel always NUL-pads the name, so this only matters for chunks it does not write.
- The header words are read in little-endian byte order. The source reads them in the host's native order.
- Boost.Filesystem's path normalisation is not modelled. `Inotify.Join` is a plain join with one separator.
- Slots and handlers are pure function values. Side effects they could have on the watcher, the map or other signals are not modelled.
  - A ghost record of the slots (`connected`) stands for the signals' state during the main loop.
- Exceptions are not modelled as exceptions:
  - A system error in the constructor or `add_watch` is a null or false result.
  - A tokenizer exception in `parse_command` ends the main loop with `BadLine`. The source lets it escape `run_mainloop`.
- The "command not found" error in `run_mainloop` (`reader.cpp:201`) is not modelled. Every stored pair is made with a signal, so that branch cannot be taken.
- The regular expression engine is not modelled. The pattern is modelled as the predicate `LineSyntax.ArgLineAt`; `.*` accepts any rest of the line.
- `rl_filename_completion_function` is the parameter `files`.
- The `malloc`/`strcpy` hand-off of the answer and the `c_str` helper class are not modelled. An answer is `Option<string>`.
- The constructor's registration of the callback with readline is not modelled. Neither are the unused `history_file` and `history_size` arguments.
- Readline's history is a sequence, without its storage limits.
- The line editor, the prompt display and the terminal are not modelled.
- `std::isspace` is taken in the C locale.
- The exception classes (`src/dmcc/exception/`) and `src/dmcc/readline.hpp` are not part of this model.

## Findings

| source | as written | input that shows it | evidently intended | confidence | as-written member | corrected member |
|---|---|---|---|---|---|---|
| src/dmcc/readline/reader.cpp:118-124 | argument completion dereferences `it->second` for any name found in `cmd_pairs`, but `run_mainloop`'s `cmd_pairs[cmd]` (line 193) stores a null pointer under every unknown command typed | type `foo` (unregistered), then ask for completion on the line `foo ` | an unknown command, or one with a null element, answers null | not executed | Reader.UnknownCommandBreaksCompletion | Reader.ArgCompletionCorrects |
