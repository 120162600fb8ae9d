# File server model

A Dafny model of the core of a small multithreaded file server written in C
(`file_server.c`). The server reads command lines of the form
`<read|write|empty> <path> [free text]`. It logs each line with a timestamp
to `commands.txt` and runs one worker per line. Each worker:

- parses and validates its line;
- locks its target file through a registry of per-path FIFO ticket locks;
- appends to the file (`write`), copies it into `read.txt` (`read`), or
  copies it into `empty.txt` and truncates it (`empty`);
- unlocks the file.

The model has six modules:

- `Wrappers`: the `Option` type, used for C's NULL pointers.
- `TicketLocks`: the `queue_lock` ticket lock (`ticket_init`,
  `ticket_enqueue`, `ticket_dequeue`). Each call is one atomic step on the
  counter pair `(curr, waiting)`. A caller "may enter" when its ticket
  equals `curr`. Traces of calls prove that tickets are issued as 0, 1, 2, …
  and served in that same order.
- `OpenFiles`: the `open_files` list and its lock `open_files_lock`, with
  `enqueue` and `dequeue`. It is modelled as the code writes it: a first
  reference to a path sets the new node's `next` to NULL and makes it the
  head, so every earlier node is dropped. Two results follow from this:
  - the list never holds more than one node (`AtMostOneNode`);
  - while one worker holds a path, another worker can be granted a fresh
    lock for the same path (`DropAllowsTwoHolders`).
- `Requests`: `determine_request`, the two `strtok(…, " ")` calls, the free
  text taken from offset `|cmd| + |path| + 2`, and the four validation
  failures. The tokenizer is proved against a separate list-of-words definition of
  the words of a line, and a request line built from its fields parses back
  to those fields.
- `Files`: `write_file`, `read_file` and `empty_file`. The file system is a
  map from path to contents; a path that is not a key names a file that does
  not exist.
- `Server`: the worker (the validation prefix, the lock calls, and the
  request-kind switch) and the master loop in join mode. The master strips
  the newline, appends the audit line `[<timestamp>] <cmdline>` and runs the
  worker. The timestamp is a parameter.

## Behaviour worth noting

- The audit line is appended to `commands.txt` without taking that file's
  lock (line 604).
- Registry entries do not live as long as the process. A first reference
  to another path drops them (lines 233-237).
- The free text is the line from the fixed offset `|cmd| + |path| + 2`,
  whatever spaces separate the words, so extra spaces shift it
  (`LeadingSpaceShiftsPayload`).
- `read_file` never closes the destination stream when the source is
  missing (lines 355-363 jump to `cleanup`, which only dequeues). The
  program never exits normally, so the "FILE DNE" and "FILE ALREADY EMPTY"
  lines it formats there never reach the file. The destination is still
  created by `fopen(…, "a")`. See "## Findings".
- For an `empty` of a missing file, `read_file` (called with a NULL command
  line) formats a NULL-prefixed "FILE ALREADY EMPTY" line into the lost
  stream (line 360) and fails. The worker then skips `empty_file`, so that
  function's own missing-file marker (lines 414-421) is never written
  (`EmptyMissingBranchUnreachable`, `WorkerEmptiesMissing`).
- Releasing a ticket lock that nobody holds is not reported. `ticket_dequeue`
  increments `curr` unconditionally.

## Model

| member | source | states |
|---|---|---|
| TicketLocks.Init | file_server.c:167-172 | a fresh lock is consistent and idle, and its first ticket is 0 |
| TicketLocks.Take | file_server.c:181-189 | the ticket handed out is the old `waiting`, which is incremented and `curr` kept; the ticket was not outstanding before, is afterwards, and is the only new outstanding ticket |
| TicketLocks.Release | file_server.c:197-202 | `curr` advances by exactly one; when a holder releases, only the served ticket stops being outstanding |
| TicketLocks.Serving | file_server.c:185-187 | at most one outstanding ticket may enter: the one equal to `curr`, and none when the lock is idle |
| TicketLocks.RunCounts | file_server.c:167-202 | after any sequence of calls, `waiting` and `curr` have advanced by the number of tickets issued and served |
| TicketLocks.IssuedConsecutive | file_server.c:181-189 | tickets are handed out consecutively from `waiting` |
| TicketLocks.IssuedStrictlyIncreasing | file_server.c:181-189 | issued tickets are pairwise distinct and strictly increasing |
| TicketLocks.ServedConsecutive | file_server.c:197-202 | tickets are served consecutively from `curr` |
| TicketLocks.HoldersOnlyKeepsValid | file_server.c:181-202 | as long as only holders release, `curr <= waiting` is kept |
| TicketLocks.FifoService | file_server.c:167-202 | from `ticket_init`, with only holders releasing, the served tickets are a prefix of the issued ones: ticket i is the i-th served |
| OpenFiles.Find | file_server.c:222-229 | the list walk finds the first node with the path, and fails exactly when no node has it |
| OpenFiles.Guarded | file_server.c:219-242 | each registry call takes and releases one ticket on `open_files_lock`, which is granted at once when that lock is idle |
| OpenFiles.Enqueue | file_server.c:213-243 | a known path keeps the list and takes a ticket on its node; an unseen path replaces the list by one node with lock (0,1) and ticket 0; afterwards the path is found; the registry lock advances by one on both counters |
| OpenFiles.Dequeue | file_server.c:250-267 | only the found node's `curr` advances by one; an absent path changes nothing; the paths of the list never change |
| OpenFiles.FindDependsOnPaths | file_server.c:222-229 | the lookup depends only on the paths of the list |
| OpenFiles.AtMostOneNode | file_server.c:231-237 | because a new node replaces the list, the list never holds more than one node, so no path has two nodes |
| OpenFiles.EnqueueIdleMayEnter | file_server.c:240-241 | on an idle registry the ticket taken by `enqueue` may enter at once |
| OpenFiles.EnqueueDequeueIdle | file_server.c:213-267 | `enqueue` then `dequeue` of one path returns an idle registry to idle |
| OpenFiles.DropAllowsTwoHolders | file_server.c:231-241 | after a first reference to another path drops a held path's node, a second caller for the held path is granted a fresh lock at once |
| Requests.DetermineRequest | file_server.c:97-107 | exactly "read", "write" and "empty" map to READ, WRITE and EMPTY, and every other word to REQUEST_INVALID (code 0) |
| Requests.DetermineRequestInverse | file_server.c:97-107 | the three command words and the valid kinds correspond one to one |
| Requests.SkipDelims | file_server.c:486-487 | `strtok` skips exactly the run of delimiters before a token |
| Requests.TokenEnd | file_server.c:486-487 | a token ends at the first delimiter or at the end of the line |
| Requests.StrTok | file_server.c:486-487 | one `strtok` call returns NULL exactly when only delimiters remain, and otherwise the next maximal run of non-delimiters |
| Requests.WordsSkipDelims | file_server.c:486-487 | delimiters before the scan position do not change the words that follow |
| Requests.StrTokTakesFirstWord | file_server.c:486-487 | a `strtok` call returns the first remaining word and resumes at the others |
| Requests.Split | file_server.c:486-527 | the operation and path are words; the free text is the line from offset `|cmd|+|path|+2`, present exactly when the line is longer than that offset |
| Requests.SplitMatchesWords | file_server.c:486-493 | the path is missing exactly when the line has fewer than two space-separated words; otherwise the operation and path are its first two words |
| Requests.SplitWithPayload | file_server.c:486-527 | `<cmd> <path> <text>` splits into exactly those three, whatever spaces the text holds |
| Requests.SplitWithoutPayload | file_server.c:486-507 | `<cmd> <path>` splits into those two with no free text |
| Requests.SplitJoin | file_server.c:486-527 | a line built from an operation word, a path word and non-empty free text (spaces allowed) splits back into exactly those fields |
| Requests.Parse | file_server.c:486-527 | each rejection (missing path, unknown operation, free text on a non-write request, free text over 50 characters) occurs exactly under its condition, in the code's order; an accepted request carries free text only for a write and only of at most 50 characters |
| Requests.AcceptedPayloadFits | file_server.c:516-527 | accepted free text fits `text[51]` with its terminator |
| Requests.ParseRoundTrip | file_server.c:486-527 | `<op> <path>` is accepted as exactly that request; `<op> <path> <text>` is accepted only for a write of at most 50 characters, and otherwise rejected for the first reason the code checks |
| Requests.LeadingSpaceShiftsPayload | file_server.c:506-527 | the free text is taken at a fixed offset, so a leading space shifts it by one character |
| Files.Append | file_server.c:286-294 | appending creates the file if absent, leaves its old contents as a prefix, and changes no other file |
| Files.WriteFile | file_server.c:281-308 | `write_file` appends the text and a newline to the file, creating it if absent, returns 0, and changes no other file |
| Files.WritesAccumulate | file_server.c:286-294 | successive writes to a file are never interleaved: the file holds its old contents and then each text on its own line, in write order |
| Files.ReadFileInto | file_server.c:325-393 | a read into itself fails with no change; otherwise only the destination changes and it is created; a missing source fails and leaves the destination's contents as they were, the failure text being stranded in the unclosed stream; an existing source succeeds, appending the echo, the contents and a newline; it returns 0 exactly when the source exists and differs from the destination |
| Files.ReadFileIntoClosed | file_server.c:354-363 | with the destination closed on every path, a missing source appends "<cmdline>: FILE DNE", or the NULL text and ": FILE ALREADY EMPTY", to the destination; the other cases are as in the code |
| Files.ClosedAddsMissingText | file_server.c:354-363 | the closed definition returns the same value and leaves the same files as the code, except that a missing source's failure text is appended to the destination |
| Files.MissingReadLeavesNoTrace | file_server.c:354-379 | a read of a missing file followed by a read of an existing one leaves only the second in the destination, where the closed definition records both in order |
| Files.EmptyFileOp | file_server.c:408-447 | an existing file is truncated; a missing file stays missing, and with a command line "FILE ALREADY EMPTY" is written to `empty.txt` with a doubled newline; the call returns 0 |
| Server.OutputOf | file_server.c:546-560 | a read request uses `read.txt`, an empty request `empty.txt`, a write none; the output file is never the commands file |
| Server.LockCalls | file_server.c:540-568 | a worker locks its target first and only once, locks the output file second (only when it differs from the target), and releases every lock once in reverse order |
| Server.Perform | file_server.c:546-564 | the effect of each request kind on the files and its return value: a write appends its line; a read of an existing file appends the echoed contents to `read.txt`; an empty of an existing file copies it to `empty.txt` and truncates it; a read or empty of a missing file fails and leaves the output file's contents as they were; nothing outside the target and the two output files changes |
| Server.EmptyMissingBranchUnreachable | file_server.c:553-560 | `empty_file` is called only when the file exists |
| Server.Worker | file_server.c:473-570 | a rejected line returns -1 with no lock or file effect; an accepted one changes only its target and the output files, deletes no file, and returns 0 or -1 |
| Server.WorkerWrites | file_server.c:504-551 | `write <path> <text>` with at most 50 characters appends the text as one line to the path and changes nothing else |
| Server.WorkerEmpties | file_server.c:553-560 | `empty <path>` of an existing file copies its contents to `empty.txt` and leaves it empty |
| Server.WorkerReadsMissing | file_server.c:354-363 | `read <path>` of a missing file fails, leaves it missing, creates `read.txt` if absent and leaves its contents and every other file as they were |
| Server.WorkerEmptiesMissing | file_server.c:553-559 | `empty <path>` of a missing file fails before `empty_file`, leaves it missing, creates `empty.txt` if absent and leaves its contents and every other file as they were |
| Server.ApplyCallsAtMostOne | file_server.c:231-237 | any sequence of registry calls keeps the list at one node or fewer |
| Server.EnqueueOnIdle | file_server.c:213-243 | after `enqueue` on an idle registry only the path's node has a ticket outstanding, and exactly one |
| Server.OutputEnqueueGranted | file_server.c:337-343 | while the worker holds its target, `read_file`'s `enqueue` of the output file is granted at once when the registry was idle before, whether the output's node is found or replaces the list |
| Server.NestedIdle | file_server.c:337-393 | locking the target, then locking and unlocking the output file, then unlocking the target returns an idle registry to idle |
| Server.WorkerKeepsIdle | file_server.c:540-570 | a worker leaves an idle registry idle with at most one node, so in join mode the next worker's `enqueue` of its target is granted at once |
| Server.StripNewline | file_server.c:595-597 | the stripped line has no newline, is a prefix of the input, and ends where the first newline was |
| Server.StripNewlineIdempotent | file_server.c:595-597 | a line without a newline is unchanged, so stripping twice is stripping once |
| Server.AuditLine | file_server.c:601-603 | the audit line plus its terminator fills exactly the `strlen(timestamp) + strlen(cmdline) + 4` bytes allocated |
| Server.AuditLineRoundTrip | file_server.c:601-604 | the timestamp (free of ']') and the command line are recovered from an audit line |
| Server.WorkerKeepsCommands | file_server.c:540-568 | a worker whose line does not target `commands.txt` leaves that file as it is |
| Server.MasterStep | file_server.c:589-619 | one master iteration on a rejected line appends its audit line to `commands.txt`, returns -1 and changes nothing else |
| Server.MasterStepAudits | file_server.c:600-605 | one master iteration whose line does not target `commands.txt` appends exactly its audit line there |
| Server.AppendLinesCons | file_server.c:600-605 | appending one audit line and then the lines of the rest is appending the lines of the whole sequence |
| Server.Serve | file_server.c:589-620 | the join-mode master loop deletes no file, and `commands.txt` exists once a line has been read |
| Server.ServeKeepsIdle | file_server.c:589-619 | in join mode the registry stays idle with at most one node |
| Server.ServeAudits | file_server.c:600-605 | while no request targets it, `commands.txt` grows by exactly one audit line per input, in input order |

## Left out

- Blocking, threads and condition variables are not modelled. Each lock call is one atomic step and waiting is a "may enter" predicate. No deadlock-freedom claim is made: `enqueue` waits on the file lock while still holding `open_files_lock`.
- Detached mode is not modelled, only join mode. In detached mode the worker reads the master's shared `cmdline` buffer, which the master may overwrite (a data race).
- `enqueue` and `dequeue` read the list head before taking `open_files_lock` (lines 214 and 251). Under atomic steps that snapshot equals the current head.
- TicketLocks.Take: `curr` and `waiting` are unbounded naturals; the C `unsigned int` fields wrap at 2^32.
- Failures of `fopen` are not modelled; every open succeeds. This covers `write_file` lines 286-291, `read_file` lines 346-352 and 382-386, and `empty_file` lines 424-429.
- `sleep`/`usleep` delays, `rand`, `print_log` and colouring are left out as output-only or timing-only. `get_time`/`ctime` is replaced by the timestamp parameter.
- `main` is left out: flag parsing, lock creation and teardown. Its initial state is `OpenFiles.Empty`.
- The `fgets` 109-byte buffer and `malloc`/`free` are left out. Strings are unbounded character sequences without NUL.
- Files.ReadFileIntoClosed: a NULL command line on a missing source prints a NULL string, which is undefined behaviour. The printed text is the parameter `nullText`.
- Files.ReadFileInto: the file descriptor leaked by each unclosed destination stream is not modelled.
- The return value of `fgets` is never checked (line 593). At the end of input the buffer keeps the last line, so the master audits and runs it again forever. `Server.Serve` covers only the lines actually read.
- Server.Perform: a write request without free text writes the worker's uninitialised `text` buffer. Its contents are the parameter `staleText`, which each input line supplies for its own worker.
- Requests.Parse: each `char` stands for one C byte. For non-ASCII text the program counts UTF-8 bytes with `strlen` (lines 506 and 517-518), so its 50-byte limit is tighter than the model's 50 characters.
- Files.ReadFileInto: different path strings are assumed to name different files. The program compares paths with `strcmp` (lines 223, 258 and 332), but the operating system treats spellings such as `./read.txt`, `a//b` or a symbolic link as the same file. For such aliases the program can read a file into itself, and the aliases get separate registry locks.

## Findings

| source | as written | input that shows it | evidently intended | confidence | as-written member | corrected member |
|---|---|---|---|---|---|---|
| file_server.c:354-363 | on a missing source `read_file` prints the failure line into `dest` and jumps to `cleanup` without `fclose(dest)`, so the line stays in an unflushed buffer | with `a.txt` holding "hi", the lines `read m.txt` then `read a.txt` leave `read.txt` holding only "read a.txt: hi" | `dest` closed on every path, so `read.txt` holds "read m.txt: FILE DNE" and then "read a.txt: hi" | not executed; high | Files.MissingReadLeavesNoTrace | Files.ReadFileIntoClosed |

`Server.Perform` uses `Files.ReadFileInto`, the code as written, because
the model describes what the program does to its files.
`Files.ClosedAddsMissingText` states exactly how far the corrected
definition departs from it.
