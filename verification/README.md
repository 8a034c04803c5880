# HoneyDew: a verified model of the honeypot core

HoneyDew is a multi-protocol honeypot written in C. This project models the parts of it
that hold state across threads, across receives or across a wire format, in the form the
C code has (classes with fields updated in place, loops over arrays), and proves what
those parts are for.

| file | models |
|---|---|
| `Bytes.dfy` | bytes and the C string calls (`strncpy`, `snprintf`, `strncat`, reading up to a NUL) |
| `AuditTrail.dfy` | the audit ring, its producers and its flush thread |
| `Admission.dfy` | the condition-variable semaphore shared by all listeners |
| `SessionTable.dfy` | the chained hash table of live connections |
| `Reassembly.dfy` | the growable receive buffer, line extraction, the HTTP service |
| `Resp.dfy` | the RESP array parser and the inline parser |
| `RespStale.dfy` | what bytes behind the valid ones can do to the array parser |
| `Redis.dfy` | the accumulate/parse/shift loop, ECHO, the audited text |
| `SmtpAuth.dfy` | base64 decoding and AUTH PLAIN |
| `Telnet.dfy` | stripping of IAC sequences |
| `Dns.dfy` | names, replies and TCP framing |
| `Ftp.dfy` | the FTP session machine |
| `SshShell.dfy` | the line editor of the SSH shell |
| `Utf8Text.dfy` | UTF-8, for the claims about JSON |
| `JsonEscape.dfy` | escaping of log messages |

How each part is put together:

* a class or a method with loops says what the C code does, step by step;
* its `ensures` ties the new state to a function on values (`Step`, `Process`, `Key`, ...);
* lemmas about that function connect it with a partner that knows nothing of the
  implementation: a bounded FIFO, a list without hashing, an encoder, a terminal, a
  bounded stack, a closed form of the commands seen so far.

Concurrency is modelled as a state machine with one atomic step for each critical section,
and the theorems hold for every interleaving. Receives are input chunks of any size, sends
are appended to an output, and the clock, the allocator's answer and the choice of the
thread that a signal wakes are parameters.

`dafny verify dfyconfig.toml` checks the whole project.

## What the code does not meet

* **A handler may destroy another handler's connection.** Protocol handlers close the
  descriptor before the table entry is removed, so a descriptor can be accepted again while
  its old entry is still there. `ReusedDescriptorDestroysAnother` is such a run;
  `OwnDestroyedIffNested` gives the exact condition, nesting in time of the handlers that
  share a descriptor.
* **The RESP parser can read beyond the valid bytes.** `atoi` skips CR and LF as white
  space, so an empty length (`$` CR LF) is read from the payload and, at the end of the
  valid bytes, from stale ones. `StaleBytesChangeCommands` is a session in which other
  commands are dispatched when the same bytes come in two receives; `StaleBytesMatterIff`
  gives the exact condition on the valid bytes. No scan runs past the NUL behind them
  (`NoScanLeavesTheBuffer`).
* **A Redis command that comes in two receives is not dispatched as one.** The array parser takes
  a command only when it is whole (`ParsedIffWhole`); the start of one falls to the inline
  parser, which takes some of it for a command of its own (`SplitCommandIsInline`).
* **Escaped log messages are not always JSON.** Control bytes other than tab, LF and CR go
  through raw (`ControlBytesGoThroughRaw`), and so do bytes that are not UTF-8
  (`MalformedBytesGoThroughRaw`); `JsonIffWritableUtf8` is the exact condition. Truncation
  can cut a character (`CharacterIsCut`); `CutIsJsonIff` says exactly when it does harm.
* **An unframed DNS message can be cut.** If its ID looks like a length that fits, the
  first two bytes are taken for a frame (`UnframedQueryMayBeCut`); `UnframedIsKeptIff` is
  the exact condition. A framed message that has not come whole is read with its length
  for its ID (`DeframedIffWhole`).
* **DNS labels may be too long.** Section 3.1 of RFC 1035 allows 63 bytes and reserves the
  length bytes 64 to 191; the parser reads them as labels (`ReservedLengthIsRead`).
  `NameReadsBackIff` says which names are read back.
* **A DNS reply can hold bytes that were never received.** An A query that ends in the middle
  of its class is answered with what lies behind it in the receive buffer
  (`CutQueryIsAnswered`); `ReplyDependsOnMessageIff` is the exact condition.
* **FTP.** `XCWD` takes its argument from the fourth byte on, so it starts with the
  command's own `D` (`XcwdIsNeverAbsolute`). Lines after `QUIT` in the same receive are
  still dispatched (`LinesAfterQuitStillRun`, and `LinesAfterQuitRunIff` for exactly when).
  The cut-off after six failed logins cannot fire, because the second PASS succeeds
  (`SessionClosedForm`).
* **Telnet subnegotiations can leak.** RFC 855 doubles a parameter byte 255, and the code
  takes the second 255 and a 240 after it for the end, so the parameters after that become
  input (`ParametersLeak`). `StripUndoesSending` is the exact condition.
* **Telnet.** The comment above `telnet_strip_iac` calls every IAC command a three-byte
  sequence; the code also has two-byte commands and escaped 0xFF, and the model follows
  the code.

## Model

| member | source | states |
|---|---|---|
| `AuditRing.RingRefinesFifo` | src/utilities/audit.c:180-318 | for every interleaving of producers, flush thread and shutdown, the log, what is pending, the counters and the thread's position are those of a bounded FIFO of log lines |
| `AuditRing.StepRefinesSpec` | src/utilities/audit.c:180-318 | each atomic step of the ring is the same step of the FIFO |
| `AuditRing.RecordRefinesOffer` | src/utilities/audit.c:286-314 | recording offers to the FIFO: accepted with the next sequence number, or rejected when full |
| `AuditRing.DrainRefinesWriteAll` | src/utilities/audit.c:193-198 | draining writes everything pending, oldest first |
| `AuditRing.AuditConservation` | src/utilities/audit.c:286-314 | in every reachable state attempts = total + dropped, total = written + pending, and written sequence numbers are 1, 2, 3, ... without a gap (all in 64-bit counters) |
| `AuditRing.FifoConserves` | src/utilities/audit.c:286-314 | every attempt is accepted or rejected, and the k-th accepted line has number k |
| `AuditRing.FinalDrainWritesEverything` | src/utilities/audit.c:203-212 | once the flush thread has returned, the log is exactly what was accepted before its last critical section, whatever comes later |
| `AuditRing.DoneHasFinalStep` | src/utilities/audit.c:183-212 | a returned flush thread did pass through that critical section |
| `AuditRing.ShutdownEndsFlushThread` | src/utilities/audit.c:180-213 | after shutdown at most four steps of the flush thread end it, however producers interleave |
| `AuditRing.AcceptedGrows` | src/utilities/audit.c:292-314 | accepted lines are never changed or lost later |
| `AuditRing.SlotReuseLeaksNothing` | src/utilities/audit.c:292-310 | a line written from a reused slot is the truncation of the values passed in, whatever the slot held before |
| `AuditRing.SlotShowsRequest` | src/utilities/audit.c:292-310 | what is written from a slot shows the request: ip, session and user as passed, cut to 45, 63 and 127 bytes, or "unknown", "-" and "-" (for an empty user too), and the details cut to 2047 bytes |
| `AuditRing.LogShowsRequests` | src/utilities/audit.c:279-318 | in every run the k-th line of the log shows, in that sense, the k-th request that found room, and has number k |
| `AuditRing.ShortRunDropsNothing` | src/utilities/audit.c:286-290 | a run of at most 4096 requests drops none, flush thread or not |
| `AuditRing.TwoFlushStepsWriteEverything` | src/utilities/audit.c:180-213 | what was accepted is in the log after two more steps of the flush thread, unless it had returned, however producers and shutdown interleave |
| `AuditRing.ReadIndexIsOldest` | src/utilities/audit.c:194 | the wrapped `(head - count) % capacity` names the oldest slot |
| `AuditRing.ReadsAreExactIffCapacityDividesWord` | src/utilities/audit.c:194 | the wrapped index is right for all heads and counts if and only if the capacity divides 2^64 |
| `AuditRing.WindowPush` | src/utilities/audit.c:292-313 | writing at `head` appends to the queue the ring stands for |
| `AuditRing.WindowPop` | src/utilities/audit.c:193-198 | the slot `count` before `head` is the front of that queue |
| `AuditRing.AuditTrail.constructor` | src/utilities/audit.c:215-256 | the initial state: zeroed slots, sequence 1 |
| `AuditRing.AuditTrail.RecordEvent` | src/utilities/audit.c:279-318 | in place, the new state is that of the atomic step, drop branch included; with room, the slot at `head` shows the request and the next number |
| `AuditRing.AuditTrail.DrainRing` | src/utilities/audit.c:193-198 | the loop over wrapped read indices drains the ring as the value-level drain does |
| `AuditRing.AuditTrail.FlushStep` | src/utilities/audit.c:180-213 | the flush thread up to its next interleaving point is one step of the state machine |
| `AuditRing.AuditTrail.RequestShutdown` | src/utilities/audit.c:258-264 | shutdown changes only `running` |
| `Admission.SlotConservation` | main.c:165-224 | in every run, with failing malloc and thread creation, `count` is the number of slots held and within 0..max; every accepted connection waits for a slot or has taken one, never two, and gives it back exactly once |
| `Admission.NoWakeupIsLost` | main.c:172-186 | in every run, with spurious wakeups and barging, while anyone sleeps the free slots do not exceed the woken threads still to test; with none of those every slot is in use |
| `Admission.ListenersKeepServing` | main.c:271-305 | in every run each listener has handed over or given up every connection it accepted but the one it is busy with, and unless it was stopped it is ready to accept whenever it neither queues nor holds a slot |
| `Admission.OnlyStopStops` | main.c:271-305 | in every run as many listeners have stopped as left the loop by its test |
| `Admission.RunKeeps` | main.c:165-186 | soundness (the three invariants) holds in every state reachable from a sound one |
| `Admission.StepSound` | main.c:165-305 | every step of every thread keeps the server sound |
| `Admission.StepBalanced` | main.c:271-305 | each step keeps count = slots held and the per-connection balance |
| `Admission.StepSettled` | main.c:271-305 | each step keeps, for each connection, acquires = releases + slots held, and that an accepted one queues or has acquired, once |
| `Admission.StepNoLostWakeup` | main.c:172-186 | each step keeps the wakeup invariant |
| `Admission.StepWithinBounds` | main.c:172-186 | each step keeps the count within its bounds |
| `Admission.TallyStep` | main.c:172-186 | how each step changes the number of listeners in any class of positions |
| `Admission.Server.constructor` | main.c:165-170 | the initial server is sound |
| `Admission.Server.AcceptConnection` | main.c:274-281 | a listener enters `acquire` for a new connection, and the server stays sound |
| `Admission.Server.TestOrWait` | main.c:172-179 | the loop test under the mutex: sleep or take a slot, and the server stays sound |
| `Admission.Server.Release` | main.c:181-186 | the count falls by one and one sleeper, if any, is woken |
| `Admission.Server.HandOver` | main.c:283-304 | the slot passes to the handler and the listener is ready to accept again, or it goes to the error path; the server stays sound |
| `Admission.Server.GiveUp` | main.c:284-303 | the error path gives the slot back, the listener is ready to accept again, and the server stays sound |
| `Admission.Server.FinishHandler` | main.c:215-224 | the handler gives its slot back, and the server stays sound |
| `SessionTables.TableRefinesList` | src/service/session.c:34-75 | under any run of add, get and remove the chained table answers and destroys exactly as one list of live connections without hashing |
| `SessionTables.ConnectionsConserved` | src/service/session.c:34-75 | every added connection is live or was destroyed, never both and never twice |
| `SessionTables.FirstIsTop` | src/service/session.c:44-57 | get finds the top of the descriptor's stack, and nothing exactly when the stack is empty |
| `SessionTables.RemovePopsOneStack` | src/service/session.c:59-75 | remove pops the descriptor's stack and leaves all others as they are, colliding or not |
| `SessionTables.HashIsLowByte` | src/service/session.c:8-10 | the bucket is the descriptor modulo 256, for negative ones too |
| `SessionTables.FirstInBucket` | src/service/session.c:44-57 | looking only into the hashed bucket finds what looking everywhere finds |
| `SessionTables.RemoveInBucket` | src/service/session.c:59-75 | removing from the bucket is removing from the list, and other buckets do not change |
| `SessionTables.OwnDestroyedIffNested` | main.c:215-220 | for every interleaving of handlers, what the table's removals destroy is, in order, the connections of the handlers that end, if and only if handlers that share a descriptor are nested in time |
| `SessionTables.DistinctKeysDestroyOwn` | main.c:215-220 | when no descriptor is handed out again before its handler has ended, the table's removals destroy exactly the connections of the handlers that end |
| `SessionTables.OwnIsFirstIff` | src/service/session.c:59-75 | a running handler's entry is the first for its descriptor exactly when every handler for it that started later has ended |
| `SessionTables.ReusedDescriptorDestroysAnother` | src/service/dispatcher.c:122 | a run in which a descriptor closed early is reused: the first handler ends and the table destroys the second's connection |
| `SessionTables.SessionTable.constructor` | src/service/session.c:12-16 | an empty table |
| `SessionTables.SessionTable.AddConnection` | src/service/session.c:34-42 | linking a node at the head of its chain adds to its bucket |
| `SessionTables.SessionTable.GetConnection` | src/service/session.c:44-57 | following the chain finds the bucket's first entry for the descriptor |
| `SessionTables.SessionTable.FindLink` | src/service/session.c:62-73 | the walk stops at the first entry for the descriptor, with the link that leads to it |
| `SessionTables.SpliceOut` | src/service/session.c:66 | writing through the link in the node before leaves the chain without that node |
| `SessionTables.SessionTable.UnlinkHead` | src/service/session.c:66 | writing through the bucket's own link leaves the chain without its head |
| `SessionTables.SessionTable.UnlinkAfter` | src/service/session.c:66 | all other chains stay linked as they were |
| `SessionTables.SessionTable.UnlinkFirst` | src/service/session.c:59-75 | exactly the first entry for the descriptor leaves its chain |
| `SessionTables.SessionTable.RemoveConnection` | src/service/session.c:59-75 | remove on the bucket, and exactly the entry found is destroyed |
| `SessionTables.SessionTable.DestroyChain` | src/service/session.c:21-27 | a chain's connections are destroyed in order |
| `SessionTables.SessionTable.DestroyAll` | src/service/session.c:18-32 | all entries left are destroyed, each once, bucket by bucket |
| `Reassembly.ChunkingIndependence` | src/service/dispatcher.c:86-119 | however the stream is cut, append and extraction give the lines and the rest of the whole |
| `Reassembly.LinesAppend` | src/service/dispatcher.c:33-71 | more data never changes complete lines |
| `Reassembly.LinesUndoRender` | src/service/dispatcher.c:33-71 | extraction undoes sending lines with any mixture of LF and CR LF |
| `Reassembly.AppendKeepsFirstLine` | src/service/dispatcher.c:45-66 | the first line and what is after it do not depend on later data |
| `Reassembly.Grown` | src/service/session.c:102-105 | the new capacity suffices, and is the old one, 4096, or less than twice what was needed |
| `Reassembly.Connection.constructor` | src/service/session.c:77-91 | an empty buffer of capacity 0 |
| `Reassembly.Connection.Reserve` | src/service/session.c:102-113 | the doubling loop, and that a refused allocation changes nothing |
| `Reassembly.Connection.AppendData` | src/service/session.c:99-117 | appends, or loses the data when a needed allocation is refused; `peak` is the most ever buffered, and the capacity is 0, 4096 or below twice that |
| `Reassembly.Connection.Shift` | src/service/dispatcher.c:62-63 | the move to the front drops exactly the first n bytes |
| `Reassembly.Connection.ConsumeBuffer` | src/service/session.c:119-129 | drops n bytes, or everything |
| `Reassembly.Connection.ExtractLine` | src/service/dispatcher.c:33-71 | the first line if and only if there is a newline, else nothing changes |
| `Reassembly.Connection.TakeLines` | src/service/dispatcher.c:102-118 | repeated extraction gives all complete lines and leaves the rest |
| `Reassembly.Connection.HandleHttp` | src/service/finite_state.c:9-67 | the state transitions, and the page only when leaving WAIT_CMD |
| `Reassembly.Connection.ReceiveHttp` | src/service/dispatcher.c:88-118 | one receive, kept or lost: the page and CLOSE exactly when a line is complete |
| `Reassembly.Connection.ServeHttp` | src/service/dispatcher.c:73-125 | over a whole session, with any answers of the allocator, the page is sent once if a newline is among what is kept, and otherwise never |
| `Reassembly.AllKept` | src/service/session.c:99-117 | when every allocation is granted, everything received before the peer closed is kept |
| `Resp.ParseUndoesEncode` | src/service/redis_honeypot.c:73-122 | parsing an encoded command of 1 to 32 arguments gives them back, cut to 1023 bytes, and consumes exactly the encoding, whatever follows |
| `Resp.SplitCommandIsInline` | src/service/redis_honeypot.c:73-171 | the start of a command is no array, whatever stale bytes follow, and the inline parser takes some of it for a command of its own |
| `Resp.ParsedIffWhole` | src/service/redis_honeypot.c:73-122 | of a command that is being received, the array parser reads all or nothing |
| `Resp.ParsedIffCountFits` | src/service/redis_honeypot.c:73-122 | of encoded commands with any number of arguments exactly those with 1 to 32 are parsed |
| `Resp.NegativeFails` | src/service/redis_honeypot.c:86-104 | a negative count is no array and a negative length no argument |
| `Resp.InlineUndoesTyping` | src/service/redis_honeypot.c:128-171 | a line of words with any blanks between them, whole in the buffer, is parsed into the first 32 words, cut to 1023 bytes, and consumed with its CR LF |
| `Resp.OtherLinesAreInline` | src/service/redis_honeypot.c:128-171 | so is a line ended by a bare LF with no CR LF behind it, and one that has not ended yet |
| `Resp.WordsUndoTyping` | src/service/redis_honeypot.c:150-162 | splitting undoes typing, whatever blanks were typed |
| `Resp.CutShort` | src/service/redis_honeypot.c:108-112 | arguments of up to 1023 bytes are kept whole |
| `Resp.HeaderReads` | src/service/redis_honeypot.c:82-90 | a decimal header reads as its number and its CR LF is found right after it |
| `Resp.ArgReads` | src/service/redis_honeypot.c:93-117 | one bulk string is read and exactly consumed |
| `Redis.PipelineIsDispatchedInOrder` | src/service/redis_honeypot.c:608-638 | whole commands in the buffer are dispatched first, in order, each once, up to the first whose name, as a C string, spells QUIT or SHUTDOWN in any letter case, whatever valid and stale bytes follow them; the session ends there exactly when there is such a command, and otherwise goes on with what follows |
| `Redis.ReceivedPipelineIsDispatched` | src/service/redis_honeypot.c:594-638 | the same for commands completed by a receive: bytes left from before, unless the buffer was full, and the new chunk |
| `Redis.ClosesIffSpelled` | src/service/redis_honeypot.c:510-541 | a command ends the session if and only if its first argument, read as a C string, has the letters of QUIT or SHUTDOWN, each in either case |
| `Redis.QuitEndsPipeline` | src/service/redis_honeypot.c:539-541 | of commands that start with a QUIT only that one is dispatched, and the session ends |
| `Redis.NothingAfterQuit` | src/service/redis_honeypot.c:587-638 | in every run, whatever is received and by whichever parser, the session is over exactly when its last command was QUIT or SHUTDOWN, and none before it was |
| `RespStale.StaleBytesMatterIff` | src/service/redis_honeypot.c:73-122 | over all 4096-byte buffers with a NUL behind the valid bytes, the array parser depends on the first `buf_len` bytes alone if and only if it does not reach a last argument whose length those bytes leave open and digits for which there is room can complete to one that fits |
| `RespStale.CommandIsLocal` | src/service/redis_honeypot.c:73-122 | without such an open header the result is the same for all stale bytes |
| `RespStale.SwayedDiffers` | src/service/redis_honeypot.c:96-117 | with one, two such buffers that give different results |
| `RespStale.NonBlankHeaderIsClosed` | src/service/redis_honeypot.c:96-100 | a header line with anything but white space in it is not open |
| `Redis.StaleBytesChangeCommands` | src/service/redis_honeypot.c:587-638 | two commands received together or one after the other are dispatched differently, because a shift leaves a digit behind the second |
| `Resp.ParseStopsAtNul` | src/service/redis_honeypot.c:73-171 | neither parser reads past the first NUL behind the valid bytes, wherever its scans start |
| `Redis.ProcessKeepsTerminator` | src/service/redis_honeypot.c:605-637 | a NUL stays at or after the valid bytes through every run of the parsing loop, although shifts write none |
| `Redis.NoScanLeavesTheBuffer` | src/service/redis_honeypot.c:587-638 | in every run of receives, from any buffer contents, the session is that of a parser which is given no byte past that NUL |
| `Redis.FillTerminates` | src/service/redis_honeypot.c:588-605 | a receive appends its chunk and puts a NUL after it |
| `Resp.ParseConsumes` | src/service/redis_honeypot.c:613-637 | a successful parse consumes something, so the loop ends |
| `Redis.EchoRoundTrip` | src/service/redis_honeypot.c:492-494 | a client that sends ECHO reads its own argument back |
| `Resp.ParseRespArray` | src/service/redis_honeypot.c:73-122 | with its early returns, an encoded command at the front of the buffer is returned and exactly consumed, and all else is as specified |
| `Resp.ParseArgs` | src/service/redis_honeypot.c:92-121 | the argument loop, which fails as a whole if any argument does |
| `Redis.JoinCommand` | src/service/redis_honeypot.c:285-296 | the audited text is the arguments joined by spaces, cut to 4095 bytes |
| `Redis.AuditedTextSplits` | src/service/redis_honeypot.c:285-296 | the joined text splits into the arguments again when they have no blanks |
| `Redis.RedisService.constructor` | src/service/redis_honeypot.c:583-585 | an empty buffer with any contents |
| `Redis.RedisService.MoveDown` | src/service/redis_honeypot.c:633 | the move keeps all bytes beyond what it moves |
| `Redis.RedisService.ParseNext` | src/service/redis_honeypot.c:608-637 | one turn of the inner loop, inline fallback included; progress makes `buf_used` fall |
| `Redis.RedisService.ProcessBuffer` | src/service/redis_honeypot.c:608-638 | the inner loop to its end |
| `Redis.RedisService.Append` | src/service/redis_honeypot.c:594-605 | the chunk and its terminator over the old bytes, nothing else |
| `Redis.RedisService.Receive` | src/service/redis_honeypot.c:587-638 | one turn of the outer loop, overflow reset included |
| `Redis.RedisService.Serve` | src/service/redis_honeypot.c:587-639 | a session over what `recv` returns, call by call, in which nothing is dispatched after QUIT or SHUTDOWN |
| `SmtpAuth.AuthPlainRoundTrip` | src/service/smtp_honeypot.c:156-204 | for NUL-free authzid, user and password, encoded padded or not with blanks anywhere, as the argument or on the next line, exactly that user and password are captured |
| `SmtpAuth.DecodeInvertsEncode` | src/service/smtp_honeypot.c:33-84 | unpadded encodings decode to the original bytes |
| `SmtpAuth.DecodeInvertsEncodePadded` | src/service/smtp_honeypot.c:55-79 | padded ones decode to the original and one zero byte for each '=' |
| `SmtpAuth.BlanksDoNotMatter` | src/service/smtp_honeypot.c:59-61 | CR, LF and spaces inserted anywhere change nothing |
| `SmtpAuth.EncodingsAreAccepted` | src/service/smtp_honeypot.c:55-66 | an encoder's own output has no blanks to skip |
| `SmtpAuth.SextetIsOfAlphabet` | src/service/smtp_honeypot.c:36-49 | only the characters of the alphabet have values other than zero |
| `SmtpAuth.SplitUndoesPlain` | src/service/smtp_honeypot.c:185-196 | splitting the message, with any zero bytes after it, gives user and password |
| `SmtpAuth.MissingNuls` | src/service/smtp_honeypot.c:185-196 | without the first NUL neither name nor password is found, without the second no password |
| `SmtpAuth.ReadGroup` | src/service/smtp_honeypot.c:55-66 | the inner loop takes the next four characters that are not blank, or all that are left |
| `SmtpAuth.ShiftOut` | src/service/smtp_honeypot.c:71-79 | the 24-bit group splits into the three bytes the sextets spell |
| `SmtpAuth.WriteGroup` | src/service/smtp_honeypot.c:71-79 | the bytes of a group are written as far as there is room |
| `SmtpAuth.DecodeNext` | src/service/smtp_honeypot.c:51-80 | one group moves from the undecoded rest to the output; decoded part and rest together stay the same |
| `SmtpAuth.Base64Decode` | src/service/smtp_honeypot.c:33-84 | the output is the decoding, or its exact prefix in a small buffer, and is terminated |
| `SmtpAuth.FindNul` | src/service/smtp_honeypot.c:189-192 | the position of the next NUL |
| `SmtpAuth.SplitUser` | src/service/smtp_honeypot.c:191-194 | user and password after the first NUL, read as C strings |
| `SmtpAuth.SplitCredentials` | src/service/smtp_honeypot.c:185-196 | the split on the decoded buffer, missing NULs included |
| `SmtpAuth.HandleAuthPlain` | src/service/smtp_honeypot.c:156-204 | prompts exactly when there is no argument; what is logged is the split of the decoding of the argument or of the next line, and nothing when none comes |
| `Telnet.StripUndoesSending` | src/service/telnet_honeypot.c:65-110 | of every interleaving of data, commands, negotiations and subnegotiations with any parameters, exactly the data comes out if and only if no parameters have 255, 240 before their end |
| `Telnet.StripKeeps` | src/service/telnet_honeypot.c:65-110 | in every case the data comes out in order, together with the parameters after the first 255, 240 of each subnegotiation |
| `Telnet.CleanParams` | src/service/telnet_honeypot.c:74-85 | of one subnegotiation as RFC 855 sends it, those parameters and nothing else are kept |
| `Telnet.ParametersLeak` | src/service/telnet_honeypot.c:77-83 | the parameters 255, 240, 65 are sent in eight bytes, of which the 65 becomes input |
| `Telnet.EveryInputIsASending` | src/service/telnet_honeypot.c:65-110 | every input is such an interleaving and at most one unfinished sequence, and what is kept is its data and a lone final IAC |
| `Telnet.CleanItem` | src/service/telnet_honeypot.c:71-105 | one sent item is removed, or yields its byte, or what leaks out of it |
| `Telnet.SkipSub` | src/service/telnet_honeypot.c:76-83 | the inner loop stops right after the first IAC SE, or at the end |
| `Telnet.StripOne` | src/service/telnet_honeypot.c:71-105 | from any position the scan moves past exactly one sequence and writes exactly what that sequence yields |
| `Telnet.StripIac` | src/service/telnet_honeypot.c:65-110 | the output is what is kept, or its first dst_cap - 1 bytes, and is terminated |
| `Dns.NameRoundTrip` | src/service/dns_honeypot.c:39-77 | an encoded name of labels of 1 to 191 bytes is read back with its exact length, and refused if it has more than 128 of them |
| `Dns.NameReadsBackIff` | src/service/dns_honeypot.c:39-77 | an encoded name is read back if and only if each label has 1 to 191 bytes and there are at most 128 |
| `Dns.ReservedLengthIsRead` | src/service/dns_honeypot.c:53-68 | a name whose one label has 64 bytes is read |
| `Dns.OtherNameEnds` | src/service/dns_honeypot.c:45-73 | a pointer ends a name and is not followed, so does the end of the message, and a label that runs past it is refused |
| `Dns.NameEndBound` | src/service/dns_honeypot.c:45-73 | a parsed name ends at most one byte past the message |
| `Dns.AQueryIsAnswered` | src/service/dns_honeypot.c:106-152 | a complete A query with room gets its ID and question back with one answer record |
| `Dns.AReplyReadsBack` | src/service/dns_honeypot.c:106-152 | that reply is question end + 16 bytes; its header has the ID and question count asked, no error, one answer and nothing in the other sections; it asks for the same name, and its one record is that name, 300 seconds, 10.0.2.15 |
| `Dns.FramedAQueryIsAnswered` | src/service/dns_honeypot.c:154-275 | the same end to end over TCP framing |
| `Dns.EveryReplyIsWellFormed` | src/service/dns_honeypot.c:202-275 | every message of at least 12 bytes gets a reply that keeps its ID and question count, is marked as a response, and is as long as the message or, for an A query with room, ends 20 bytes after the name |
| `Dns.AnsweredReadsBack` | src/service/dns_honeypot.c:106-152 | read by section 4.1.1 of RFC 1035, the reply to an A query with room has the ID and question count asked, code 0, one answer, nothing in the other sections, and the question as it was asked |
| `Dns.FailedReadsBack` | src/service/dns_honeypot.c:86-104 | every other message gets its ID and question count back with code 5 for a zone transfer and 2 for everything else and for a bad name, no answers, and its other bytes unchanged |
| `Dns.OtherQueriesAreRefused` | src/service/dns_honeypot.c:218-275 | from the sender's side: a query of any other type gets code 5 for AXFR and 2 otherwise, and its name is audited |
| `Dns.AuditedIff` | src/service/dns_honeypot.c:202-222 | a name is audited exactly when it can be read and is there |
| `Dns.ReplyIsFramedAsAsked` | src/service/dns_honeypot.c:178-275 | a reply goes behind its length exactly when the query came so; too short a message gets none |
| `Dns.ReplyDependsOnMessageIff` | src/service/dns_honeypot.c:106-152 | the reply depends on the message alone if and only if it is not an A query with room that ends in the middle of its class |
| `Dns.CutQueryIsAnswered` | src/service/dns_honeypot.c:106-152 | a 15-byte query for the root is answered with bytes behind it |
| `Dns.DeframeUndoesFrame` | src/service/dns_honeypot.c:178-186 | a framed message of 12 to 4094 bytes is found again, whatever follows |
| `Dns.DeframedIffWhole` | src/service/dns_honeypot.c:178-186 | a framed message is found again if and only if it has at least 12 bytes and has come whole; otherwise its length bytes are read as its ID |
| `Dns.UnframedIsKeptIff` | src/service/dns_honeypot.c:178-186 | an unframed message is kept whole if and only if its ID, read as a length, is below 12 or too long |
| `Dns.UnframedQueryMayBeCut` | src/service/dns_honeypot.c:180-181 | a legal 17-byte query with ID 12 is taken for a framed message of 12 bytes |
| `Dns.CopyBytes` | src/service/dns_honeypot.c:65-66 | the copy stops one byte before the end of the buffer |
| `Dns.AddLabel` | src/service/dns_honeypot.c:62-66 | a dot and a label are added as far as they fit |
| `Dns.ParseLabels` | src/service/dns_honeypot.c:45-73 | the loop over labels up to a zero byte, a pointer or the end |
| `Dns.ParseDomainName` | src/service/dns_honeypot.c:39-77 | -1 or the length consumed, with the dotted name cut to the buffer |
| `Dns.BuildServfail` | src/service/dns_honeypot.c:86-104 | the query with a reply header, or nothing |
| `Dns.SetHeader` | src/service/dns_honeypot.c:118-126 | only the header bytes change |
| `Dns.BuildFakeA` | src/service/dns_honeypot.c:106-152 | reply header, the question bytes and the answer record, or the failure reply when there is no room |
| `Dns.ReplyTo` | src/service/dns_honeypot.c:200-275 | the reply and the audited name: refusal for AXFR, the answer for A, failure otherwise or for a bad name |
| `Dns.RunDnsService` | src/service/dns_honeypot.c:154-275 | one receive to one reply on the wire |
| `Ftp.SessionClosedForm` | src/service/ftp_honeypot.c:267-444 | after any run: authenticated iff at least two PASS lines and the last USER or PASS line was a PASS; running iff no QUIT; captured credentials, directory and PWD replies are those the lines spell |
| `Ftp.DirectoryStaysAbsolute` | src/service/ftp_honeypot.c:207-229 | the directory always starts with '/' and has at most 511 bytes |
| `Ftp.PwdReplyIsWhole` | src/service/ftp_honeypot.c:317-324 | the PWD reply is never cut |
| `Ftp.LoginIsCaptured` | src/service/ftp_honeypot.c:102-162 | end to end on bytes, in any receives, with CR LF at the line ends and commands in any letter case: USER u, PASS p, PASS q captures exactly (u, p, failed) and (u, q, logged in), each cut to 255 bytes |
| `Ftp.DirectoriesAreReplied` | src/service/ftp_honeypot.c:207-229 | end to end on bytes: an absolute CWD and PWD, a relative CWD and PWD are answered with the path, and with both joined by one slash |
| `Ftp.ArgumentIsWhatFollows` | src/service/ftp_honeypot.c:102-109 | the argument is what follows the command word and any number of spaces |
| `Ftp.StartsIffSpelled` | src/service/ftp_honeypot.c:289-336 | a command is recognised exactly by its letters, each in either case |
| `Ftp.LineIsDispatched` | src/service/ftp_honeypot.c:92-96 | a line sent with LF, CR LF or more carriage returns is dispatched without them |
| `Ftp.AnyLineIsDispatched` | src/service/ftp_honeypot.c:274-288 | of a line of any length the first 4095 bytes are dispatched |
| `Ftp.UserIsTaken` | src/service/ftp_honeypot.c:111-128 | from any state a USER line puts its name in force and drops the login |
| `Ftp.PassIsTaken` | src/service/ftp_honeypot.c:130-162 | from any state a PASS line captures the name in force and its password, and from the second on logs in to /var/www/html |
| `Ftp.CwdIsTaken` | src/service/ftp_honeypot.c:207-229 | from any state that is logged in a CWD line moves the directory and changes nothing else |
| `Ftp.PwdIsReplied` | src/service/ftp_honeypot.c:317-324 | a PWD or XPWD line replies with the whole directory and changes nothing |
| `Ftp.CdupIsTaken` | src/service/ftp_honeypot.c:338-343 | a CDUP or XCUP line goes to /var/www |
| `Ftp.QuitIsTaken` | src/service/ftp_honeypot.c:306-310 | a QUIT line ends the session and changes nothing else |
| `Ftp.LoginIsNeeded` | src/service/ftp_honeypot.c:312-315 | before a login no line but USER, PASS and QUIT changes anything |
| `Ftp.RunningHasBeen` | src/service/ftp_honeypot.c:267-343 | while no QUIT was sent, the whole session does not depend on how the stream is cut |
| `Ftp.ChunkingIndependence` | src/service/ftp_honeypot.c:267-343 | however the stream is cut, the same lines are dispatched up to the first QUIT |
| `Ftp.LinesAfterQuitStillRun` | src/service/ftp_honeypot.c:306-310 | QUIT and NOOP in one receive are both dispatched, in two receives only QUIT is |
| `Ftp.LinesAfterQuitRunIff` | src/service/ftp_honeypot.c:267-443 | in every run, a line is dispatched after the first QUIT if and only if the receive in which that QUIT ends holds another line after it |
| `Ftp.AfterQuitIff` | src/service/ftp_honeypot.c:274-443 | the same for one receive, cut right after the first QUIT |
| `Ftp.XcwdIsNeverAbsolute` | src/service/ftp_honeypot.c:333-336 | the argument of XCWD starts with its own 'D', so it only ever extends the directory |
| `Ftp.HandleCwdReads` | src/service/ftp_honeypot.c:207-229 | CWD on the buffers is replacement or appending after one slash on texts, cut to 511 bytes |
| `Ftp.DispatchLogin` | src/service/ftp_honeypot.c:289-315 | each line takes the login state to its closed form |
| `Ftp.DispatchPlace` | src/service/ftp_honeypot.c:317-343 | each line takes directory and PWD replies to their closed form |
| `Ftp.FtpServer.constructor` | src/service/ftp_honeypot.c:255-265 | the initial session |
| `Ftp.FtpServer.User` | src/service/ftp_honeypot.c:111-128 | the name is the argument cut to 255 bytes, the login is dropped and the password cleared |
| `Ftp.FtpServer.Pass` | src/service/ftp_honeypot.c:130-162 | the attempt is recorded with the name in force, the password cut to 255 bytes and success from the second on, which logs in to /var/www/html |
| `Ftp.FtpServer.Cwd` | src/service/ftp_honeypot.c:207-229 | read as texts, an absolute argument replaces the directory and a relative one is appended after one slash, cut to 511 bytes |
| `Ftp.FtpServer.DispatchLine` | src/service/ftp_honeypot.c:289-343 | one line takes login, credentials, directory and PWD replies to what the lines so far spell |
| `Ftp.FtpServer.ReceiveByte` | src/service/ftp_honeypot.c:274-442 | a newline dispatches the assembled line and empties it, other bytes are appended, and those beyond 4095 are dropped |
| `Ftp.FtpServer.ReceiveChunk` | src/service/ftp_honeypot.c:274-443 | a receive is its bytes one after the other, also after QUIT |
| `Ftp.FtpServer.Serve` | src/service/ftp_honeypot.c:267-444 | over any receives up to the empty one the session stays what the dispatched lines spell; `running` is tested between receives only |
| `SshShells.TerminalShowsPromptAndCommand` | src/service/ssh_honeypot.c:216-270 | for every stream of printable bytes, erasures, Ctrl-C and line ends in any chunking, a terminal fed the output shows exactly the prompt and the buffered command |
| `SshShells.KeyStep` | src/service/ssh_honeypot.c:229-269 | each key keeps the terminal showing the prompt and the buffered command |
| `SshShells.SubmitsWhatTheStackHolds` | src/service/ssh_honeypot.c:232-268 | the commands audited are those of a bounded stack, line by line, and so is the buffered rest |
| `SshShells.EveryStreamIsTyped` | src/service/ssh_honeypot.c:223-270 | every stream is lines and a rest to which that applies |
| `SshShells.EraseUndoesType` | src/service/ssh_honeypot.c:255-268 | a key that had room and an erasure cancel |
| `SshShells.LineEndWrites` | src/service/ssh_honeypot.c:232-254 | the end of a line writes CR LF, the response with its CR LF and the prompt; only CR LF for a command that ends the session |
| `SshShells.SessionIsTranscribed` | src/service/ssh_honeypot.c:223-270 | of any commands typed without corrections the whole output is each command echoed, CR LF, its response and the next prompt, up to the command that ends the session |
| `SshShells.KeysAppend` | src/service/ssh_honeypot.c:223-270 | pressing the keys of two chunks is pressing those of their concatenation |
| `SshShells.SshShell.constructor` | src/service/ssh_honeypot.c:216-221 | banner, prompt and an empty command |
| `SshShells.SshShell.PressKey` | src/service/ssh_honeypot.c:229-269 | each byte takes the buffer, the output, the audited commands and the open flag where the editor's specification takes them |
| `SshShells.SshShell.ReadChunk` | src/service/ssh_honeypot.c:229-269 | a read is its keys one after the other, and none after the session has ended |
| `SshShells.SshShell.Serve` | src/service/ssh_honeypot.c:223-270 | a session over any chunks, up to the first empty read, is the keys of their concatenation |
| `JsonEscape.UnescapeInvertsEscape` | src/utilities/logger.c:152-192 | unescaping gives the message back, and no unescaped quote appears |
| `JsonEscape.LegalIffWritable` | src/utilities/logger.c:155-189 | no byte of the result breaks the JSON string grammar if and only if the message has no control byte but tab, LF and CR |
| `JsonEscape.EscapeKeepsUtf8` | src/utilities/logger.c:155-189 | the result is UTF-8 if and only if the message is |
| `JsonEscape.JsonIffWritableUtf8` | src/utilities/logger.c:155-189 | the result is the body of a JSON string if and only if the message is UTF-8 and has no control byte but tab, LF and CR |
| `JsonEscape.MalformedBytesGoThroughRaw` | src/utilities/logger.c:186-188 | the byte 0xFF is written as it is, and the result is not JSON |
| `JsonEscape.CutIsJsonIff` | src/utilities/logger.c:154-191 | what is kept of a message that would be JSON is JSON if and only if the cut does not fall inside a character |
| `JsonEscape.CharacterIsCut` | src/utilities/logger.c:154-191 | a character of three bytes of which a destination of four bytes keeps two |
| `Utf8Text.EncodedIsUtf8` | src/utilities/logger.c:155-189 | the UTF-8 that these claims speak of accepts every encoded sequence of code points |
| `Utf8Text.Utf8IsEncoded` | src/utilities/logger.c:155-189 | and nothing else |
| `JsonEscape.ControlBytesGoThroughRaw` | src/utilities/logger.c:186-188 | a bell byte is written as it is, and the result is not JSON |
| `JsonEscape.WholeMessageFitsIff` | src/utilities/logger.c:154 | nothing is cut if and only if all but the last byte, escaped, leaves three bytes free |
| `JsonEscape.PutByte` | src/utilities/logger.c:155-189 | one byte becomes itself or a whole pair |
| `JsonEscape.EscapeFitting` | src/utilities/logger.c:154-190 | the loop escapes a prefix of the message, stops once less than three bytes are free, and never splits a pair |
| `JsonEscape.EscapeJsonString` | src/utilities/logger.c:152-192 | the terminated result unescapes to that prefix, has no unescaped quote, and is the body of a JSON string exactly when the prefix is UTF-8 and has no control byte but tab, LF and CR |

## Left out

- Socket calls, log files and their rotation, timestamps, session ids and key files: operating-system I/O.
- `write_record` when the log file cannot be opened: the model takes every record handed to it as written.
- Records made after the flush thread has returned: they stay in the ring (the model shows it) and `audit_shutdown` frees it.
- libssh: key exchange, authentication and channels; only the byte loop of the shell is modelled.
- Characters of more than one byte, and wrapping at the right margin, in the terminal that the SSH theorem uses.
- MySQL, PostgreSQL, QuestDB, POP3 and IMAP, SMTP apart from AUTH PLAIN (how `smtp_recv_line` reads its line included), Telnet apart from stripping, `handle_ssh`: they would repeat these proofs in easier form.
- The replies of Redis other than ECHO and of FTP other than PWD, the fake listings and name tables: constants. The table of SSH responses is a parameter; all that is used of it is that each ends in CR LF.
- Streams of inline Redis commands: single lines are read back (`InlineUndoesTyping`, `OtherLinesAreInline`), but how a stream is cut matters, because lines that have no end yet are accepted and a CR LF anywhere is taken before a bare LF.
- RespStale.StaleBytesMatterIff: stale digits that complete a length to more than an `int` holds are not considered, because `atoi` is undefined for them.
- Allocation failure, except in `connection_append_data` and in the listener's error paths; `size_t` overflow when a buffer doubles; overflow of `auth_attempts`.
- JsonEscape.EscapeJsonString: does not model destinations of less than two bytes, for which `dst_size - 2` wraps; the only caller has a large buffer.
- SmtpAuth.Base64Decode: does not model an output of zero bytes, for which `out_size - 1` wraps; no caller has one.
- Telnet.StripIac: does not model an output of zero bytes, for which `dst_cap - 1` wraps; no caller has one.
