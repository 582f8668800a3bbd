# Verified models of an Android 2.1 init/RIL tree and of S3C2410 bring-up code

The repository holds two programs: the user-space start of an Android 2.1 system (`init` and the
radio interface daemon) and a set of board tests for an S3C2410. This project models the parts of
both that are state machines, in-place buffer code or protocols, and proves what holds of them in
every run.

Most components come twice. A specification layer says on plain values what an operation means;
classes and methods beside it work on arrays, linked nodes, cursors and counters the way the C code
does, and are proved against that layer. The results are lemmas about the specification.

| file | modules | component |
|---|---|---|
| AtReader.dfy | AtReader | the line reader of the AT channel over its fixed buffer |
| AtChannel.dfy | AtChannel, AtChannelCode | routing of lines, the pending command, timeout and close |
| AtStream.dfy | AtStream | the reader thread, from bytes to destinations |
| AtTok.dfy | AtTok | the tokenizer for response lines |
| RilEvent.dfy | TimeVal, EventRing, EventLoop | the event loop: rings, timers, watch table |
| RilRun.dfy | EventRun | whole runs of the event loop |
| RilRequests.dfy, RilSession.dfy | RilRequests, RilSession | the list of pending requests, and whole runs of it |
| WakeLock.dfy | WakeLock | the timers that release the wake lock |
| CdmaSms.dfy | CdmaSms, CdmaSmsCode | marshalling of CDMA short messages |
| CrashWindow.dfy | CrashWindow | the crash counter of a critical service |
| Services.dfy, Commands.dfy, Delays.dfy, Crashes.dfy, Stopped.dfy, Orphans.dfy, InitCode.dfy | Services, Commands, Delays, Crashes, Stopped, Orphans, InitCode | the life of init's services |
| Parser.dfy, Escapes.dfy | Lexer, ParserCode, Escapes | the configuration parser and its in-place lexer |
| PropertyService.dfy | PropertyTable, PropertyArea | the property table in shared memory |
| MarchTest.dfy | MarchMemory, MarchTest | the March C- memory tests |
| NandProgram.dfy | NandFlash, NandProgram | NAND programming with bad-block skipping |
| Download.dfy | Download | the framed download receivers |
| Common.dfy | Common | what several components need |

## Where the code does not do what it says

- The comment at atchannel.c:413-414 says that the cursor never passes the text that was read and
  that a NUL stands there. The "> " prompt (lines 310-313) leaves it one further:
  `AtReader.PromptHand` and `AtReader.PromptReturn` give the exact condition under which stale text
  is then read again, `AtReader.PromptReplaysStaleText` a stream in which it is.
- The message at init.c:378-380 promises a reboot when a critical process exits more than four times
  in four minutes. The windows are anchored at their first exit, so five exits in four minutes may
  pass (`CrashWindow.FiveMayBeMissed`), and so may eight; `CrashWindow.RebootsExactly` says when the
  reboot comes, `CrashWindow.NineAlwaysReboot` that nine exits suffice.
- A second AT command sent while one is pending clears the first one's state
  (`AtChannel.SecondSendDropsFirst`). The first caller then finds no response when it wakes up, where
  the code follows a null pointer, or takes the reply of a further command. The results about
  commands are for one command thread.
- The tokenizer hands out one empty field more behind a quoted last one (`AtTok.OneCallMore`).
- `ril_event_del` leaves its mutex held on a bad index (`EventLoop.Watch.EventDel`).
- The escapes for newline, return and tab leave their letter in the word, the second of two
  backslashes starts an escape of its own, and the escaped CR LF that parser.c:298-305 means to
  continue the line ends it. `Escapes.ReadAsMeant` says exactly which words are read as they are meant.
- Stopping and starting a service before its process has been waited for runs two processes
  (`Orphans.RestartForksBeside`), and no service ever knows the first again (`Orphans.LeftBehind`).
- property_service.c:315-319 says that "net.change" tracks every "net." property; with a full table
  it does not (`PropertyTable.NetChangeTracks`).
- A request whose record is malformed behind its token stays in the list of pending requests for
  ever, and is never answered (`RilSession.Session`).
- A response that cannot be marshalled releases the wake lock that an earlier response still holds
  (`WakeLock.Ril.OnUnsolicitedResponse`).

## Premises

- Reader: no NUL in the stream. The theorem about all lines also asks that no line begins with the
  prompt and that every line, with the line ends before it, is shorter than the buffer; the theorem
  about one line covers longer stretches as well, and `AtReader.PromptBetween` a prompt among lines.
- Event loop: descriptors watched together differ, and an event is on at most one ring when it is
  added. Callbacks of one round do not touch the ring of pending events.
- Services: fork returns a pid that no child which has not been waited for still has; an answer that
  would break this counts as a failed fork. The clock does not run backwards. The commands that a
  property change or an exit triggers are arbitrary and nest to any depth.
- Requests: every request is a new object, and a completion is one step. Wake lock: each call and
  each callback is one step.
- Memory: one fault, namely a stuck-at bit, a bit that fails one transition, or a bit that a bit of
  another word inverts or forces when it changes.
- NAND: a bad mark takes effect, and which blocks fail to erase and which pages fail to be written
  is fixed for the run. BAD_CHECK is 1 and ECC_CHECK is 0, as in the source.

## Model

| member | source | states |
|---|---|---|
| `AtReader.DrainMeaning` | android2.1_init/hard_ril/reference-ril/atchannel.c:308-418 | for every way of cutting the stream into read() chunks, the successive lines are exactly the maximal non-empty stretches without CR or LF that a CR or LF follows, in order; no NUL, no line beginning with the prompt, every line shorter than the buffer |
| `AtReader.ReadLineMeaning` | android2.1_init/hard_ril/reference-ril/atchannel.c:332-418 | one readline hands out the first line of what is unread and leaves exactly the rest, also when a stretch of 8192 characters without a complete line is thrown away |
| `AtReader.ScanMeaning` | android2.1_init/hard_ril/reference-ril/atchannel.c:372-401 | the read loop, entered with any partial line, finds the first line of that partial line and the stream together |
| `AtReader.CuttingIrrelevant` | android2.1_init/hard_ril/reference-ril/atchannel.c:383-401 | two receptions of the same text that are cut differently give the same lines |
| `AtReader.TerminatedExactly` | android2.1_init/hard_ril/reference-ril/atchannel.c:315-320 | the lines of a text, by its characters: a stretch without CR and LF that one of them follows is a line unless it is empty, and what none follows is no line |
| `AtReader.PromptHand` | android2.1_init/hard_ril/reference-ril/atchannel.c:310-313 | wherever the prompt stands in the buffer it is handed out with the cursor one past its terminator, and what stands there counts as unread text if and only if it is not NUL |
| `AtReader.CursorLeavesArray` | android2.1_init/hard_ril/reference-ril/atchannel.c:310-313 | the cursor a line leaves lies behind the last byte of the array if and only if the line is a prompt that fills the buffer to its end |
| `AtReader.PromptAtBufferEnd` | android2.1_init/hard_ril/reference-ril/atchannel.c:376-414 | every stream of 8190 line ends and a prompt brings the cursor there |
| `AtReader.PromptReturn` | android2.1_init/hard_ril/reference-ril/atchannel.c:310-313 | a prompt that arrives alone is handed out at once; stale text is read again afterwards if and only if the byte one past its terminator is not NUL |
| `AtReader.PromptArrives` | android2.1_init/hard_ril/reference-ril/atchannel.c:310-414 | the same for a prompt behind any line ends, from every state of the reader in which nothing is unread |
| `AtReader.PromptBetween` | android2.1_init/hard_ril/reference-ril/atchannel.c:308-418 | lines, a prompt and lines again, for every cutting of the two texts around it: when what comes before has been used up and the byte behind the terminator of the prompt is NUL, the lines are the terminated stretches of the first text, the prompt, and those of the second |
| `AtReader.PromptReplaysStaleText` | android2.1_init/hard_ril/reference-ril/atchannel.c:411-414 | a concrete stream in which the stale byte turns the line K into OK |
| `AtReader.LineReader.FindNextEol` | android2.1_init/hard_ril/reference-ril/atchannel.c:308-320 | the in-place search agrees with the text-level one |
| `AtReader.LineReader.MoveToFront` | android2.1_init/hard_ril/reference-ril/atchannel.c:358-367 | moving the partial line keeps the unread text and puts the cursor at the front |
| `AtReader.LineReader.ReadMore` | android2.1_init/hard_ril/reference-ril/atchannel.c:372-401 | one round: overflow reset, read, terminate, search |
| `AtReader.LineReader.ReadLine` | android2.1_init/hard_ril/reference-ril/atchannel.c:332-418 | the method over the character array returns the line, buffer, cursor and stream that the specification gives |
| `AtReader.LineReader.ReadAll` | android2.1_init/hard_ril/reference-ril/atchannel.c:438-483 | reading until the end of the stream returns the whole list of lines |
| `AtChannel.OneDestination` | android2.1_init/hard_ril/reference-ril/atchannel.c:241-299 | in every interleaving of lines, command starts, wake-ups, timeouts and close, each line goes to exactly one of unsolicited handler, intermediates, final result and prompt, and each of them gets its lines in the order of arrival |
| `AtChannel.EveryLineOneDestination` | android2.1_init/hard_ril/reference-ril/atchannel.c:438-483 | the same for the reader at any point of a stream of lines, among any commands, wake-ups, timeouts and a close: what has reached a destination is a prefix of the stream, each line once, everything but a last header once the reader is through; the handler is given a second line if and only if the first is an SMS header, and no header goes anywhere else |
| `AtChannel.GroupKeepsLines` | android2.1_init/hard_ril/reference-ril/atchannel.c:440-480 | the reader hands on every line in order; only an SMS header at the end of the stream is lost |
| `AtChannel.GroupPairs` | android2.1_init/hard_ril/reference-ril/atchannel.c:449-470 | an SMS header always goes with the line after it, and any other line goes alone |
| `AtChannel.GroupUnique` | android2.1_init/hard_ril/reference-ril/atchannel.c:449-470 | no other way of handing the lines on keeps these pairs and loses nothing but a header that ends the stream |
| `AtChannel.ResponseClasses` | android2.1_init/hard_ril/reference-ril/atchannel.c:144-223 | which texts begin a final response, of success or of failure, and which an SMS header; no text is in two of these classes |
| `AtChannel.LineExactly` | android2.1_init/hard_ril/reference-ril/atchannel.c:241-299 | what a line does to a waiting command, by its text: OK and CONNECT succeed, the six error texts fail, an awaited prompt is answered, and any other line joins the reply if and only if it has the prefix (multi-line), has it and is the first (single line), or begins with a digit and is the first (numeric); otherwise it goes to the unsolicited handler |
| `AtChannel.WindowState` | android2.1_init/hard_ril/reference-ril/atchannel.c:721-778 | while a command waits, its record is the one the lines received so far call for |
| `AtChannel.CommandResult` | android2.1_init/hard_ril/reference-ril/atchannel.c:721-789 | a wake-up ends a command if and only if a final line has arrived or the channel is closed, a timeout always; status 0 comes with a final line that was received while it was pending and whose class is `success`, and with exactly those intermediates of that time, in their order, whose text has the prefix or, for a numeric command, begins with a digit, all of them for a multi-line command and otherwise the first; a timeout has no response; afterwards no command is pending |
| `AtChannel.SingleResult` | android2.1_init/hard_ril/reference-ril/atchannel.c:843-909 | a successful singleline, numeric or sms command reports exactly one intermediate, the first acceptable one, and is refused as invalid if and only if there was none |
| `AtChannel.SecondSendDropsFirst` | android2.1_init/hard_ril/reference-ril/atchannel.c:730-733 | a second command sent while one is pending is refused, and unless a further command is sent the first one can then never complete |
| `AtChannel.SendRefused` | android2.1_init/hard_ril/reference-ril/atchannel.c:721-750 | a command is refused if and only if another one waits, the channel is closed or the write fails, with a status in this order; none waits then until a further command is sent |
| `AtChannel.ClosedStays` | android2.1_init/hard_ril/reference-ril/atchannel.c:421-433 | the channel is closed if and only if a close event has occurred |
| `AtChannelCode.AtResponse.AddIntermediate` | android2.1_init/hard_ril/reference-ril/atchannel.c:128-141 | head insertion puts the line in front and keeps the rest |
| `AtChannelCode.AtResponse.ReverseIntermediates` | android2.1_init/hard_ril/reference-ril/atchannel.c:699-713 | the pointer loop reverses the list in place |
| `AtChannelCode.AtState.ProcessLine` | android2.1_init/hard_ril/reference-ril/atchannel.c:241-299 | the routing of one line over the response object is the step that LineExactly describes |
| `AtChannelCode.AtState.RouteByType` | android2.1_init/hard_ril/reference-ril/atchannel.c:257-295 | the switch on the command type adds the line to the response or hands it to the unsolicited handler by its text |
| `AtChannelCode.AtState.HandleSms` | android2.1_init/hard_ril/reference-ril/atchannel.c:449-466 | header and following line reach the handler together |
| `AtChannelCode.AtState.StartCommand` | android2.1_init/hard_ril/reference-ril/atchannel.c:721-750 | the start of a command, with the refusals for a pending command and a failed write |
| `AtChannelCode.AtState.Woken` | android2.1_init/hard_ril/reference-ril/atchannel.c:752-789 | the waiting loop, once woken, ends the command exactly when the reply is final or the channel closed; a caller that asked for the response gets it with the intermediates in their order of arrival, any other gets the status alone |
| `AtChannelCode.AtState.WaitTimedOut` | android2.1_init/hard_ril/reference-ril/atchannel.c:763-766 | a timeout ends the command and clears the pending state |
| `AtStream.BytesToDestinations` | android2.1_init/hard_ril/reference-ril/atchannel.c:308-483 | from bytes to destinations for streams without a prompt, for every cutting of the stream and every interleaving of the reader with commands, wake-ups, timeouts and a close: the texts that have reached a destination are, in order and each once, the first terminated stretches of the byte stream, all of them but a last header once the reader is through |
| `AtStream.PromptToDestinations` | android2.1_init/hard_ril/reference-ril/atchannel.c:308-483 | the same across the prompt of an SMS, from any state of the reader: the prompt is one text more between the terminated stretches before and behind it, when it arrives with nothing unread and a NUL behind its terminator |
| `AtStream.ReaderLoop` | android2.1_init/hard_ril/reference-ril/atchannel.c:438-483 | the reader thread over the buffer and the response objects, without interruption: the channel ends up as the run of the grouped lines of the stream followed by close |
| `AtTok.ResponseRoundTrip` | android2.1_init/hard_ril/reference-ril/at_tok.c:28-87 | fields rendered behind "+PREFIX: ", quoted or bare, come back exactly from at_tok_start and one at_tok_nextstr a field |
| `AtTok.JoinRoundTrip` | android2.1_init/hard_ril/reference-ril/at_tok.c:70-87 | the same for the list of fields alone |
| `AtTok.OneCallMore` | android2.1_init/hard_ril/reference-ril/at_tok.c:57-87 | one call more than there are fields fails behind a bare last field, and hands out an empty field that is not there behind a quoted one |
| `AtTok.JunkSkipped` | android2.1_init/hard_ril/reference-ril/at_tok.c:57-81 | what stands between a closing quote and the next comma is passed over |
| `AtTok.BlanksIgnored` | android2.1_init/hard_ril/reference-ril/at_tok.c:48-74 | blanks of any of the six kinds before a field do not matter |
| `AtTok.Line.TokStart` | android2.1_init/hard_ril/reference-ril/at_tok.c:28-46 | the cursor ends up behind the first colon, or the call fails |
| `AtTok.Line.Strsep` | android2.1_init/hard_ril/reference-ril/at_tok.c:70-87 | only the terminator of the token is written |
| `AtTok.Line.NextStr` | android2.1_init/hard_ril/reference-ril/at_tok.c:173-182 | returns the next field, terminated in place; nothing in front of the old cursor changes, so tokens returned earlier stay as they were |
| `AtTok.Line.ReadFields` | android2.1_init/hard_ril/reference-ril/at_tok.c:70-182 | n calls fail as one, or hand out exactly the n fields that the text-level tokenizer finds, and all of them still stand in the line at the end |
| `TimeVal.TimerAdd` | android2.1_init/hard_ril/libril/ril_event.cpp:38-46 | agrees with adding integer microseconds and keeps the normal form |
| `TimeVal.TimerSub` | android2.1_init/hard_ril/libril/ril_event.cpp:57-65 | agrees with subtracting integer microseconds and keeps the normal form |
| `TimeVal.TimerLess` | android2.1_init/hard_ril/libril/ril_event.cpp:50-53 | is the order of integer microseconds |
| `EventRing.AddToList` | android2.1_init/hard_ril/libril/ril_event.cpp:116-123 | linking before the k-th node inserts at position k of a well-formed circular doubly linked ring |
| `EventRing.RemoveFromList` | android2.1_init/hard_ril/libril/ril_event.cpp:125-132 | unlinking takes exactly that node out and clears its links |
| `EventLoop.Lists.TimerAdd` | android2.1_init/hard_ril/libril/ril_event.cpp:287-313 | the timer goes, with its deadline, before the first timer that is not due earlier; the ring stays sorted |
| `EventLoop.Lists.ProcessTimeouts` | android2.1_init/hard_ril/libril/ril_event.cpp:159-181 | moves exactly the timers due before now to the tail of the pending ring, in the order of their deadlines |
| `EventLoop.Lists.CalcNextTimeout` | android2.1_init/hard_ril/libril/ril_event.cpp:216-239 | never a wait past the earliest deadline; none if and only if there is no timer |
| `EventLoop.Lists.FirePending` | android2.1_init/hard_ril/libril/ril_event.cpp:203-214 | fires all pending events in order and empties the ring |
| `EventLoop.Watch.EventAdd` | android2.1_init/hard_ril/libril/ril_event.cpp:266-284 | takes the first free slot, or does nothing when all eight are taken; `readFds`, `nfds` and `ev.index` follow |
| `EventLoop.Watch.RemoveWatch` | android2.1_init/hard_ril/libril/ril_event.cpp:137-157 | `readFds` loses exactly this descriptor, and `nfds` is recomputed exactly when it was the largest |
| `EventLoop.Watch.EventDel` | android2.1_init/hard_ril/libril/ril_event.cpp:316-329 | removes the event; on a bad index nothing changes and the mutex is left held, exactly then |
| `EventLoop.Loop.ProcessReadReadies` | android2.1_init/hard_ril/libril/ril_event.cpp:183-201 | queues each served event once, in table order, and drops those that are not persistent |
| `EventLoop.EveryReadyServed` | android2.1_init/hard_ril/libril/ril_event.cpp:183-201 | when select reports all the descriptors it found, a watched event is served if and only if its descriptor is ready |
| `EventLoop.CountUpTo` | android2.1_init/hard_ril/libril/ril_event.cpp:187-198 | the early stop of the loop counts distinct ready descriptors |
| `EventLoop.Loop.TimerAdd` | android2.1_init/hard_ril/libril/ril_event.cpp:287-313 | a new timer joins the ring and the record of the run with its deadline; nothing else of the record changes |
| `EventLoop.Loop.EventAdd` | android2.1_init/hard_ril/libril/ril_event.cpp:266-284 | an event, new or watched before, takes the first free slot or none; the timers and passes recorded stay |
| `EventLoop.Loop.EventDel` | android2.1_init/hard_ril/libril/ril_event.cpp:316-329 | an event in the table leaves it; any other leaves everything but the mutex as it is, and that held |
| `EventLoop.Loop.Collect` | android2.1_init/hard_ril/libril/ril_event.cpp:159-201 | what one pass makes pending: the timers due before its clock reading, then the ready events, over the table it met |
| `EventLoop.Loop.FireNext` | android2.1_init/hard_ril/libril/ril_event.cpp:203-214 | the next pending event is taken off its ring and fired; everything else stays |
| `EventLoop.Loop.Pass` | android2.1_init/hard_ril/libril/ril_event.cpp:345-384 | one pass fires exactly the due timers by deadline and then the ready events, and leaves the rest |
| `EventLoop.AccountFires` | android2.1_init/hard_ril/libril/ril_event.cpp:159-213 | in a run's record every timer is found due by the first pass whose clock is past its deadline and by no other, waits until then, and is put onto the pending ring once |
| `EventLoop.AccountRounds` | android2.1_init/hard_ril/libril/ril_event.cpp:183-201 | each pass queues its due timers by deadline and exactly the watched events whose descriptor is ready, each once |
| `EventLoop.ReadyExact` | android2.1_init/hard_ril/libril/ril_event.cpp:183-201 | an event is among those of a pass if and only if its slot is ready |
| `EventRun.FdsAre` | android2.1_init/hard_ril/libril/ril_event.cpp:266-329 | `readFds` is the set of the descriptors of the events in the table |
| `EventRun.Handle` | android2.1_init/hard_ril/libril/ril_event.cpp:240-384 | each timer add, event add, re-add, deletion, pass and firing does to mutex, table, pending ring, fired events and record what is stated for it, and a call that waits for a mutex nobody gives back does nothing |
| `EventRun.Session` | android2.1_init/hard_ril/libril/ril_event.cpp:240-384 | any run of these in any order on the real rings and table: every step is the one its happening calls for; at the end the rings are well formed, the timer ring sorted by deadline and the table, the indexes, `readFds` and `nfds` in agreement; each timer was made once, is no watched event, and has fired or is pending, once, since the first pass past its deadline and no earlier, or still waits for that pass; what has fired and what is pending is together what the passes queued |
| `Services.EveryServiceOk` | android2.1_init/init/init.c:157-417 | in every state of every run, nested commands and property triggers included: at most one of RUNNING, RESTARTING and DISABLED; RUNNING has a pid, RESTARTING has none, and who has one is running or disabled; a ONESHOT service never restarts |
| `Services.EveryPidOk` | android2.1_init/init/init.c:157-417 | the non-zero pid of any service is a child not yet waited for, and the pid of no other service |
| `Services.StepsKeep` | android2.1_init/init/init.c:984-1028 | the invariant survives any sequence of commands, exits and restart rounds |
| `Services.BeginReapKeeps` | android2.1_init/init/init.c:360-390 | the exit of a tracked child keeps the invariant |
| `Services.StartKeeps` | android2.1_init/init/init.c:157-292 | so does a start, with whatever runs when it is announced |
| `Services.RestartFromPlans` | android2.1_init/init/init.c:403-424 | `process_needs_restart` is never later than time_started + 5 of a service that still waits |
| `Services.PollNeverOversleeps` | android2.1_init/init/init.c:985-997 | for every waiting service the poll timeout is between 0 and 5000 ms and ends by the time the restart is due |
| `Services.RunAffects` | android2.1_init/init/init.c:157-313 | commands put no service into RESTARTING, and leave start time and crash record of those that are |
| `Stopped.StopStops` | android2.1_init/init/init.c:294-304 | a stop command leaves its service disabled, neither running nor waiting for a restart, with the pid of its process, whatever the announcement sets off as long as nothing in it starts the service by name |
| `Stopped.StaysDown` | android2.1_init/init/builtins.c:391-399 | from a stop command on the service is disabled, not running and not waiting, over class starts, the exit of its old process and restart rounds, until a command starts it by name |
| `Stopped.DownStays` | android2.1_init/init/init.c:157-417 | so does a service that is down for any other reason, such as the exit of a one-shot process |
| `Commands.StartExactly` | android2.1_init/init/init.c:157-290 | what a start makes of the service, by the answers of the system: a running one only loses its start time; without console, program or the right to arguments it is disabled; it runs afterwards, under the new pid and with the time of this start on record, if and only if it ran already or fork succeeds; nobody else changes |
| `Commands.StartThenCommands` | android2.1_init/init/init.c:288-292 | what a start sets off runs after it, and only when the service has begun to run |
| `Commands.StopExactly` | android2.1_init/init/init.c:294-313 | a stop changes the three flags of its service and nothing else, and then what it sets off runs |
| `Commands.CommandsInTurn` | android2.1_init/init/builtins.c:127-411 | commands all take place, one after the other, each on what those before it have left |
| `Commands.ClassStart` | android2.1_init/init/builtins.c:127-154 | a class start starts its services except those that are disabled |
| `Commands.RestartIsStopAndStart` | android2.1_init/init/builtins.c:402-411 | a restart command is a stop and then a start, without waiting for the process |
| `Commands.ExitExactly` | android2.1_init/init/init.c:360-401 | the exit of a process on record: the service has no pid and does not run; a disabled or one-shot one stays disabled, any other gets the exit onto its record and waits for its restart unless the phone reboots; nobody else changes |
| `Commands.ExitThenCommands` | android2.1_init/init/init.c:360-401 | the onrestart commands run only for a service that then waits, before the announcement, and nothing runs when the phone reboots |
| `Commands.OtherExit` | android2.1_init/init/init.c:335-343 | the exit of a child that no service knows changes no service |
| `Delays.RestartIffDue` | android2.1_init/init/init.c:403-417 | a waiting service goes on waiting if and only if fewer than five seconds have passed since its last start: until then it may only bring the planned time forward, and then it is started, whatever its start sets off |
| `Delays.NoForkBeforeDelay` | android2.1_init/init/init.c:288-411 | once the process of a successful start has exited, whatever else happens before and after, the service does not run again before five seconds have passed since that start, unless a command starts it by name or class |
| `Delays.RoundServesAllDue` | android2.1_init/init/init.c:403-424 | whoever is due when a restart round begins no longer waits at its end, and a round without a waiting service does nothing |
| `Delays.PollExactly` | android2.1_init/init/init.c:985-997 | the poll waits without end when no service waited and only when none waits any more; otherwise it waits exactly for the time that one of the services that waited is due |
| `Delays.StartWhileRunning` | android2.1_init/init/init.c:168-178 | starting a service that runs makes its restart due at once when it exits, however recently it was started |
| `Orphans.RestartForksBeside` | android2.1_init/init/init.c:176-313 | a running service stopped and started before the wait, whatever the two announcements set off as long as nothing starts it by name in between: the old process runs on, and no service knows its pid if and only if the start reaches fork, whether fork then succeeds or fails |
| `Orphans.LeftBehind` | android2.1_init/init/init.c:157-417 | the process such a stop and start leave behind stays a child that no service knows, over any commands, other exits and restart rounds, until it exits by itself, which then touches no service |
| `CrashWindow.TrackMeaning` | android2.1_init/init/init.c:375-390 | the counter is the number of exits from the anchor on, all within 240 seconds of it |
| `CrashWindow.RebootMeaning` | android2.1_init/init/init.c:376-385 | a counter over 4 means that the last five exits lie within 240 seconds |
| `CrashWindow.RebootsExactly` | android2.1_init/init/init.c:376-390 | some exit asks for a reboot if and only if five exits fall into one of the windows cut from the front |
| `CrashWindow.FiveExactly` | android2.1_init/init/init.c:376-390 | the first five exits ask for a reboot if and only if the fifth comes within 240 seconds of the first, to the last second, or within the window anchored at the origin of the clock |
| `CrashWindow.FiveMayBeMissed` | android2.1_init/init/init.c:376-390 | five exits within 20 seconds, five seconds apart, that ask for no reboot |
| `CrashWindow.EightMayBeMissed` | android2.1_init/init/init.c:376-390 | eight exits within 240 seconds, five seconds apart, that ask for none |
| `CrashWindow.NineAlwaysReboot` | android2.1_init/init/init.c:376-390 | nine exits within 240 seconds always ask for a reboot |
| `Crashes.EveryCounterOk` | android2.1_init/init/init.c:323-392 | in every state before a reboot `nr_crashed` is at most 4, and it counts the unrequested exits since the anchor |
| `Crashes.ReapRebootsExactly` | android2.1_init/init/init.c:326-392 | an exit asks for the reboot if and only if its service is critical, not stopped and not one-shot, and five of its exits now fall into one window |
| `Crashes.RebootOnlyAfterFive` | android2.1_init/init/init.c:323-385 | only five exits of one critical service within 240 seconds, the last of them just now, lead to the reboot |
| `InitCode.Service.TryStart` | android2.1_init/init/init.c:157-290 | the record after a start: refusals disable, a failed fork clears the pid, and a successful one sets RUNNING, the pid and `time_started`; it is announced if and only if the service did not run, may start and fork succeeds |
| `InitCode.Service.ProcessExited` | android2.1_init/init/init.c:360-392 | the record after an exit |
| `InitCode.Service.CountCrash` | android2.1_init/init/init.c:374-390 | the crash counter over the two fields |
| `InitCode.Init.ServiceStart` | android2.1_init/init/init.c:157-292 | a start with the commands its announcement triggers |
| `InitCode.Init.ServiceStop` | android2.1_init/init/init.c:294-313 | a stop with the commands its announcement triggers |
| `InitCode.Init.RunCommand` | android2.1_init/init/builtins.c:127-411 | each command does to the records what the lemmas about the commands say: start, stop, restart, and a class start that skips the disabled ones |
| `InitCode.Init.ServiceFindByPid` | android2.1_init/init/parser.c:434-445 | the first service with the pid |
| `InitCode.Init.WaitForOneProcess` | android2.1_init/init/init.c:326-401 | the exit of a child, with its onrestart commands and the announcement; -1 when there is none |
| `InitCode.Init.RestartServiceIfNeeded` | android2.1_init/init/init.c:403-417 | restarts a due service or records when it will be due |
| `InitCode.Init.RestartProcesses` | android2.1_init/init/init.c:419-424 | the round over all services |
| `InitCode.Init.RestartsAndTimeout` | android2.1_init/init/init.c:985-997 | the timeout passed to poll lets no waiting restart be slept through, and is -1 when no service waited |
| `InitCode.Init.MainLoop` | android2.1_init/init/init.c:984-1028 | the loop over any events, restart rounds with their poll timeouts included, shows the state the specification reaches and has passed the timeouts it gives |
| `Lexer.ConfigRoundTrip` | android2.1_init/init/parser.c:358-394 | any lines of double-quoted words come back as the same argument lists, of a line at most the first 64, with or without the line end that `read_file` adds |
| `Lexer.LineAmongOthers` | android2.1_init/init/parser.c:374-386 | which calls one line among any others leads to: a line that begins with "service" or "on" ends the section before it and opens one with its first 64 words, any other line with words goes to the open section, an empty one nowhere; the lines before and behind it lead to the calls they lead to alone, and the end of the text ends the last section |
| `Lexer.PlainWord` | android2.1_init/init/parser.c:226-320 | a word without quotes and backslashes is read whole, up to the blank or line end behind it, however many blanks stand before it |
| `Lexer.CommentDropped` | android2.1_init/init/parser.c:235-239 | a comment ends its line and leaves no trace, whatever it holds |
| `Lexer.LineWhole` | android2.1_init/init/parser.c:374-392 | one such line is dispatched with its arguments, and the parser goes on behind it |
| `Lexer.WordWhole` | android2.1_init/init/parser.c:265-279 | a quoted word is read whole, whatever it contains besides quotes |
| `Lexer.UnfinishedLineLost` | android2.1_init/init/parser.c:372-374 | arguments of a last line without a line end are dropped |
| `Escapes.ReadAsMeant` | android2.1_init/init/parser.c:281-314 | for every word whose quotes are closed: it is read with the intended escapes if and only if it escapes no n, r or t and no CR LF, and behind each pair of backslashes the text ends or stands a character other than n, r, t, a backslash, a quote, a blank or a line end |
| `Escapes.TokenAsMeant` | android2.1_init/init/parser.c:209-314 | the same for the next token of any text, when that is a word |
| `Lexer.EscapeKeepsLetter` | android2.1_init/init/parser.c:286-294 | the letter of every escape for n, r or t is read again and stays in the word |
| `Lexer.BackslashStartsAgain` | android2.1_init/init/parser.c:295-297 | the second of two backslashes is read again and starts an escape of its own |
| `Lexer.EscapedReturnEndsWord` | android2.1_init/init/parser.c:298-310 | an escaped CR LF ends the word and the line instead of continuing it |
| `Lexer.LineContinued` | android2.1_init/init/parser.c:304-310 | a backslash before a line end continues the word on the next line, without its indentation |
| `ParserCode.ParseState.Put` | android2.1_init/init/parser.c:276-317 | a write behind the read pointer changes neither unread text nor anything before the word |
| `ParserCode.ParseState.CopyQuoted` | android2.1_init/init/parser.c:265-279 | the write index stays behind the read index through a quoted part |
| `ParserCode.ParseState.EscapeAt` | android2.1_init/init/parser.c:281-314 | the same for escapes and line continuations |
| `ParserCode.ParseState.ReadWord` | android2.1_init/init/parser.c:245-320 | the word is written in place and terminated; nothing in front of it and nothing behind the read pointer changes |
| `ParserCode.ParseState.NextToken` | android2.1_init/init/parser.c:209-321 | for every text the token is the one of the text-level lexer; it always terminates, and neither unread text nor earlier tokens change |
| `ParserCode.ParseState.Fetch` | android2.1_init/init/parser.c:370-391 | the words fetched before stay readable in the buffer |
| `ParserCode.ParseState.ParseConfig` | android2.1_init/init/parser.c:358-394 | the calls made to the line handlers are those of the text-level parser, of which LineAmongOthers says which line opens a section |
| `PropertyTable.RunExtends` | android2.1_init/init/property_service.c:271-330 | over any run with nested calls no name is dropped, "ro." values never change once written, and at most 247 names exist |
| `PropertyTable.RunLatest` | android2.1_init/init/property_service.c:234-247 | property_get returns the last accepted value of the name |
| `PropertyTable.CallLatest` | android2.1_init/init/property_service.c:271-330 | the same for one call with everything it triggers |
| `PropertyTable.SetExactly` | android2.1_init/init/property_service.c:271-330 | a set with a name of 1 to 31 and a value of at most 91 characters is refused only for a "ro." name that exists and a new name in a table of 247; it is followed by the note of a changed "net." property if there is room, and by the calls it triggers, of which "net.change" triggers none |
| `PropertyTable.CallsInTurn` | android2.1_init/init/property_service.c:309-328 | triggered calls all take place, one after the other |
| `PropertyTable.NetChangeTracks` | android2.1_init/init/property_service.c:309-319 | "net.change" names the "net." property just set if and only if it already exists or the table has room |
| `PropertyArea.SerialSettles` | android2.1_init/init/property_service.c:167-173 | an update leaves an even serial with the length in its top byte, advanced by two in 24 bits with wrap, and an odd one meanwhile |
| `PropertyArea.FreshSerialSettled` | android2.1_init/init/property_service.c:297-303 | a new entry starts with a settled serial |
| `PropertyArea.TableSize` | android2.1_init/init/property_service.c:293-308 | with unique names the map has as many keys as the area has entries |
| `PropertyArea.PropArea.Find` | android2.1_init/init/property_service.c:283-283 | the entry with the name, none if the map lacks it |
| `PropertyArea.PropArea.PropertyGet` | android2.1_init/init/property_service.c:234-247 | the value in the map |
| `PropertyArea.PropArea.UpdatePropInfo` | android2.1_init/init/property_service.c:167-173 | overwrites one entry and its serial |
| `PropertyArea.PropArea.AddEntry` | android2.1_init/init/property_service.c:293-308 | appends an entry; toc word k holds the name length and offset 1024 + 128 k |
| `PropertyArea.PropArea.PropertySet` | android2.1_init/init/property_service.c:271-330 | the whole call refines the map operation, and fails exactly when the name, the value, "ro." or a full table forbids it |
| `MarchTest.MarchDetects` | 43reliability/source/usbfifo.c:46-102 | for every size, pattern and mask one run sets the flag if and only if it was set or the memory has a stuck-at, transition or coupling fault whose bit the mask covers; sound memory ends up holding the pattern |
| `MarchTest.ElementFrom` | 43reliability/source/usbfifo.c:84-102 | what one march element reads and leaves at every address order |
| `MarchTest.SomeReadExposes` | 43reliability/source/usbfifo.c:64-79 | the four elements and the last sweep together expose every fault |
| `MarchTest.SweepResult` | 43reliability/source/usbfifo.c:69-80 | the final comparison |
| `MarchTest.MarchTester.MarchSub1` | 43reliability/source/usbfifo.c:84-102 | the pointer loop in either direction is one march element |
| `MarchTest.MarchTester.MarchCMinus32` | 43reliability/source/usbfifo.c:46-81 | flag set if and only if it was set or the memory is faulty; sound memory ends equal to the pattern |
| `MarchTest.MarchTester.TestUsbFifo` | 43reliability/source/usbfifo.c:16-44 | returns 1 if and only if the FIFO memory is sound |
| `MarchTest.MarchTester.MarchSub1M` | 43reliability/source/palette.c:86-107 | the masked march element |
| `MarchTest.MarchTester.MarchCMinusM` | 43reliability/source/palette.c:43-83 | only faults under the mask set the flag, and all of them do |
| `MarchTest.MarchTester.TestPaletteMemory` | 43reliability/source/palette.c:20-41 | the flag is set if and only if one of the low 16 bits is faulty |
| `NandProgram.Program` | 43reliability/source/k9s1208.c:49-137 | for every pattern of bad blocks, erase failures and page failures: it finishes if and only if there are blocks from the target upward, unmarked and well erased, of which 32 times their number is at least the number of pages and which take every page that falls to them, whatever the blocks between them do; reading upward and skipping marked blocks then gives the source pages in order; lower blocks are untouched and no mark is lost |
| `NandProgram.RoomMeaning` | 43reliability/source/k9s1208.c:91-137 | the search, which takes each block it can, finds room if and only if some choice of blocks has it |
| `NandProgram.TryBlock` | 43reliability/source/k9s1208.c:91-137 | a block takes the next pages, or ends marked and the source pointer goes back |
| `NandProgram.NextBlock` | 43reliability/source/k9s1208.c:91-137 | one round: the next pages lie in the blocks so far, and the source is at its end or the room left is that of the blocks above |
| `NandProgram.ProgramBlock` | 43reliability/source/k9s1208.c:109-126 | the inner loop stops at the first failing page |
| `NandProgram.EndOfSource` | 43reliability/source/k9s1208.c:109-136 | the number of pages is the least that holds the source, and at least one |
| `NandProgram.ReadUpContent` | 43reliability/source/k9s1208.c:91-137 | the reader finds the content of the lower blocks first |
| `NandFlash.Flash.EraseBlock` | 43reliability/source/k9s1208.c:297-334 | erases a good block, or marks it |
| `NandFlash.Flash.WritePage` | 43reliability/source/k9s1208.c:473-530 | writes one page, or marks the block |
| `NandFlash.Flash.MarkBadBlock` | 43reliability/source/k9s1208.c:373-419 | the mark takes effect and nothing else changes |
| `Download.DoneWithLastByte` | 43reliability/source/Uart0.c:437-452 | the interrupt receiver is done exactly when the last byte of the frame has arrived |
| `Download.InterruptVerdict` | 43reliability/source/Uart0.c:526-529 | it accepts if and only if the 16-bit sum of the payload is the one in the frame |
| `Download.NeverDone` | 43reliability/source/Uart0.c:437-452 | with a declared size of at most 4 it never finishes |
| `Download.ReceiveByInterrupt` | 43reliability/source/Uart0.c:437-529 | completion and verdict do not depend on how the bytes are batched into interrupts |
| `Download.DownloadData` | 43reliability/source/flash.c:93-149 | the polled receiver gives the same verdict on every frame |
| `Download.BuiltFramesAreGood` | 43reliability/source/flash.c:93-149 | every frame built as size, payload and 16-bit sum is accepted by both |
| `Download.Receiver.TakeByte` | 43reliability/source/Uart0.c:441-450 | one turn of the handler over its counters |
| `RilRequests.Ril.ProcessCommandBuffer` | android2.1_init/hard_ril/libril/ril.cpp:321-366 | short records and unknown codes are ignored; otherwise a new request with the record's token is put in front of the list, and it is issued if and only if the dispatch function accepts the record |
| `RilRequests.Ril.IssueLocalRequest` | android2.1_init/hard_ril/libril/ril.cpp:294-316 | the same for a local request |
| `RilRequests.Ril.CheckAndDequeue` | android2.1_init/hard_ril/libril/ril.cpp:2564-2588 | takes out exactly the request, if it is in the list, and keeps the order of the rest |
| `RilRequests.Ril.OnRequestComplete` | android2.1_init/hard_ril/libril/ril.cpp:2592-2646 | an unknown token changes nothing; otherwise the request leaves the list and gets one response with its own token, unless it is local or cancelled; the response carries the error of marshalling it if there is one |
| `RilRequests.Ril.CommandsSocketClosed` | android2.1_init/hard_ril/libril/ril.cpp:2061-2127 | every pending request is marked cancelled |
| `RilRequests.Spliced` | android2.1_init/hard_ril/libril/ril.cpp:2574-2583 | unlinking one node leaves a well-formed list of the others |
| `RilSession.Session` | android2.1_init/hard_ril/libril/ril.cpp:321-2646 | any run of connections, records, local requests, completions and closes: the responses are exactly those that the events call for, in order, namely one for each first completion of a request of the phone process that came in on the connection still open, with its own token, when it is written; the vendor's code was called once for each accepted record and local request, in order; the list holds what was issued and not completed, and for ever the requests whose record the dispatch function refused |
| `RilSession.CompleteExactly` | android2.1_init/hard_ril/libril/ril.cpp:2592-2646 | what the events call for on a completion: one answer if and only if the request is open, not local, of the present connection, and the response is written, with its token and the error of marshalling if there is one |
| `RilSession.RecordExactly` | android2.1_init/hard_ril/libril/ril.cpp:321-366 | on a record: a request with its code and token if it is long enough and has a known code, issued if and only if the rest is well formed |
| `RilSession.AcceptsExactly` | android2.1_init/hard_ril/libril/ril.cpp:410-512 | which records are well formed: dispatchStrings needs a count, dispatchInts a positive count and the integers it counts, a CDMA message must be whole |
| `RilSession.LocalExactly` | android2.1_init/hard_ril/libril/ril.cpp:294-316 | a local request is issued whether or not there is a connection |
| `RilSession.ConnectExactly` | android2.1_init/hard_ril/libril/ril.cpp:2061-2174 | a connection counts only when there is none, and its end ends it |
| `WakeLock.Ril.OnUnsolicitedResponse` | android2.1_init/hard_ril/libril/ril.cpp:2676-2795 | a wake-type response cancels the callback on record and queues a new one; one that cannot be marshalled gives the lock up at once |
| `WakeLock.Ril.UserTimerCallback` | android2.1_init/hard_ril/libril/ril.cpp:2376-2390 | only the callback on record releases the lock, and it leaves the record |
| `WakeLock.Ril.RequestTimedCallback` | android2.1_init/hard_ril/libril/ril.cpp:2800-2826 | queues a new callback at the given delay |
| `WakeLock.Session` | android2.1_init/hard_ril/libril/ril.cpp:2676-2795 | after any run: while the lock is held, exactly one queued callback will release it, the one on record, due one second after the latest response that took the lock; until then it is held if and only if the latest wake-type response was marshalled; once the expired callbacks have fired, it is held if and only if moreover that second has not passed |
| `WakeLock.LatestWake` | android2.1_init/hard_ril/libril/ril.cpp:2676-2795 | the latest wake-type response of a run decides alone, by whether it was marshalled; only one that was moves the time of release |
| `CdmaSms.SmsRoundTrip` | android2.1_init/hard_ril/libril/ril.cpp:791-857 | dispatch undoes response for every message: all scalars and the first min(count, limit) bytes of each array survive, for counts over the limit and negative lengths too |
| `CdmaSms.Layout` | android2.1_init/hard_ril/libril/ril.cpp:2006-2031 | the words of a message one by one, with the counts cut to 36, 36 and 255 and a negative one to none |
| `CdmaSms.TruncatedRefused` | android2.1_init/hard_ril/libril/ril.cpp:846-857 | a message cut short anywhere is refused although only the last read is checked |
| `CdmaSms.ResendSame` | android2.1_init/hard_ril/libril/ril.cpp:2006-2032 | a message that was received is sent on as the same words |
| `CdmaSmsCode.ResponseCdmaSms` | android2.1_init/hard_ril/libril/ril.cpp:1986-2032 | appends the encoding to the parcel, or fails on a missing or wrongly sized message |
| `CdmaSmsCode.DispatchCdmaSms` | android2.1_init/hard_ril/libril/ril.cpp:791-857 | the message handed to onRequest, or none, is the decoding of what the parcel holds |
| `CdmaSmsCode.Parcel.ReadBytes` | android2.1_init/hard_ril/libril/ril.cpp:825-829 | the copying loop fails as soon as one read does, and fills only what its count covers |

## Left out

- NandProgram.Program: the source does not look for the end of the device; the model returns false
  there instead of going on. The device commands themselves are operations with a stated outcome.
- Lexer.ConfigRoundTrip: words contain neither quotes nor NUL. What the line handlers do with the
  arguments is not modelled, only that they are called with them; line numbers are not kept.
- AtStream.ReaderLoop: runs without interruption; interleavings are covered by the event model, in
  which the steps under the mutex are atomic.
- EventRun.Session: the descriptors select reports are given, and all of them are counted; a select
  that fails changes nothing. Every timer is a new event, and an event is added only while its
  descriptor is not watched. A callback may add and delete, but not touch the pending ring.
- EventLoop.Lists.FirePending: the callbacks have no effect in this method; EventRun.Session lets
  anything happen between the firing of two events.
- Services.EveryServiceOk: sockets, environment, uids, the killing of process groups and the text of
  the announcements have no effect in the model; a reboot does not come back.
- PropertyTable.RunExtends: permission checks and persistent properties on disk are left out, and
  the commands a property triggers appear as the nested calls they make.
- PropertyArea.PropArea.Find: `__system_property_find` and the limits for names and values come from
  a C library header that is not part of this model; the lookup is a search for the name, the limits
  are 32 and 92.
- RilSession.Session: a connection closed through the debug port is not modelled. Whether a record is
  accepted follows the command table for dispatchVoid, dispatchString, dispatchStrings, dispatchInts
  with a positive count, and dispatchCdmaSms; for the other dispatch functions it is part of the event.
- AtStream.PromptToDestinations: one prompt at a time, starting from any state of the reader.
- CdmaSms.SmsRoundTrip: the parcel class is not part of this model; it is a sequence of 32-bit words
  in which a single byte takes a word.
- AtTok.Line.NextStr: the conversions of at_tok_nextint, at_tok_nexthexint and at_tok_nextbool, which go on
  from the field, and at_tok_hasmore are not modelled.
- Download.DownloadData: only frames whose declared size is at least 5 are read; waiting for the
  UART and the progress marks are left out.
- Action queue: `action_add_queue_tail` does not check whether the action is queued already; the
  queue is not modelled.
- The int return values that at_send_command passes on, the ack ioctl and the logging.
- K9S1208_Erase, which skips a block after each bad one, and TestECC, which rests on a hardware layout.
- Register set-up, clocks, GPIO, power, DMA, LCD, menus, start-up code; sdi.c and test.c.
- The other marshalling functions of ril.cpp, the vendor request handlers of reference-ril.c, and
  races inside functions that take no lock.
- Device nodes, mounting, firmware loading, boot charts and the logo.
