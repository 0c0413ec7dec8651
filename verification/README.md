# AdbClient: verified model

AdbClient is a client for the Android Debug Bridge built on the event-loop headers of libhv.
This project models two layers of it in Dafny and proves what they do:

* the event loop and the machinery on top of it: the custom-event queue, the timer table and
  timer ids, loop threads and the loop pool, load balancing, the TCP server's connection
  accounting, the client's connection state, and the hand-off between a command and the
  thread that waits for it;
* the text protocol: length-prefixed requests, the reader of replies, and the parsers and
  callbacks that turn replies into device lists, versions, shell output and images.

## How it is built

Objects that the source updates in place are classes whose methods are proved against a
specification function (`EventLoop`, `Server`, `EventLoopThreadPool`, `Client`, `Channel`,
`HostCommand`, `LocalCommand`, ...); loops of the source are loops here. Where threads interleave,
a module has a state, a set of actions, each one atomic step of the source, and a function
`Next`; `Runs.Exec` takes a list of actions, and the theorems speak about every list. Fields
marked "history" only record what happened. The C library underneath is the environment: it may
deliver posted events, expiries, connects and closes in any order, each post once and each close
once, and `hloop_run` returns only after `hloop_stop`.

Where the source would index past a vector or a chunk, overflow in `atoi`, or throw, the model's
result is `None`. A chunk is its bytes, and the byte just past its end is NUL.

| file | models |
|---|---|
| `Runs.dfy` | runs of a state machine, and induction over them |
| `Options.dfy`, `Sizes.dfy`, `Words.dfy` | an option type, sizes of sets and maps, 32-bit counters |
| `Text.dfy`, `DeviceList.dfy` | `src/utils.cpp` |
| `Protocol.dfy` | `src/adb_protocol.cpp` |
| `HostCommand.dfy`, `Version.dfy` | callbacks of `src/host_command.cpp` |
| `LocalCommand.dfy` | callbacks of `src/local_command.cpp` |
| `EventQueue.dfy`, `TimerTable.dfy`, `TimerIds.dfy`, `EventLoop.dfy` | `EventLoop.h`, `TimerThread.h` |
| `Status.dfy`, `LoopThread.dfy`, `LoopPool.dfy`, `LoadBalance.dfy` | `Status.h`, `EventLoopThread.h`, `EventLoopThreadPool.h` |
| `TcpServer.dfy`, `TcpClient.dfy` | `TcpServer.h`, `TcpClient.h`, `Channel.h` |
| `CommandWait.dfy` | `src/adb_command.cpp` |

## What the code does that one might not expect

Each of these is proved, with the exact condition where there is one.

* A connection rejected at the limit stays counted on its loop for ever, so least-connections
  balancing sees a loop with rejections as busier than it is (`RejectionsAreNeverRepaid`).
* With N loops the server can register up to `max_connections` + N - 1 channels, and some run
  does (`LimitHolds`, `LimitIsReached`, `WhenLimitIsExact`).
* A failure reply is reported as one only if it arrives in a single chunk; cut after its status
  word it ends as a success whose result is the message (`FailureReported`,
  `SplitFailureReadsAsSuccess`). A successful reply survives exactly the cuts named in `CutInTwo`.
* The service command of a transport command is written once for every bare `OKAY`
  (`TransportConversation`). Shell output is kept whole only as a single chunk, and is dropped
  even then when it starts with OKAY or is a bare FAIL, and cut at a NUL (`ShellOutputKept`,
  `PrintedOkayIsLost`). An image loses every chunk of four bytes (`ImageKept`). `screencap`
  ignores a bare `FAIL` (`ScreencapIgnoresFail`), because its comparison is inverted.
* The state "no permissions" of the repository's own table comes back as "no" (`StateIsCut`).
* The second `startConnect` of a command, taking effect late, opens another connection; a
  following command may then return although its request was never written. That can happen
  exactly when `isConnected()` holds, for another command, at the moment it begins
  (`SurplusIffLate`, `RequestLostIffConnected`, `LateCallLosesRequest`).
* A `stop` that finds the loop not yet running frees it; then, and only then, the loop thread's
  assertion that the loop has stopped fails (`CheckFailsIffFreed`), and the thread's status can
  move backwards (`WithoutWaiting`). A `start` that waits rules it out.
* `start` reads the status twice. When the thread ends between the two reads of a repeated
  call, that call creates a second thread, or ends the program by replacing one that has not
  been joined (`LoopThread.EveryRun`, `LateReadHappens`). Two calls that both read the status
  before either sets it can do the same (`OverlappingStarts`), and a call that finds the status
  set by another does not wait (`FirstStartCanReturnUnwaited`).
* A loop that is gone takes the caller's thread for its timer ids, which can then be those of
  the loop on that thread (`GoneLoopClashes`); ids differ as long as no two loops meet in thread
  and count (`IdsAreUnique`).
* Least-connections balancing is fair until the 32-bit counters are full; from then on one loop
  gets every connection (`LeastConnectionsIsFair`, `LeastConnectionsWraps`).

## Model

| member | source | states |
|---|---|---|
| Text.StringSplit | src/utils.cpp:7-17 | the getline loop yields exactly the pieces between delimiters, empty ones included |
| Text.SplitExactly | src/utils.cpp:7-17 | splitting and joining are mutual inverses: the split is the one non-empty list of delimiter-free pieces whose join is the string |
| Text.PieceCount | src/utils.cpp:7-17 | there is one more piece than there are delimiters |
| Text.GetLinesFromBuf | src/utils.cpp:64-72 | appends every newline-terminated line and drops what follows the last newline |
| Text.LinesOfTwoBuffers | src/utils.cpp:64-72 | reading two buffers separately equals reading their concatenation exactly when the first is empty or ends at a newline, or the second has no newline |
| Text.LinesOfPrinted | src/utils.cpp:64-72 | a newline-terminated list of lines is read back line by line |
| Text.LinesDropTail | src/utils.cpp:64-72 | text after the last newline is dropped |
| Text.UniqueSpacesInPlace | src/utils.cpp:19-23 | in-place compaction leaves the recursive reference result in the front of the array |
| Text.UniqueSpaces | src/utils.cpp:19-23 | after the erase the string is the collapsed string |
| Text.CollapseExactly | src/utils.cpp:19-23 | the result is the only string with no adjacent spaces, the same words in order, and a space at either end where the input has one |
| Text.CollapseIdempotent | src/utils.cpp:19-23 | collapsing twice is collapsing once |
| Text.CollapseEachIsCollapseOnce | src/host_command.cpp:120-125 | collapsing after every appended piece equals collapsing once at the end, for any number of pieces |
| DeviceList.ReplaceTab | src/utils.cpp:35-37 | only the first tab becomes a space |
| DeviceList.ParseDevice | src/utils.cpp:33-60 | one line gives the device the field rules describe, or no defined result |
| DeviceList.GetDeviceInfoFromBuf | src/utils.cpp:25-62 | appends the devices of all lines in order, or has no defined result when one line is malformed |
| DeviceList.AtoiExactly | src/utils.cpp:52 | white space, a sign, a printed number and any tail are read as the number, exactly when it fits an int |
| DeviceList.DeviceRoundTrip | src/utils.cpp:33-60 | a printed device, short or long form with any padding, is parsed back if and only if its fields meet the stated condition on spaces, colons, the state and the id |
| DeviceList.DeviceListRoundTrip | src/utils.cpp:25-62 | printing any list of devices, collapsing and parsing gives exactly that list if and only if every device is recoverable |
| DeviceList.ShortListRoundTrip | src/utils.cpp:25-62 | the same for the short form parsed as it comes, without collapsing |
| DeviceList.StateIsCut | src/device_info.cpp:17-18 | a state with a space in it, such as "no permissions", comes back cut at the space |
| DeviceList.ParsedFields | src/utils.cpp:44-60 | which lists of fields can be parsed: two or three, or six and more with colons and a number where they are looked for |
| DeviceList.ColonValueExactly | src/utils.cpp:48-52 | the value of a field is what is between its first two colons |
| DeviceList.PathIsTakenForProduct | src/utils.cpp:44-52 | a long line with a USB path has every later value one field too early, and what follows the sixth field is not looked at |
| DeviceList.ParseLinesExactly | src/utils.cpp:33-60 | a list is parsed exactly when each of its lines is, and line by line |
| DeviceList.AtoiOfText | src/utils.cpp:52 | text without a number counts as 0 |
| HostCommands.HostCommand.OnDevicesMessage | src/host_command.cpp:120-128 | the devices callback reads the chunk and, unless it failed, collapses the whole list |
| HostCommands.CollapsePerChunk | src/host_command.cpp:120-125 | over any chunks, good or bad, the callback ends with what reading everything and collapsing once gives |
| HostCommands.DevicesFailure | src/host_command.cpp:120-125 | a failure leaves the list as it is and adds its message to the error; a success collapses all of the list |
| HostCommands.DevicesEndToEnd | src/host_command.cpp:112-142 | a device list reply in chunks that keep the payload parses to exactly the devices printed, if and only if each is recoverable |
| HostCommands.PlainDevicesEndToEnd | src/host_command.cpp:82-108 | the same for the plain device list, whose callback does not collapse |
| Versions.VersionCommand.OnVersionMessage | src/host_command.cpp:58-67 | the version callback reads each chunk as a number of its own and keeps the last |
| Versions.VersionUncut | src/host_command.cpp:58-67 | an uncut version reply gives its version |
| Versions.VersionFailure | src/host_command.cpp:58-67 | a failure keeps the version already held, adds its message to the error and gives -1 |
| Versions.StoiExactly | src/host_command.cpp:61-63 | white space, sign, 0x, hex digits of either case and any tail are read as the number, exactly when it fits an int |
| Versions.VersionCut | src/host_command.cpp:58-67 | a version reply cut in two gives the version exactly when cut after the status word, or so late that the digits before the cut are zero |
| Protocol.FramesRoundTrip | src/adb_protocol.cpp:55 | an independent length-prefixed reader recovers the framed commands if and only if each is at most 65535 bytes |
| Protocol.HexWidth | src/adb_protocol.cpp:55 | the length field has four digits exactly for lengths below 65536 |
| Protocol.ReadProtocolString | src/adb_protocol.cpp:11-48 | one chunk adds to the result or the error and sets the status as its first bytes and size say |
| Protocol.SegmentationAfterHeader | src/adb_protocol.cpp:11-48 | for any number of chunks, a successful reply is read exactly if and only if every chunk after the header's is shorter than four bytes |
| Protocol.CutInTwo | src/adb_protocol.cpp:11-48 | a successful reply cut in two at any place is read exactly if and only if the cut is at 4, or at 8 or later with fewer than four bytes left |
| Protocol.FailureReported | src/adb_protocol.cpp:21-25 | a failure gives its message as error, and nothing as result, with status -1, if and only if it arrives in one chunk |
| Protocol.SplitFailureReadsAsSuccess | src/adb_protocol.cpp:33-41 | a failure cut after its status word ends with status 0 and its message as the result |
| Protocol.LastChunkDecides | src/adb_protocol.cpp:11-48 | the final status is -1 exactly when the last chunk starts with FAIL |
| Protocol.WhatChunksLeave | src/adb_protocol.cpp:11-48 | over any chunks of anything: when the reading is undefined, and otherwise exactly what is added to the result and to the error |
| Protocol.PayloadInChunks | src/adb_protocol.cpp:26-41 | payload in later chunks loses exactly the first four bytes of every chunk that has as many |
| Protocol.CutInPayload | src/adb_protocol.cpp:26-31 | a reply cut in its payload keeps all but the first four bytes after the cut |
| Protocol.CStringExactly | src/adb_protocol.cpp:24 | a C string is the text up to its first NUL |
| LocalCommands.LocalCommand.OnConnection | src/local_command.cpp:27-36 | a connected channel gets the framed request, a disconnected one wakes the waiter |
| LocalCommands.LocalCommand.RespondTransportCommand | src/adb_protocol.cpp:50-67 | a bare OKAY writes the framed service command, a bare FAIL gives -1, all else 0 |
| LocalCommands.LocalCommand.OnShellMessage | src/local_command.cpp:60-68 | any chunk that is neither a failure nor starts with OKAY replaces the shell data |
| LocalCommands.LocalCommand.OnScreencapMessage | src/local_command.cpp:123-142 | chunks of four bytes are status words, all others are appended to the image |
| LocalCommands.TransportConversation | src/local_command.cpp:51-82 | over any run a length-prefixed reader finds the transport request and then one service command for each bare OKAY, if and only if all fit four digits |
| LocalCommands.ShellData | src/local_command.cpp:60-68 | over any run the last chunk that is neither a bare FAIL nor starts with OKAY, up to its first NUL, is all that is stored |
| LocalCommands.ShellOutputKept | src/local_command.cpp:60-68 | for any non-empty chunks after the handshake: what is stored is the whole output if and only if that is one chunk without NUL that is not a bare FAIL and does not start with OKAY (or nothing was taken and the old data is the same) |
| LocalCommands.PrintedOkayIsLost | src/local_command.cpp:63-65 | a command that prints OKAY and a line break loses its output, with status 0 |
| LocalCommands.ShellStatusIsLast | src/local_command.cpp:60-68 | the status is -1 exactly when the last chunk is a bare FAIL |
| LocalCommands.ImageKept | src/local_command.cpp:123-142 | the image is gathered byte for byte if and only if no chunk of it is four bytes long |
| LocalCommands.ImageExactly | src/local_command.cpp:123-142 | over any run the image is the chunks that are not four bytes long, whole and in order |
| LocalCommands.ScreencapSession | src/local_command.cpp:115-150 | after the two OKAYs of the handshake: what is written, what the image is and when it is all that was sent, and the status |
| LocalCommands.ScreencapIgnoresFail | src/local_command.cpp:130-131 | a bare FAIL anywhere changes nothing |
| LocalCommands.ScreencapStatus | src/local_command.cpp:125-135 | the status is set by the last four-byte chunk other than FAIL: 0 for OKAY, -1 for anything else |
| EventLoops.EventLoop.PushEvent | include/libhv_evpp/EventLoop.h:176-187 | in whatever state of the queue's machine the queue agrees, a push step leaves this queue; a loop that is gone gets nothing |
| EventLoops.EventLoop.TakeEvent | include/libhv_evpp/EventLoop.h:219-222 | in whatever state of the queue's machine the queue agrees, any delivery runs this callback and leaves this queue |
| EventLoops.EventLoop.OnCustomEvent | include/libhv_evpp/EventLoop.h:216-225 | a timer call queued by another thread takes its effect on the timer table when its turn comes |
| EventLoops.EventLoop.RunInLoop | include/libhv_evpp/EventLoop.h:162-168 | a timer call takes effect at once on the running loop's own thread, is queued otherwise, and is dropped when the loop is gone |
| EventLoops.EventLoop.GenerateTimerID | include/libhv_evpp/EventLoop.h:191-193 | follows the machine of TimerIds from any state with its count; packs the loop's thread, or the caller's when the loop is gone; the id differs from those of all earlier counts |
| EventLoops.EventLoop.SetTimer | include/libhv_evpp/EventLoop.h:90-103 | enters a new timer under the given or a generated id; returns the invalid id and does nothing when the loop is gone |
| EventLoops.EventLoop.SetTimerInLoop | include/libhv_evpp/EventLoop.h:106-112 | the id is fixed at the call; the timer is set at once or by the queue |
| EventLoops.EventLoop.KillTimer | include/libhv_evpp/EventLoop.h:125-133 | removes just that entry, at once or by the queue |
| EventLoops.EventLoop.ResetTimer | include/libhv_evpp/EventLoop.h:136-146 | revives a spent entry with one more firing and changes no other count, at once or by the queue |
| EventLoops.EventLoop.OnTimer | include/libhv_evpp/EventLoop.h:195-214 | counts down, runs a callback that may set (under given or generated ids), kill and reset timers, its own too, and drops the entry if it is spent; does nothing at all for a timer that is not in the table |
| EventLoops.TimerThread.SetTimer | include/libhv_evpp/TimerThread.h:23-27 | numbers the timer as the machine of TimerIds does, above all its earlier ones, and has its loop enter it, at once or by the queue |
| EventQueue.EveryRun | include/libhv_evpp/EventLoop.h:176-225 | in every interleaving the front of an empty queue is never taken, callbacks run in push order and once, as many as posts delivered, and the queue holds one per undelivered post and per thread between push and post |
| EventQueue.QuietMeansAllRan | include/libhv_evpp/EventLoop.h:176-225 | nothing is in flight exactly when every pushed callback has run |
| TimerTable.StepTable | include/libhv_evpp/EventLoop.h:195-214 | the machine's table moves as the methods of the event loop do |
| TimerTable.ExpiryOfOthers | include/libhv_evpp/EventLoop.h:195-214 | to every other timer an expiry does exactly what its callback's calls do |
| TimerTable.ExpiryOfOwn | include/libhv_evpp/EventLoop.h:195-214 | to its own timer: one firing less, dropped after the last unless the callback has reset it, dropped when the callback kills it, endless timers kept |
| TimerTable.StaleExpiry | include/libhv_evpp/EventLoop.h:200-213 | an expiry of a timer that is not in the table changes nothing, in any run |
| TimerTable.EveryRun | include/libhv_evpp/EventLoop.h:90-146 | firings and remaining repeats equal initial repeats and revivals for every finite timer not killed, no entry rests at 0, endless timers stay until killed |
| TimerTable.FiresAsSet | include/libhv_evpp/EventLoop.h:195-214 | a timer left to itself fires at each expiry as often as it was set for and is then gone; an endless one fires for ever |
| TimerTable.KilledNeverFires | include/libhv_evpp/EventLoop.h:125-134 | a timer that has been killed, in a callback or out of one, at any point of any run, is out of the table and never fires again, and its callback does nothing more |
| TimerTable.KilledInCallback | include/libhv_evpp/EventLoop.h:195-214 | from the moment a callback kills a timer, its own or another, that timer does not fire in the rest of the callback or of the run |
| TimerTable.KilledByStep | include/libhv_evpp/EventLoop.h:125-134 | the same for a kill executed on its own |
| TimerIds.PackInjective | include/libhv_evpp/EventLoop.h:191-193 | below 2^32 counts, ids are equal only for equal thread word and count |
| TimerIds.PackInvalid | include/libhv_evpp/EventLoop.h:191-193 | the one thread word and count that give the invalid id |
| TimerIds.PackVersusOwn | include/libhv_evpp/TimerThread.h:23-27 | a loop's id is one of a TimerThread's own only when the thread word is 0 |
| TimerIds.PackCollides | include/libhv_evpp/EventLoop.h:191-193 | for any thread words and counters, the exact condition for two packed ids to be equal |
| TimerIds.IdsOfRun | include/libhv_evpp/EventLoop.h:191-193 | in every run, with any thread word at each call and counts below 2^32: ids of one loop differ, ids of different loops are equal exactly when thread word and count agree, and the invalid id is the one with all ones |
| TimerIds.IdsAreUnique | include/libhv_evpp/EventLoop.h:191-193 | all ids of such a run differ exactly when no two issuers meet in thread word and count |
| TimerIds.GoneLoopClashes | include/libhv_evpp/EventLoop.h:148-151 | some run issues an id twice: a loop that is gone, called from another loop's thread, packs that thread |
| LoopThread.EveryRun | include/libhv_evpp/EventLoopThread.h:43-104 | with one stop after a returned waiting start, and other starts that read the status once the first has set it: the stopped assertion holds, post runs only after the loop stopped, pre is queued once and runs at most once; a repeated start makes another thread exactly when its second status read comes after the thread's end, and unless the join has returned that ends the program |
| Statuses.GuardsExactly | include/libhv_evpp/EventLoopThread.h:46-61 | the guards of start and stop, status by status |
| LoopThread.PreIsQueued | include/libhv_evpp/EventLoopThread.h:87-93 | waiting or not, past its queueing pre is queued or has run, once, unless stop had freed the loop before |
| LoopThread.PreCanRun | include/libhv_evpp/EventLoopThread.h:87-93 | while the loop is being run the queued functor can be delivered, and then it has run |
| LoopThread.StatusesAt | include/libhv_evpp/EventLoopThread.h:43-104 | the status of thread and loop at every moment of a run that waited |
| LoopThread.OverlappingStarts | include/libhv_evpp/EventLoopThread.h:46-49 | two starts that both read the status before either sets it can end the program |
| LoopThread.FirstStartCanReturnUnwaited | include/libhv_evpp/EventLoopThread.h:46-56 | a start that finds the status set by another returns at once, with no thread yet, though it was to wait |
| LoopThread.RepeatedStart | include/libhv_evpp/EventLoopThread.h:46 | a repeated start whose second read comes before the thread's end returns and changes nothing |
| LoopThread.CanReturnUnlessStuck | include/libhv_evpp/EventLoopThread.h:43-80 | at any point of any run, waiting or not, start and stop can both still return unless the program has ended or stop freed the loop just before its thread ran it |
| LoopThread.LateReadHappens | include/libhv_evpp/EventLoopThread.h:46-49 | some run ends the program by a late second read, and some run gives the object a second thread |
| LoopThread.CheckFailsIffFreed | include/libhv_evpp/EventLoopThread.h:97-104 | with or without waiting, the stopped assertion fails, and post runs early, exactly when stop found the loop not yet running and freed it |
| LoopThread.StatusesOnlyGrow | include/libhv_evpp/EventLoopThread.h:43-104 | between any two points the loop's status never goes backwards, nor the thread's unless a repeated start has set it |
| LoopThread.FallsIffRestarted | include/libhv_evpp/EventLoopThread.h:46-47 | the thread's status goes backwards in a run exactly when a repeated start has set it |
| LoopThread.WithoutWaiting | include/libhv_evpp/EventLoop.h:59-66 | without waiting, some run moves the thread's status backwards and breaks the stopped assertion |
| LoopPool.EveryRun | include/libhv_evpp/EventLoopThreadPool.h:67-120 | the wait of start ends only after all start steps, the pool is stopped only after all exit steps, each status is set by exactly one thread, a returned stop leaves the pool stopped |
| LoopPool.StatusAt | include/libhv_evpp/EventLoopThreadPool.h:67-120 | the pool's status at every moment, and no thread leaves before it is halted |
| LoopPool.EmptyPoolDoesNothing | include/libhv_evpp/EventLoopThreadPool.h:70 | a pool of no threads stays as it is |
| LoopPool.StartAndStopCanReturn | include/libhv_evpp/EventLoopThreadPool.h:67-120 | every run can go on until start's wait and stop's join have returned |
| LoopPool.StatusOnlyGrows | include/libhv_evpp/EventLoopThreadPool.h:67-120 | the pool's status never goes backwards |
| LoadBalance.EventLoopThreadPool.NextLoop | include/libhv_evpp/EventLoopThreadPool.h:31-50 | no loop for an empty pool, otherwise an index in range chosen by the strategy |
| LoadBalance.EventLoopThreadPool.LeastLoaded | include/libhv_evpp/EventLoopThreadPool.h:40-45 | the scan returns the first loop with the fewest connections |
| LoadBalance.EventLoopThreadPool.AdvanceIndex | include/libhv_evpp/EventLoopThreadPool.h:35-37 | the index moves to the next loop and wraps |
| LoadBalance.FirstMin | include/libhv_evpp/EventLoopThreadPool.h:40-45 | the reference choice is minimal, and all before it are larger |
| LoadBalance.RoundRobinIsFair | include/libhv_evpp/EventLoopThreadPool.h:35-37 | after any m picks from any counter value each loop was picked m/N times, rounded down or up |
| LoadBalance.PicksInOrder | include/libhv_evpp/EventLoopThreadPool.h:35-37 | the picks go around the pool, starting after the counter |
| LoadBalance.ConcurrentPicks | include/libhv_evpp/EventLoopThreadPool.h:35-37 | with interleaved calls every index is below N, and the counter is too when no call is in flight |
| LoadBalance.CallAlone | include/libhv_evpp/EventLoopThreadPool.h:35-37 | a call that no other interrupts is one sequential pick |
| LoadBalance.LeastConnectionsIsFair | include/libhv_evpp/TcpServer.h:245-249 | in an accept-only run from zero each loop has m/N connections, rounded down or up, exactly as long as the 32-bit counters have room |
| LoadBalance.LeastConnectionsWraps | include/libhv_evpp/TcpServer.h:249 | past that point the first counter wraps and its loop gets every connection |
| TcpServer.Server.OnAccept | include/libhv_evpp/TcpServer.h:241-251 | from any state of the machine with the server's fields, the accept step leads to one with its new fields |
| TcpServer.Server.NewConnEvent | include/libhv_evpp/TcpServer.h:192-207 | undisturbed, it is the machine's check and, if the limit allows, its registration: the connection ends live or rejected |
| TcpServer.Server.OnClose | include/libhv_evpp/TcpServer.h:218-230 | undisturbed, it is the machine's count-down and removal |
| TcpServer.LimitHolds | include/libhv_evpp/TcpServer.h:192-207 | channels and workers between check and registration are at most the limit plus loops minus one; with one loop the limit is exact, with limit 0 nothing is registered |
| TcpServer.LimitIsReached | include/libhv_evpp/TcpServer.h:192-207 | some run registers that many channels |
| TcpServer.WhenLimitIsExact | include/libhv_evpp/TcpServer.h:194-198 | no run exceeds the limit if and only if there is one loop or the limit is 0 |
| TcpServer.RegisteredExactly | include/libhv_evpp/TcpServer.h:147-165 | the registered channels are exactly those added and not yet removed, each on the loop that accepted it |
| TcpServer.CounterConservation | include/libhv_evpp/TcpServer.h:192-251 | a loop's counter is its waiting, registering, live and ever rejected connections, and no close counts down from 0 |
| TcpServer.RejectionsAreNeverRepaid | include/libhv_evpp/TcpServer.h:194-198 | a loop with no connection left is back at 0 exactly when it never rejected one |
| TcpClient.Channel.OnConnect | include/libhv_evpp/Channel.h:352-360 | a connecting channel becomes connected and gets one framed request |
| TcpClient.Channel.OnClose | include/libhv_evpp/Channel.h:220-228 | a closing channel is closed and wakes the waiting command |
| TcpClient.Client.StartConnect | include/libhv_evpp/TcpClient.h:99-158 | makes a new channel exactly when the current one is closed and a socket can be had, returns the socket's error otherwise, and refuses when it is connecting or connected |
| TcpClient.EveryRun | include/libhv_evpp/TcpClient.h:99-158 | at most one channel is ever connecting or connected, each attempt writes at most one request and causes exactly one wake-up when it closes |
| TcpClient.PromptCommands | include/libhv_evpp/TcpClient.h:274-283 | if every second call takes effect before its channel closes, each command has one connection that carries its request or none, and one wake-up |
| TcpClient.SurplusIffLate | include/libhv_evpp/TcpClient.h:99-158 | a run contains a point with more connection attempts than commands that have asked for one exactly when a second call has found its channel closed |
| TcpClient.RequestLostIffConnected | src/host_command.cpp:131-135 | after any run, a next command can be woken by another command's connection, and can return with its own request never written, if and only if the client is connected for another command when it begins |
| TcpClient.LateCallLosesRequest | src/host_command.cpp:131-135 | that happens: after a late second call some run lets the next command return with its request never written |
| TcpClient.FailedConnectReturns | src/host_command.cpp:27-36 | a connection that fails wakes its command, which returns with nothing written |
| CommandWait.AdbCommand.Resume | src/adb_command.cpp:26-28 | is the machine's reset step |
| CommandWait.AdbCommand.WeakUp | src/adb_command.cpp:12-18 | undisturbed, a call is the machine's five steps: it sets the flag and wakes a sleeper, whatever the waiter is doing |
| CommandWait.AdbCommand.Waits | src/adb_command.cpp:7-10 | undisturbed, a call is the machine's steps to its return when the flag is set, and to its sleep when it is not |
| CommandWait.NoLostWakeUp | src/adb_command.cpp:7-18 | a sleeper whose flag is set has a weak_up still before its notify, and waits has only returned after a weak_up since the last reset |
| CommandWait.SleeperCanReturn | src/adb_command.cpp:7-18 | such a sleeper can always go on to return, by steps of threads already in weak_up and its own |
| CommandWait.SpuriousWakeUpIsHarmless | src/adb_command.cpp:9 | a sleeper woken with the flag not set tests it and sleeps again |

## Left out

- Sockets, TLS, addresses, heartbeats, timeouts and the UDP classes: input and output over a C library that is not part of this model.
- Reconnection: its back-off settings are defined outside the repository; the client model has it switched off.
- Pausing and resuming a loop, restarting after a stop (other than by a repeated start that overlaps it), several concurrent stops, a stop called from the loop thread itself, and a pre functor that returns non-zero.
- LoopThread.EveryRun: says nothing about runs in which another `start` reads the status before the first has set it; the source does not guard against them (OverlappingStarts).
- EventLoopThread and the pool's start and stop are modelled on values, as atomic steps of interleaved threads: their statements belong to different threads, so no single method body can be given for them.
- TcpClient: two threads are not inside `startConnect`, or inside it and a close callback, at the same instant; the source does not synchronise them, and the model takes each as one step.
- Setting a timer under an id that is still in use, repeat count 0, and a loop stopped by another thread in the middle of a timer's callback.
- The two speed fields of DeviceInfo, which the source never sets.
- The USB path that a server may print between the state and the product of the long form is not among the forms that are read back: the parser takes it for the product (PathIsTakenForProduct).
- `list_reverse`: it reads at fixed offsets past short chunks, so it has no meaningful result to state.
- Other commands (kill, connect, disconnect, forward, root, usb, tcpip, sync, ...): they repeat the callbacks modelled here. `track_devices` clears its string first and is otherwise `get_devices`.
- Zeroing of a chunk after its callback, logging, `state_to_string`, `MKID`, and the internals of StringPrintf, whose formatting is taken to be exact.
