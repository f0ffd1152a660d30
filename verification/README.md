# FLXC1000: a verified model of the diagnostic engine

The FLXC1000 is an ECU simulator that speaks UDS (ISO 14229-1) over DoIP (ISO 13400-2:2012). This Dafny
project models the state machines written out in its repository and proves what they keep over whole runs:

* **UDS engine** (`flxc1000-uds`). `Security.dfy`, `Sessions.dfy` and `Dispatcher.dfy` hold the three objects as
  classes whose methods update their fields; each method is proved equal to a function of the old state.
  `SecurityRuns.dfy`, `FastestGuesses.dfy`, `SessionRuns.dfy`, `DispatcherRuns.dfy`, `DispatcherSessions.dfy`,
  `KeyGuesses.dfy` and `Answers.dfy` prove theorems about every run of those functions: where an unlock comes from, how fast wrong keys can be tried, what the lockout silences, when the gate opens,
  which session is current, and what an answer tells.
* **DoIP connection** (`flxc1000-doip`). `Header.dfy`, `Framing.dfy`, `Messages.dfy` and `Connection.dfy` hold the
  codecs, the receive loop and the connection task; `ConnectionRuns.dfy` proves that the loop folds over the
  unique frame decomposition, exactly when read boundaries are harmless, that the output stream parses back, the
  order of acknowledgements, forwarded requests and responses, and that what is done is what the input asks for. `OnTheWire.dfy` gives each exchange byte by byte.
* **Many connections, one UDS loop** (`RequestLoop.dfy`): the bounded queue, the one-slot reply channels and the
  handle-reply-reset loop, under every interleaving. `EndToEnd.dfy` joins it to the connection: what a tester reads
  back is the conversation its own bytes ask for, with the loop's answers to its own requests. `JoinedRuns.dfy` shows
  that every connection of the system is a run of the connection task in some environment, and `FullQueue.dfy` that
  the bound on waiting is met and that any number of requests can be served.
* **Smaller protocols**: the self-test status byte (`SelfTest.dfy`), the init/app/boot chain (`BootChain.dfy`),
  the bootloader's seed and key (`BootSecurity.dfy`) and the trouble code reports (`DtcReport.dfy`).

How the model reads the code:

* Clock readings are natural numbers of nanoseconds, one for each call that takes one, so that a request to the
  dispatcher takes up to three; nothing else is asked of the clock but, where time is the point, that it never goes
  back.
* `u8` arithmetic is that of the release build the repository's README prescribes: addition wraps and a shift
  count is masked. So every level is covered: levels from 8 on share the bit of their remainder, and
  `SecurityRuns.UnlockProvenance` says so through `SameBit`, which below 8 is equality. A debug build panics
  on such a level instead.
* Bytes of the UDS side are bit vectors (`Words.dfy`), because they are masked and xored; bytes of the DoIP side
  are numbers below 256 (`Octets.dfy`), and its 16 and 32 bit numbers are kept as their big-endian bytes: addresses
  and codes are only compared, and only a length is given its value.
* A service handler is arbitrary: for each request, any answers about support, sessions and level, any calls on
  the session and security objects it is lent, and any outcome. `server.handle` of the boot and app loops is an
  arbitrary function of state and request. Sockets, the queue's being open and replies are an arbitrary
  environment; a write may be cut short at any byte.

Where the code and its own words differ, the model follows the code:

* `flxc1000-doip/src/connection.rs:110` logs that it waits for more data, but the bytes after the last whole frame
  are dropped (`ConnectionRuns.SplitIsSafeIffAligned`).
* `flxc1000-uds/src/dispatcher.rs:132` speaks of a reset on any change of session; only the return to the default
  session relocks. The S3 timer relocks nothing (`DispatcherRuns.UnlockOutlivesItsSession`).
* A header's version bytes are never compared (`DoipHeader::is_valid` has no caller), so frames of any version are
  handled.
* Stopping the self-test is accepted whenever the status is RUNNING, but it is not final while a Start is half way,
  or a thread has yet to begin or has made its last check (`SelfTest.StopIsFinalIff`); and a Start after it revives
  the threads that have not made their next check (`SelfTest.StoppedThreadCompletesIff`).
* The app's rewrite of `/data/boot_state` is not synced, so it selects the bootloader for good only once it has got
  to the card (`BootChain.AppNeverReturns`).
* Between a seed request and its key the machine tolerates calls it turns away for their sub-function alone; that
  is the exact form of "no other call in between" in `SecurityRuns.MatchedPair`.

## Model

| member | source | states |
|---|---|---|
| Security.SecurityState.RequestSeed | flxc1000-uds/src/security.rs:49-84 | the new state and the answer are those the specification gives, over every level, time and entropy |
| Security.SecurityState.SubmitKey | flxc1000-uds/src/security.rs:87-127 | likewise for a key: pending seed consumed, bit set, counter and lockout moved, error chosen |
| Security.SecurityState.Reset | flxc1000-uds/src/security.rs:43-46 | relocks every level and drops the pending seed, and nothing else |
| SecurityRuns.ReachableStatesAreSound | flxc1000-uds/src/security.rs:49-127 | in every reachable state a lockout is set exactly when three attempts failed, then nothing is pending, and a pending seed is non-zero, of an odd level that is still locked |
| SecurityRuns.ZeroSeedMeansUnlocked | flxc1000-uds/src/security.rs:62-84 | an accepted seed request answers zero exactly when the level is unlocked |
| SecurityRuns.SeedRefusals | flxc1000-uds/src/security.rs:49-60 | a seed request is turned away, with nothing changed, for an even level or a running lockout and for nothing else |
| SecurityRuns.SeedSpellsEntropy | flxc1000-uds/src/security.rs:68-83 | for a locked level the four bytes answered spell the entropy, or 1 for none, and the machine waits for the key to that word |
| SecurityRuns.SeedsFollowEntropy | flxc1000-uds/src/security.rs:68-83 | different words are announced differently, and every word but zero is announced |
| SecurityRuns.KeyRefusals | flxc1000-uds/src/security.rs:87-102 | the answer to a key tells why it was not compared, and what that left of the state |
| SecurityRuns.AnswersTellComparisonsApart | flxc1000-uds/src/security.rs:86-127 | which answers mean that a key was compared, that it was right, and that it was the third wrong one |
| SecurityRuns.LockoutWindowIsSilent | flxc1000-uds/src/security.rs:54-60 | until a lockout ends no call sequence unlocks anything, compares a key or moves the lockout, although submissions never look at it |
| SecurityRuns.UnlockProvenance | flxc1000-uds/src/security.rs:94-112 | a level is unlocked if and only if an announced seed was matched by the next call that counts, with no reset since |
| SecurityRuns.OneExchangeUnlocks | flxc1000-uds/src/security.rs:39-41 | one exchange unlocks exactly the levels sharing its bit |
| SecurityRuns.WrongKeysAreBounded | flxc1000-uds/src/security.rs:108-126 | over any run at most three wrong keys per started 10 s, plus two per unlock |
| FastestGuesses.BoundIsMet | flxc1000-uds/src/security.rs:54-126 | for every duration and every number of unlocks some run attains that bound |
| Sessions.SessionState.Transition | flxc1000-uds/src/session.rs:65-73 | moves to an allowed session and touches the timer, else changes nothing |
| Sessions.SessionState.Tick | flxc1000-uds/src/session.rs:76-81 | falls back to the default session strictly after the timeout |
| Sessions.SessionState.Touch | flxc1000-uds/src/session.rs:83-85 | restarts the timer and keeps the session |
| NegativeResponses.CodesAreUnique | flxc1000-uds/src/nrc.rs:16-36 | the nine codes are those of the table and determine their reasons |
| Dispatcher.UdsDispatcher.Process | flxc1000-uds/src/dispatcher.rs:60-108 | session, security and response after a request are those of the specification, for any handler |
| Dispatcher.UdsDispatcher.HandleDsc | flxc1000-uds/src/dispatcher.rs:110-144 | the session moved to, the relock on return to default, the suppressed answer |
| Dispatcher.UdsDispatcher.HandleSecurityAccess | flxc1000-uds/src/dispatcher.rs:146-173 | odd sub-functions ask for a seed, even ones submit a key |
| Dispatcher.UdsDispatcher.HandleTesterPresent | flxc1000-uds/src/dispatcher.rs:175-196 | touches the timer, answers unless suppressed |
| Dispatcher.UdsDispatcher.Delegate | flxc1000-uds/src/dispatcher.rs:34-42 | the effect of a handler is that of the calls it makes, in order |
| Dispatcher.UdsDispatcher.Tick | flxc1000-uds/src/dispatcher.rs:199-201 | ticks the session and leaves security alone |
| DispatcherRuns.DispatcherRefinesSecurity | flxc1000-uds/src/dispatcher.rs:60-173 | the security state of a run is that of the seed/key machine fed with the calls the run makes |
| DispatcherRuns.GateIsExact | flxc1000-uds/src/dispatcher.rs:61-87 | a request passes the gate if and only if service and session fit and its level was unlocked by an exchange since the last return to the default session; the session is the one the run left unless the request itself was held up for over 5 s |
| Answers.GateReasons | flxc1000-uds/src/dispatcher.rs:70-87 | which of the three checks turns a request away, told from the run; the first that fails gives the reason |
| Answers.RejectionIsRead | flxc1000-uds/src/dispatcher.rs:64-87 | a tester reads that reason in the answer, and nothing but the timer was touched |
| Answers.HandlerIsRelayed | flxc1000-uds/src/dispatcher.rs:98-107 | past the gate a handler's data and errors reach the tester byte for byte, and its calls take effect |
| Answers.SessionControlIsRead | flxc1000-uds/src/dispatcher.rs:110-144 | each session byte and suppress bit with its answer, and the session entered |
| Answers.SecurityAccessIsRead | flxc1000-uds/src/dispatcher.rs:146-173 | the answer is what the seed/key machine answers to the one call that the sub-function asks for |
| Answers.ShortSecurityAccessIsRead | flxc1000-uds/src/dispatcher.rs:146-150 | without a sub-function it is too short and calls nothing |
| Answers.TesterPresentIsRead | flxc1000-uds/src/dispatcher.rs:175-196 | the four answers, and when the timer is restarted |
| DispatcherRuns.UnlockOutlivesItsSession | flxc1000-uds/src/dispatcher.rs:129-135 | a run from start-up in which a level unlocked in the extended session stays so through a move to programming and the expiry of the S3 timer |
| DispatcherRuns.SessionFollowsHistory | flxc1000-uds/src/dispatcher.rs:60-130 | the session is that of the last accepted session control unless a later tick came over 5 s after the last touch, or a later request was held up as long |
| DispatcherSessions.DispatcherRefinesSession | flxc1000-uds/src/dispatcher.rs:60-201 | with any handlers, the session of a run is that of the session machine fed with the operations the run makes, the handlers' included |
| DispatcherSessions.SessionIsToldByOperations | flxc1000-uds/src/session.rs:65-85 | whatever handlers do, a session other than the default one is current if and only if the last move carried out was to it and the timer has not run out since |
| DispatcherRuns.SessionIsAllowed | flxc1000-uds/src/session.rs:65-81 | whatever handlers do, the session is allowed or the default one |
| DispatcherRuns.AnswersAreClassified | flxc1000-uds/src/dispatcher.rs:70-196 | every answer is negative, positive or empty, empty exactly for a suppressed request, the first two overlapping only for service 0x3F; a gate rejection names its reason and leaves security and session alone |
| DispatcherRuns.AnswersTellTheState | flxc1000-uds/src/dispatcher.rs:137-173 | a positive session control names the session now current; a seed or key answer tells what is pending or unlocked |
| KeyGuesses.AnswersCountCalls | flxc1000-uds/src/dispatcher.rs:146-173 | wrong-key and success answers to a tester count exactly the machine's comparisons |
| KeyGuesses.WrongAnswersAreBounded | flxc1000-uds/src/security.rs:108-126 | a tester gets at most three wrong-key answers per started 10 s, plus two per right key, however it arranges its requests |
| KeyGuesses.WrongAnswersAreBoundedWithAnyHandler | flxc1000-uds/src/security.rs:108-126 | the same bound for handlers that use the security state too, with the keys that they get right counted along |
| Header.PayloadTypeCodes | flxc1000-doip/src/header.rs:35-54 | the two code mappings are inverse to each other |
| Header.ParseEncodedHeader | flxc1000-doip/src/header.rs:78-103 | an encoded header parses back in front of any bytes |
| Header.EncodeParsedHeader | flxc1000-doip/src/header.rs:78-103 | what parses is the encoding of its parse |
| Framing.FramesAndResidue | flxc1000-doip/src/connection.rs:100-139 | every buffer is whole frames and a residue, with at most one frame per 8 bytes |
| Framing.DecompositionIsUnique | flxc1000-doip/src/connection.rs:100-139 | no other decomposition exists |
| Framing.FramesOfSplit | flxc1000-doip/src/connection.rs:108-112 | what two buffers yield together is what the first yields, then its residue with the second |
| Messages.Encode | flxc1000-doip/src/message.rs:84-205 | the buffer grown field by field is header and payload of the message |
| Messages.ParseDiagnosticInvertsPayload | flxc1000-doip/src/message.rs:107-128 | a payload parses to a diagnostic message exactly when it is that message's payload |
| Messages.ParseActivationInvertsFields | flxc1000-doip/src/message.rs:50-59 | a payload parses as an activation exactly when it begins with that activation, field by field |
| Messages.DecodeInvertsFrameOf | flxc1000-doip/src/message.rs:84-205 | a tester decodes each encoded message to itself |
| Messages.EncodingDeframesIffItFits | flxc1000-doip/src/message.rs:118-128 | a message de-frames to itself if and only if its payload is shorter than 2^32 |
| Connection.ConnectionTask.ProcessTcpData | flxc1000-doip/src/connection.rs:93-142 | the offset loop is the left fold of the frame handler over the decomposition, up to the first error |
| Connection.ConnectionTask.HandlePayload | flxc1000-doip/src/connection.rs:116-136 | the dispatch on the payload type |
| Connection.ConnectionTask.HandleRoutingActivation | flxc1000-doip/src/connection.rs:144-175 | answers and activates, or fails and does not |
| Connection.ConnectionTask.HandleDiagnosticMessage | flxc1000-doip/src/connection.rs:177-240 | ignores, rejects, or acknowledges, forwards and relays the reply |
| Connection.ConnectionTask.HandleConnection | flxc1000-doip/src/connection.rs:56-90 | each read is processed by itself, up to the first error |
| ConnectionRuns.ServeFoldsFrames | flxc1000-doip/src/connection.rs:56-139 | a whole connection is one fold over the frames its reads show |
| ConnectionRuns.ReadBoundariesDoNotMatter | flxc1000-doip/src/connection.rs:102-114 | cutting a stream at frame ends, however often, changes neither state, output, requests nor errors |
| ConnectionRuns.SplitIsSafeIffAligned | flxc1000-doip/src/connection.rs:102-114 | in every environment and state, what follows a read may come in a read of its own if and only if the read ends where a frame ends or ended the connection; otherwise at most 8 more bytes make state, actions, output or the error that ends the connection differ |
| ConnectionRuns.OutputRoundTrips | flxc1000-doip/src/connection.rs:123-236 | the whole output de-frames and decodes to the messages sent, in order, with no residue unless a write failed |
| ConnectionRuns.RunsAreDisciplined | flxc1000-doip/src/connection.rs:144-240 | nothing is forwarded before activation, each request follows its acknowledgement, and each reply that is not empty, and nothing else, is relayed unchanged right after its request to the tester activated last |
| ConnectionRuns.NothingIsUndone | flxc1000-doip/src/connection.rs:36-41 | the log only grows and an activation is never undone |
| ConnectionRuns.VerdictsAreThoseOwed | flxc1000-doip/src/connection.rs:116-225 | what a run does is, in order, what its frames oblige it to, up to one that cannot be parsed: the activations confirmed, the alive checks answered, the messages accepted or rejected, and the tester that replies go to, all told from the input alone |
| OnTheWire.ActivationExchange | flxc1000-doip/src/connection.rs:144-175 | the bytes of an activation request, the bytes of its answer and the tester activated |
| OnTheWire.CutActivationExchange | flxc1000-doip/src/connection.rs:164-169 | an activation whose answer is cut off leaves the bytes taken on the wire and does not activate |
| OnTheWire.AliveCheckExchange | flxc1000-doip/src/connection.rs:123-128 | the bytes of an alive check and of its answer, in every state |
| OnTheWire.CutAliveCheckExchange | flxc1000-doip/src/connection.rs:123-128 | a write that is cut off leaves the bytes taken on the wire, nothing else, and ends the connection |
| OnTheWire.SilentExchange | flxc1000-doip/src/connection.rs:184-190 | a diagnostic frame before an activation has no effect at all |
| OnTheWire.RefusedExchange | flxc1000-doip/src/connection.rs:192-202 | the bytes of a message for another address and of its refusal |
| OnTheWire.RelayedExchange | flxc1000-doip/src/connection.rs:204-237 | the bytes of a message for the ECU or for all, of its acknowledgement and of the response, and the request forwarded |
| RequestLoop.RunsAreSound | flxc1000-doip/src/connection.rs:213-237 | under every interleaving no request or response is lost, duplicated, reordered or misdelivered, one is under way per connection, and the queue holds at most 32 |
| RequestLoop.ServedInOrder | flxc1000-doip/src/connection.rs:213-237 | at any time a connection has had the first of its requests handled and the first of the answers delivered, and has one request outstanding exactly while it sends or waits |
| RequestLoop.ClosedIsFinal | flxc1000-doip/src/connection.rs:56-90 | once its task has ended nothing is forwarded, sent or delivered for a connection |
| RequestLoop.ArrivalsAreServedInTurn | flxc1000-doip/src/server.rs:59-76 | requests of all connections are handled in the order in which they entered the queue |
| RequestLoop.WaitIsBounded | flxc1000-boot/src/main.rs:306-345 | at most 32 others are handled before a request that entered the queue, and if one more is handled it is this one; only a reset taken first can leave it unserved |
| FullQueue.WaitingBoundIsMet | flxc1000-doip/src/server.rs:129-148 | 33 connections can wait at once, and the last is handled when exactly 32 others have been |
| FullQueue.AnyRequestsAreServed | flxc1000-doip/src/connection.rs:213-237 | a connection can have any requests answered one after the other, and close after them |
| RequestLoop.IdleConnectionsAreServed | flxc1000-doip/src/server.rs:59-76 | a connection at rest has had every request handled and every response delivered |
| RequestLoop.ReplyNeverBlocks | flxc1000-boot/src/main.rs:343-345 | the loop's send into a reply channel finds its requester waiting and the slot free |
| RequestLoop.NoDeadlock | flxc1000-boot/src/main.rs:306-345 | while a request is unanswered and no reset was taken, some step towards an answer is enabled |
| RequestLoop.SixStepsPerRequest | flxc1000-boot/src/main.rs:306-345 | in every run the steps taken towards answers and those still owed are six per forwarded request, so no interleaving can circle without answering |
| RequestLoop.EveryRequestIsAnswered | flxc1000-doip/src/connection.rs:213-237 | a run that no reset ended and in which no step towards an answer is left has handled and answered every forwarded request, in order, on every connection |
| RequestLoop.LoopIsSequential | flxc1000-boot/src/main.rs:306-360 | server state and responses are those of handling the requests one by one; the loop goes down for the first reset asked for and for no other reason |
| RequestLoop.ResetComesAfterResponses | flxc1000-boot/src/main.rs:343-359 | a loop that is down stays down and handles nothing more, and the response to every handled request is with its connection or in its reply channel |
| EndToEnd.TesterGetsItsAnswers | flxc1000-doip/src/connection.rs:93-240 | however many testers share the loop and wherever a connection is, the requests handled for it are the first of those its input gives rise to, and the bytes it wrote decode to the beginning of the conversation owed to that input, with each response the one computed for that request; at rest and without errors, to all of it |
| JoinedRuns.EveryConnectionIsARun | flxc1000-doip/src/connection.rs:177-240 | every connection of every run of the system has an environment in which the connection task, given input for the requests forwarded, does just what the connection did |
| SelfTest.StatusIsNeverStale | flxc1000-app/src/main.rs:158-206 | RUNNING means a thread is running, COMPLETED that one passed all five checks, IDLE that none has begun |
| SelfTest.ChecksAreMade | flxc1000-app/src/main.rs:165-203 | a thread that completed has made exactly five abort checks, one between checks those it counts |
| SelfTest.ThreadsEnd | flxc1000-app/src/main.rs:158-206 | no thread is stuck before its end, and it gets there in at most seven steps of its own |
| SelfTest.EndedThreadsDoNotRun | flxc1000-app/src/main.rs:299-338 | once all threads have ended the status is COMPLETED or ABORTED |
| SelfTest.RequestsAreAcceptedIff | flxc1000-app/src/main.rs:299-329 | a Stop leads to an abort if and only if the status is RUNNING, a Start to a thread if and only if it is not |
| SelfTest.OutcomeStands | flxc1000-app/src/main.rs:299-338 | once all threads have ended the outcome stands, under every schedule, until a Start is accepted |
| SelfTest.StopIsFinalIff | flxc1000-app/src/main.rs:299-329 | while no further Start is accepted an abort stands under every interleaving if and only if no Start is half way and no thread is unstarted or past its last check |
| SelfTest.StoppedThreadCompletesIff | flxc1000-app/src/main.rs:158-206 | a thread stopped between its checks can run to its end from its next check on if and only if a RUNNING or COMPLETED store came after the last abort |
| SelfTest.AnyStoppedThreadCanComplete | flxc1000-app/src/main.rs:302-315 | where Starts are accepted every thread stopped between its checks can still complete |
| SelfTest.NeverTwoIffSpawnsAlone | flxc1000-app/src/main.rs:302-315 | two cascades are never under way at once if and only if each is spawned when no other is |
| SelfTest.SecondStartIsAcceptedIff | flxc1000-app/src/main.rs:302-329 | a Start during a lone cascade is accepted if and only if the cascade has not stored RUNNING yet or an abort was stored, and its thread then makes two |
| SelfTest.StopAfterLastCheckFails | flxc1000-app/src/main.rs:168-203 | a run from power-up in which a stop is accepted after the last check and the test ends as COMPLETED |
| SelfTest.StopBeforeBeginFails | flxc1000-app/src/main.rs:302-329 | a run from power-up in which a second thread begins after the stop |
| SelfTest.StopThenStartFails | flxc1000-app/src/main.rs:302-329 | a run from power-up in which a stop that is final by itself is followed by a Start, and the stopped thread completes |
| BootChain.InitChoosesAppIff | flxc1000-init/src/main.rs:113-141 | after any history init starts the app if and only if all is mounted, the file marked it valid and every hard reset's rewrite of the file, if any, was lost with the power before it got to the card |
| BootChain.ValidIff | flxc1000-init/src/main.rs:128-135 | the file marks the app valid if and only if it reads app_valid but for white space around it |
| BootChain.InitStartsAppIff | flxc1000-init/src/main.rs:85-141 | whenever init runs it starts the app under just that condition and else the bootloader, and leaves the file alone |
| BootChain.BootResetLeads | flxc1000-boot/src/main.rs:78-96 | a hard reset of the bootloader leads to init, a soft one to the bootloader, once; any other is refused |
| BootChain.AppHandsOver | flxc1000-app/src/main.rs:275-289 | a hard reset of the app whose write is done hands over to the bootloader whatever init finds; one that fails leaves the app running |
| BootChain.PowerCycleLeads | flxc1000-init/src/main.rs:85-141 | a power cycle leads to init with the text on the card, and a device whose exec failed waits for one |
| BootChain.AppNeverReturns | flxc1000-app/src/main.rs:275-289 | once a hard reset rewrote the file and the app has gone, no resets and write-backs run it again, nor does any loss of power once the rewrite is on the card |
| BootSeed.GenerateSeed | flxc1000-boot/src/main.rs:153-161 | writes the seed into the first four bytes and leaves the rest |
| BootSeed.SeedMapIsBijective | flxc1000-boot/src/main.rs:154-158 | clock reading and seed determine each other |
| BootKey.OneKeyPasses | flxc1000-boot/src/main.rs:163-175 | for each seed exactly one four-byte prefix passes, the bytewise xor with DE AD BE EF |
| BootKey.AgreesWithDispatcher | flxc1000-uds/src/security.rs:100-108 | on four-byte keys both implementations accept the same keys |
| DtcReport.DtcStore.HandleClearDtc | flxc1000-app/src/main.rs:364-375 | empties the store, or rejects a short request and keeps it |
| DtcReport.DtcStore.HandleReadDtc | flxc1000-app/src/main.rs:377-401 | the loop builds the report of the matching codes, or the right negative answer |
| DtcReport.MatchingSelects | flxc1000-app/src/main.rs:391-396 | exactly the codes that have a status bit in common with the mask are listed, in stored order |
| DtcReport.ReadIsReported | flxc1000-app/src/main.rs:377-401 | which requests get a report, and why the others are turned away |
| DtcReport.ReportRoundTrips | flxc1000-app/src/main.rs:390-397 | a report decodes to those codes and is 3 + 4 times their number long |
| DtcReport.NarrowerMaskSelectsFromWider | flxc1000-app/src/main.rs:388-396 | a narrower mask's report is a selection from a wider mask's |
| DtcReport.ClearedForGood | flxc1000-app/src/main.rs:373-390 | after a successful clear every report is the bare header |

## Left out

- Security.SecurityState.RequestSeed: where the entropy comes from; it is any 32-bit number, with the code's fix-up of zero.
- Security.SecurityState.SubmitKey: the panic of a debug build on a level of 8 or more, as the release build masks the shift.
- Dispatcher.UdsDispatcher.Delegate: a handler that overwrites the session or security object it is lent with a new one, instead of calling its methods.
- KeyGuesses.AnswersCountCalls: handlers that make seed or key calls of their own, whose results a tester does not see; `KeyGuesses.WrongAnswersAreBoundedWithAnyHandler` covers them.
- Connection.ConnectionTask.HandleConnection: the inactivity timeout, the peer's closing and read errors; a run may end after any read. Reads longer than the receive buffer are covered although they cannot occur.
- RequestLoop.NoDeadlock: that the scheduler takes an enabled step, and how long it takes by the clock.
- RequestLoop.RunsAreSound: the tasks are steps of one relation on values, not objects; the server is not tied to the dispatcher, which the binaries do not use either.
- EndToEnd.TesterGetsItsAnswers: the connection's own run and its place in the system are two machines, joined by what they exchange (`IsOneConnection`), not built as one; the bytes of a write that is cut off are covered as a residue.
- SelfTest.StatusIsNeverStale: the LEDs, their timing, and RequestResults, which only loads the status.
- BootChain.InitChoosesAppIff: writers of the boot state other than the app, such as flashing a card.
- The internals of `ace-server` and `ace-sim`, its session, service and DID tables, and the DID handlers of boot and app: not part of this repository, or plain table look-ups.
- UDP vehicle identification, the announcement message, the MAC address, network set-up and the Python relay: no state.
- The flash programming stubs of the bootloader (0x34, 0x36, 0x37): they would add only easy members.
- Logging, mounts, `execve`, sockets and the tokio runtime, beyond what is said above.
