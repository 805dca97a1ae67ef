# A verified model of the Zephyr UDS server

The Unified Diagnostic Services server (ISO 14229-1) of this repository is a set of small state machines
that share a session, a security level, a flash pipeline, two background workers, several kernel timers
and a non-volatile store. This project models them in Dafny and proves properties of every run: of every
sequence of requests, timer callbacks, worker statements, periodic cycles, power cycles and power cuts
in the middle of a handler, over any number of boots.

`dafny verify dfyconfig.toml` checks the whole project.

## How the model is built

* Every module of the server is a class with the module's statics as fields and buffers as arrays
  (`security.dfy`, `session.dfy`, `flash_pipeline.dfy`, `clear_dtc.dfy`, `routine.dfy`, `read_dtc.dfy`,
  `dynamic_did.dfy`, `periodic.dfy`, `data_storage.dfy`, `gated_services.dfy`, `reset.dfy`, `server.dfy`).
  Each method is proved equal to a function on plain states. That function gives the new state, the
  ordered list of observable events (hook calls, store writes) and the answer. `Board` records the events
  of the classes.
* `system.dfy` is the transition system: `Step` lists what can happen, `Run` follows a list of steps from
  the first power-on with an empty store, and the log records every event with its time. Application
  hooks, the entropy source and the flash's behaviour after a failed call are values carried by the step,
  so a statement about all runs is a statement about all their behaviours.
* A power cut inside a handler keeps a prefix of the handler's event list and boots from the store that
  prefix leaves. This is why the order of store writes matters and is part of every contract.
* Results over runs are stated on the log. A summary of the log (`Fold` of an `Observe` function) never
  looks at the server's variables; an invariant ties it to them. The headline lemmas speak of log
  positions, frames and bytes, or of such a summary; where they say more (the RAM status when the attempt
  limit is reached, the notes of the two background services) they also say what that means on the bus or
  in the log. `EventsOf` is what a step adds to the log, `RamAfter` the RAM it leaves.
* `on_the_bus.dfy` says for every request what it causes, hook calls, store writes and frames byte by byte,
  as a function of the request, the hooks' answers and the log of the run so far. `served_requests.dfy` follows
  requests from their bytes to the hook calls and frames they lead to, over whole runs.
* `device.dfy` puts the server object in its world (clock, store, log) and proves that it takes the steps of
  the transition system, so the results about runs hold of the object.
* The Kconfig symbols are constants of unknown value within their ranges, so every result holds for every
  configuration, with two limits: the seed is at most 16 bytes (the size of the key buffer) and the
  transmit buffer at least 67 bytes (a complete trouble code report).

Kernel semantics used: a timer callback is one step, taken as soon as it is due and before thread code
(for the two 0x78 supervisors: at any time while armed); a work item has a queued and a running flag, is
pending if either is set, and can be queued again while it runs; the system work queue is cooperative, so
a request interleaves with a worker only where the worker blocks. The callback of service 0x14 is also
modelled split at its two reads of `worker_done`. A request handler is one step with respect to the S3,
lockout and reset timers.

## Where code and documentation disagree

The model follows the code.

* `include/zephyr/canbus/uds_app_interface.h` maps hook errors to response codes that the handlers do not
  use: a refused write is answered 0x22 rather than 0x33 or 0x7E, a failed erase 0x70 rather than 0x72, a
  failed flash write always 0x71, a busy routine result 0x31 rather than 0x24, any read error but -ENOMEM
  0x31, and a routine that cannot start gets a final 0x71 01 frame with status 0x02.
* The comment on the functional filter (`src/uds_server.c:102`) refers to the standard; the code drops every
  functional negative response other than 0x78, more than the standard's list.
* `src/uds_data_storage.h` documents only -EINVAL; the code also returns -ENXIO and -EIO.
* `src/uds_read_dtc.h` speaks of a RAM database; the code reads the store.
* The status filter of `src/uds_read_dtc.c:75` ignores the availability mask it reports.

## Model

| member | source | states |
|---|---|---|
| AttemptResults.FailedAttemptsAreBounded | src/uds_security.c:202-225 | in every run, at every point of the log (also mid-handler): failed verifications since the last success or completed lockout expiry are at most MAX_FAILED_ATTEMPTS plus the power cuts since then, while those cuts are fewer than 256 - MAX_FAILED_ATTEMPTS; earlier cuts do not count |
| AttemptResults.NoVerificationAtTheLimit | src/uds_security.c:148-151 | in every run, whenever the verify hook is called, that bound has not yet been reached (same condition on the cuts) |
| AttemptResults.WithoutCuts | src/uds_security.c:210-220 | with no handler cut since the last success or completed expiry the bound is MAX_FAILED_ATTEMPTS, and reaching it means that the last lockout write of the log set the flag and that the server is locked out |
| AttemptResults.LockoutIsEnforced | src/uds_security.c:106-128 | between entering the lockout and the next call of the verify hook, some lockout expiry comes at least LOCKOUT_TIME_MS after the lockout entry and after every boot since |
| AttemptResults.LimitIsServedOut | src/uds_security.c:106-151 | once MAX_FAILED_ATTEMPTS verifications have failed (no handler cut since the last success or expiry), any later call of the verify hook comes after a lockout expiry that is a whole LOCKOUT_TIME_MS after the lockout entry and after every boot since, however the run goes on |
| AttemptBound.TallyInEveryRun | src/uds_security.c:55-66 | between any two steps the RAM counter equals the persisted one unless locked out, the lockout status holds exactly while the lockout flag is persisted, and the lockout timer runs exactly then |
| Access.GuardedCallsAreAuthorised | src/uds_flash_pipeline.c:65-73 | every erase, write-DID and IO-control hook call in every run has an accepted 0x10 (non-default, for the last two extended) and a later successful key verification before it, with no session change, S3 expiry or reboot since |
| Access.VerificationsUseFreshSeeds | src/uds_security.c:155-200 | every verification in every run uses exactly the bytes of the most recent seed response, with no verification, accepted 0x10, S3 expiry or reboot in between |
| Access.SeedsAreUsedOnce | src/uds_security.c:186-225 | two verifications are answered to two different seed responses |
| History.WatchdogIsATimestampRule | src/uds_session.c:49-67 | whenever no S3 expiry is pending, the session is the pure fold over the timed requests since the last boot; the timer is armed exactly in a non-default session, for the last request plus S3 |
| History.S3ExpiryRelocks | src/uds_session.c:31-41 | an S3 expiry comes exactly S3 after the last request, falls back to the default session, relocks security, and leaves a lockout and its timer as they were |
| History.DynamicReadsAreSlices | src/uds_dynamic_did.c:75-124 | in every run a 0x22 request for the last defined dynamic identifier puts exactly one frame on the bus, with exactly the defined slice of the source |
| History.OtherReadsAreUnaffected | src/uds_server.c:197-224 | in every run any other 0x22 request adds the same events to the log and has the same effect as in the state without the definition |
| History.RegistryFollowsHistory | src/uds_periodic.c:78-105 | in every run the registry is the first five accepted starts since the last stop, and a non-empty one has a callback |
| History.ResetFollowsTheRequest | src/uds_reset.c:35-88 | in every run the delayed reboot comes exactly 50 ms after the last accepted 0x11 since the last boot, and is of the kind it asked for |
| Sampling.CyclesSampleTheRegistry | src/uds_periodic.c:47-64 | in every run, over any steps free of requests and reboots with n cycles of the periodic thread among them, the application is asked for n copies of the registry end to end, and for nothing else |
| ServedRequests.GrantedDownloadErases | src/uds_flash_pipeline.c:65-121 | in every run, after an accepted 0x10 to a non-default session and an accepted key with nothing ending the session since, a physical 0x34 for any address and size at any widths that hold them calls the erase hook with exactly that address and size, and is answered 74 20 and the buffer size, or 7F 34 70 if the hook fails |
| ServedRequests.GrantedWriteIsPassedOn | src/uds_write_did.c:22-68 | likewise in the extended session a 0x2E calls the write hook with the identifier and the data sent |
| ServedRequests.GrantedControlIsPassedOn | src/uds_iocontrol.c:22-74 | likewise a physical 0x2F calls the control hook with identifier, parameter and option bytes |
| ServedRequests.ClearRequestsAreServed | src/uds_clear_dtc.c:47-107 | in every run the accepted 0x14 requests since the last boot have, in order, each its own worker run, whose hook call carries the three bytes the tester sent, and its own 0x54 frame on the bus; only the last may be under way |
| ServedRequests.StartRequestsAreServed | src/uds_routine.c:58-145 | in every run the k-th hook call since the last boot gets the two identifier bytes of the k-th accepted 31 01 request, and the k-th final frame on the bus is 71 01, those two bytes, and 00 exactly if that hook call returned 0, otherwise 02; only the last start may be unserved |
| RoutineControl.CalledInOrder | src/uds_routine.c:58-66 | in a log that keeps the protocol the k-th hook call is for the k-th start |
| OnTheBus.RunIsAsLogged | src/uds_security.c:123-128 | in every run with no S3 expiry pending, session, lock status, seed and counter in RAM are what the log says, both ways |
| OnTheBus.SessionRequests | src/uds_server.c:168-183 | 10 01, 10 02 and 10 03 set the default, programming and extended session and are answered 50 01, 50 02, 50 03; any other request keeps the session, any other 0x10 is refused |
| OnTheBus.ResetRequests | src/uds_reset.c:48-88 | exactly 11 01 and 11 03 are accepted, and echoed |
| OnTheBus.TesterPresentRequests | src/uds_server.c:294-304 | 0x3E is echoed unless the suppress bit is set |
| OnTheBus.EventRequests | src/uds_server.c:283-292 | 0x86 is echoed in three bytes |
| OnTheBus.UnknownRequests | src/uds_server.c:306-309 | every other service is refused with 0x11 |
| OnTheBus.PhysicalOnly | src/uds_server.c:226-281 | a functional 0x27, 0x2F, 0x34, 0x36 or 0x37 calls no hook, writes nothing to the store and gets no frame |
| OnTheBus.SeedRequests | src/uds_security.c:155-178 | in every run a seed request is answered with the entropy of the moment, with zeros once a key was accepted in this session, and with 0x36 during a lockout, all told from the log |
| OnTheBus.KeyRequests | src/uds_security.c:180-225 | in every run a key is refused unless the log holds an unanswered seed; otherwise the hook is asked about the level, that seed and the key bytes, its verdict decides the answer, and the store writes and the attempt limit follow the last counter write of the log |
| OnTheBus.OtherSecurityRequests | src/uds_security.c:129-151 | any other 0x27 is refused with 0x13, 0x36 or 0x12 |
| OnTheBus.WriteRequests | src/uds_write_did.c:22-68 | in every run the write hook is called exactly in the extended session with an accepted key, with identifier and data of the request; every refusal and hook error byte by byte |
| OnTheBus.IoControlRequests | src/uds_iocontrol.c:22-74 | the same for 0x2F |
| OnTheBus.DownloadRequests | src/uds_flash_pipeline.c:53-121 | in every run the erase hook is called exactly in a non-default session with an accepted key and a request of the announced length, with its big-endian address and size modulo 2^32 |
| OnTheBus.BlockRequests | src/uds_flash_pipeline.c:123-169 | in every run a 0x36 is passed to the flash exactly if a download is open and its number is one more than the blocks written since the erase, modulo 256; it is written where the image continues, below the end of the address space and if no erase has failed since the download was opened |
| OnTheBus.ExitRequests | src/uds_flash_pipeline.c:171-194 | in every run a 0x37 is accepted exactly if a download is open and at least one of its blocks was written |
| OnTheBus.ClearRequests | src/uds_clear_dtc.c:81-108 | in every run the answer of 0x14, by whether an accepted one is under way |
| OnTheBus.RoutineRequests | src/uds_routine.c:96-170 | in every run the answer of 0x31: a start is refused exactly while an accepted start's hook has not returned, 31 03 is answered with the results of the identifier sent |
| OnTheBus.ReadRequests | src/uds_server.c:197-224 | in every run reading any but the dynamic identifier answers the application's data for the identifier sent, or the mapped error |
| OnTheBus.DynamicReads | src/uds_dynamic_did.c:99-124 | in every run reading the last defined dynamic identifier gets one frame: the header alone if the source cannot be read, otherwise as many bytes as defined, the source's wherever the slice lies within it |
| OnTheBus.DefineRequests | src/uds_dynamic_did.c:56-87 | the answer of 0x2C |
| OnTheBus.PeriodicRequests | src/uds_periodic.c:69-106 | in every run a 2A 01 is accepted exactly if there were fewer than five starts since the last stop |
| OnTheBus.PeriodicFrames | src/uds_periodic.c:47-64 | a cycle sends, slot by slot in registration order, 2A, the slot and the data the application has for it |
| OnTheBus.ReportRequests | src/uds_read_dtc.c:60-85 | 19 02 answers 59 02 09 and, in id order, the four stored bytes of exactly the entries whose status shares a bit with the mask |
| OnTheBus.OtherDtcRequests | src/uds_read_dtc.c:45-112 | the other 0x19 requests: the freeze frame of the code and record number sent, or a refusal |
| FlashImage.ImageIsTheAcknowledgedPayload | src/uds_flash_pipeline.c:150-163 | in every run, from an accepted 0x34 on, flash from its address on holds the written payloads in order, each address written successfully exactly once and no other address at all, whatever failed writes left behind; inside the erased range if the total is at most the announced size |
| FlashImage.PipelinePhases | src/uds_flash_pipeline.c:133-190 | every write-hook call and every accepted 0x37 follows a successful erase with no accepted 0x37 or reboot in between, a 0x37 also an acknowledged block since that erase |
| FlashImage.RefusalsChangeNothing | src/uds_flash_pipeline.c:65-163 | a 0x34 or 0x36 step, however addressed: refused before its hook or with a failed write it leaves all five variables unchanged; with a failed erase it has replaced address and size only; a 0x36 is answered positively exactly if it moves the pipeline |
| FlashImage.FailedEraseRedirects | src/uds_flash_pipeline.c:89-109 | after a 0x34 whose erase failed mid-download, the next block is written at the offset where the old download would have continued exactly if the new address is the old one (what the failed erase did to earlier blocks is not said) |
| FlashImage.OtherStepsLeaveThePipeline | src/uds_flash_pipeline.c:38-42 | only physically addressed 0x34, 0x36 and 0x37 requests and reboots move the pipeline |
| Acknowledgements.AcknowledgementsCountBlocks | src/uds_flash_pipeline.c:133-168 | in every run the 0x76 frames on the bus since the last successful erase carry 1, 2, ... modulo 256 and are as many as the written blocks; only after a reboot may the last one be missing |
| WireToFlash.RunIsItsDeliveries | src/uds_flash_pipeline.c:123-169 | in every run, between an accepted 0x34 and the end of the transfer, pipeline, acknowledged blocks and written bytes are what the block deliveries alone make of them, whatever else happens |
| WireToFlash.OrderedIffNoAlias | src/uds_flash_pipeline.c:144-163 | in every run the blocks acknowledged on the bus are the image's first blocks, in order and each once, if and only if no delivered block has the next block's number without being it; one 0x76 frame for each |
| WireToFlash.NextBlockIsAcknowledged | src/uds_flash_pipeline.c:144-168 | progress: in every run a delivered block is acknowledged exactly if it has the next number and its flash write succeeds |
| WireToFlash.StreamedImageReachesTheFlash | src/uds_flash_pipeline.c:144-163 | end to end: an image streamed over a lossy, duplicating, reordering link, among any other traffic and failed writes, leaves exactly its first blocks in flash, as many as the tester has seen 0x76 frames |
| BlockSequence.InOrderIffNoAlias | src/uds_flash_pipeline.c:144-163 | for every sequence of deliveries the acknowledged blocks are a prefix of the image, in order, each once, if and only if no delivered block has the next block's number without being it |
| BlockSequence.WindowGivesOrder | src/uds_flash_pipeline.c:162 | that holds whenever every delivered block is within 255 of the next one, across every wrap of the counter |
| BlockSequence.WrittenIsThePrefix | src/uds_flash_pipeline.c:150-163 | then the bytes written are the image's first blocks, joined |
| BlockSequence.CounterFollows | src/uds_flash_pipeline.c:133-168 | the counter is one more than the number of acknowledged blocks, modulo 256, and a delivery is acknowledged and written exactly if it carries it and the write succeeds |
| FlashPipeline.DownloadRoundTrip | src/uds_flash_pipeline.c:75-98 | encoding an address and a size at any widths that hold them and parsing the 0x34 request recovers both |
| FlashPipeline.Pipeline.ParseFields | src/uds_flash_pipeline.c:89-98 | the parsing loops compute the big-endian values modulo 2^32 for all widths, inside the request |
| FlashPipeline.Pipeline.constructor | src/uds_flash_pipeline.c:44-51 | initial state |
| FlashPipeline.Pipeline.HandleRequestDownload | src/uds_flash_pipeline.c:53-121 | new state, erase call and answer of 0x34 |
| FlashPipeline.Pipeline.HandleTransferData | src/uds_flash_pipeline.c:123-169 | new state, write call and answer of 0x36 |
| FlashPipeline.Pipeline.HandleRequestTransferExit | src/uds_flash_pipeline.c:171-194 | new state and answer of 0x37 |
| BackgroundServices.ClearAnswersOnce | src/uds_clear_dtc.c:47-107 | in every run every accepted 0x14 has, in order, its own worker run with its own group and its own 0x54 frame on the bus; only the last may be under way |
| BackgroundServices.ClearRefusedWhileBusy | src/uds_clear_dtc.c:92-107 | in every run a well-formed 0x14 is refused with 0x22 exactly while an accepted one's worker has not returned, and accepted in silence otherwise |
| BackgroundServices.ClearOneAtATime | src/uds_clear_dtc.c:92-95 | no 0x14 of the run was ever accepted before the previous worker returned, none refused otherwise |
| BackgroundServices.NoLatePending | src/uds_clear_dtc.c:33-73 | of the service's frames on the bus after worker_done and before the next acceptance none is a 0x78, or at most one if callbacks are split at their reads of it; the timer expires at most once more, and silently: no 0x78 follows that expiry |
| BackgroundServices.RoutineAnswersMatchStarts | src/uds_routine.c:58-145 | in every run the final 0x71 01 frames on the bus are in order the answers to the accepted starts, with the start's identifier and status 0 exactly if its hook returned 0; the 0x78 timer is armed exactly while RUNNING whenever requests can run |
| BackgroundServices.RoutinePendingIsCovered | src/uds_routine.c:44-88 | in every run every 0x78 frame of service 0x31 on the bus lies between an accepted start and that start's final answer |
| Liveness.ClearRequestsGetAnswered | src/uds_clear_dtc.c:47-73 | every run can be continued by the worker's statements alone to one with as many 0x54 frames on the bus as accepted requests, the service ready again |
| Liveness.RoutineStartsGetAnswered | src/uds_routine.c:58-88 | every run can be continued by the worker's statements alone to one with as many final 0x71 01 frames on the bus as accepted starts, the 0x78 timer stopped |
| BackgroundServices.ProtocolsInEveryRun | src/uds_clear_dtc.c:26-31 | both protocols hold in every run, and the asynchronous frames on the bus are exactly those of their notes, in order |
| ClearDtc.HandleKeeps | src/uds_clear_dtc.c:87-107 | a 0x14 request keeps the protocol: accepted only after the previous worker has returned, refused only before |
| ClearDtc.StepKeeps | src/uds_clear_dtc.c:33-73 | every worker statement, whole callback and callback piece keeps the protocol |
| ClearDtc.OneRunOneAnswerEach | src/uds_clear_dtc.c:56-72 | in a log that keeps the protocol, requests, worker runs and answers match one to one and in order |
| ClearDtc.LatePending | src/uds_clear_dtc.c:36-44 | after worker_done at most the allowance of 0x78 frames and exactly one timer expiry are left until the next acceptance |
| ClearDtc.SilentExpiry | src/uds_clear_dtc.c:36-44 | no 0x78 follows a timer expiry that comes after worker_done |
| ClearDtc.NothingBeforeAcceptance | src/uds_clear_dtc.c:92-107 | before the first acceptance nothing happens at all |
| ClearDtc.WorkerAnswersEveryRequest | src/uds_clear_dtc.c:47-73 | from every reachable state the worker's remaining statements answer every accepted request and make the service ready |
| ClearDtc.ClearService.constructor | src/uds_clear_dtc.c:75-79 | initial state |
| ClearDtc.ClearService.HandleClearDtc | src/uds_clear_dtc.c:81-108 | new state and answer of 0x14 |
| ClearDtc.ClearService.TimerExpiry | src/uds_clear_dtc.c:33-45 | the whole supervisor callback |
| ClearDtc.ClearService.WorkerUntilSleep | src/uds_clear_dtc.c:47-66 | the worker up to its sleep is the composition of its statements |
| ClearDtc.ClearService.WorkerAfterSleep | src/uds_clear_dtc.c:66-73 | the rest of the worker, and its frame |
| RoutineControl.HandleKeeps | src/uds_routine.c:128-145 | a request keeps the protocol, also while the worker is still sending |
| RoutineControl.StepKeeps | src/uds_routine.c:44-88 | every worker statement and timer callback keeps the protocol |
| RoutineControl.AnswersMatchStarts | src/uds_routine.c:66-87 | in a log that keeps the protocol the k-th answer is the k-th start's |
| RoutineControl.WorkerAnswersEveryStart | src/uds_routine.c:58-88 | from every reachable state the worker's remaining statements answer every accepted start, also one queued while it was sending |
| RoutineControl.RoutineService.constructor | src/uds_routine.c:90-94 | initial state |
| RoutineControl.RoutineService.HandleRoutineControl | src/uds_routine.c:96-170 | new state and answer of 0x31 |
| RoutineControl.RoutineService.TimerExpiry | src/uds_routine.c:44-51 | the periodic callback |
| RoutineControl.RoutineService.WorkerUntilHook | src/uds_routine.c:58-66 | the worker up to its hook |
| RoutineControl.RoutineService.WorkerUntilSend | src/uds_routine.c:68-87 | the worker from its hook's return to its frame |
| UdsServer.ResponseDiscipline | src/uds_server.c:107-310 | over all states and non-empty requests: at most one synchronous frame, from which the service is recoverable; none exactly for suppressed TesterPresent, a 0x2A mode other than 1 or 4, an accepted 0x14 or start-routine, and a functional negative answer other than 0x78 |
| UdsServer.Server.constructor | src/uds_server.c:354-379 | the whole server's state after initialisation from a store |
| Device.Unit.constructor | src/uds_server.c:354-379 | the first power-on of the object is the first state of every run |
| Device.Unit.Perform | src/uds_server.c:148-310 | the server object, with its clock, store and log, takes exactly the steps of the transition system for every request, timer callback, worker stretch, cycle, power cut and reboot, so it is always at the end of a run |
| UdsServer.Server.ProcessRequest | src/uds_server.c:148-165 | the whole server's new state and everything it emits, in order, for any request; nothing is written behind the transmit buffer unless a read of the dynamic identifier does not fit |
| UdsServer.Server.Route | src/uds_server.c:167-310 | the same for the switch on the service identifier |
| UdsServer.Server.HandleBasic | src/uds_server.c:185-304 | the cases 0x11, 0x3E and 0x86: new state and answer |
| UdsServer.Server.HandleStateless | src/uds_server.c:193-252 | the cases 0x19, 0x22, 0x2E and 0x2F: state unchanged, hook calls and answer |
| UdsServer.Server.HandleStateful | src/uds_server.c:189-310 | the cases 0x14, 0x27, 0x2A, 0x2C and 0x31, and the default: new state, events and answer |
| UdsServer.Server.HandleFlash | src/uds_server.c:258-281 | the cases 0x34, 0x36 and 0x37: new state, hook calls and answer |
| UdsServer.Server.HandleSessionControl | src/uds_server.c:168-183 | state, events and answer of 0x10 |
| UdsServer.Server.HandleTesterPresent | src/uds_server.c:294-304 | answer of 0x3E |
| UdsServer.Server.HandleResponseOnEvent | src/uds_server.c:283-292 | answer of 0x86 |
| Kernel.Board.SendNrc | src/uds_server.c:107-119 | a negative response, dropped if functional and not 0x78 |
| SessionControl.SessionManager.constructor | src/uds_session.c:43-47 | initial state |
| SessionControl.SessionManager.RefreshTimer | src/uds_session.c:60-67 | restarts or stops the S3 timer |
| SessionControl.SessionManager.SetSession | src/uds_session.c:49-53 | sets the session and restarts or stops the timer |
| SessionControl.SessionManager.S3TimerExpiry | src/uds_session.c:31-41 | the S3 callback, on session, security and log |
| SecurityAccess.SecurityServer.constructor | src/uds_security.c:68-116 | the state after booting from a store |
| SecurityAccess.SecurityServer.LockoutTimerExpiry | src/uds_security.c:55-66 | the lockout callback, counter entry zeroed before flag entry |
| SecurityAccess.SecurityServer.ResetLockStatus | src/uds_security.c:123-128 | relocks unless locked out |
| SecurityAccess.SecurityServer.HandleRequest | src/uds_security.c:129-229 | new state, ordered events and answer of 0x27 |
| SecurityAccess.SecurityServer.HandleSeed | src/uds_security.c:155-178 | the same for a seed request |
| SecurityAccess.SecurityServer.HandleKey | src/uds_security.c:180-225 | the same for a key |
| ReadDtc.ReportParsesBack | src/uds_read_dtc.c:60-85 | for every store and mask, reading the 0x59 02 response record by record gives exactly the readable entries whose status meets the mask, in id order, in 3 + 4k <= 67 bytes |
| ReadDtc.MatchingIsTheFilter | src/uds_read_dtc.c:72-82 | the scan keeps every such entry, nothing else, in strictly increasing id order |
| ReadDtc.FillReport | src/uds_read_dtc.c:65-83 | the scanning loop fills the buffer with the header and those records |
| ReadDtc.HandleReadDtc | src/uds_read_dtc.c:31-112 | answer of 0x19 |
| DynamicDid.AssembledSlice | src/uds_dynamic_did.c:111-120 | for any entries, the k-th slice stands behind all earlier copied ones and is exactly the requested part of its source |
| DynamicDid.AssembleLength | src/uds_dynamic_did.c:118-122 | the payload length is the sum of the copied lengths |
| DynamicDid.SliceAnswer | src/uds_dynamic_did.c:75-120 | defining and then reading answers the slice |
| DynamicDid.DefinitionFits | src/uds_dynamic_did.c:111-120 | a slice within its source always fits the transmit buffer |
| DynamicDid.DynamicDids.HandleDefine | src/uds_dynamic_did.c:56-87 | new state and answer of 0x2C |
| DynamicDid.DynamicDids.ReadPayload | src/uds_dynamic_did.c:99-124 | the assembly loop, for up to four entries of any length; if the slices fit, nothing is written behind the transmit buffer |
| DynamicDid.DynamicDids.HandleRead | src/uds_server.c:197-224 | answer of 0x22 |
| Periodic.RegistryIsTheFirstStarts | src/uds_periodic.c:78-105 | for every history of requests, the registry is the first five starts since the last stop |
| Periodic.RepeatedAt | src/uds_periodic.c:47-64 | over n cycles each slot comes up exactly n times, in registration order |
| Periodic.PeriodicReader.HandlePeriodicRequest | src/uds_periodic.c:69-106 | new state and answer of 0x2A |
| Periodic.CycleSamplesEverySlot | src/uds_periodic.c:55-63 | one cycle asks for every slot once, in registration order |
| Periodic.PeriodicReader.Cycle | src/uds_periodic.c:47-64 | the loop asks for the slots and sends what there is, as one cycle of the run model does |
| Periodic.PeriodicReader.Cycles | src/uds_periodic.c:47-64 | n passes of the thread ask for n copies of the registry |
| DataStorage.CacheCoherence | src/uds_data_storage.c:28-79 | over every life, the RAM copy is the last persisted VIN or the factory value if and only if the last boot did not find the storage context missing although another VIN had been persisted |
| DataStorage.StableContextIsCoherent | src/uds_data_storage.c:36-45 | with a stable storage context it always is |
| DataStorage.StoreIsLastPersisted | src/uds_data_storage.c:67-72 | the store always holds the last persisted VIN |
| DataStorage.Perform | src/uds_data_storage.c:28-79 | the class takes the steps these lemmas are about |
| DataStorage.LoadedByte | src/uds_data_storage.c:33-45 | each byte of a loaded VIN is the stored one as far as the entry reaches, the factory value's behind it |
| DataStorage.VehicleData.Init | src/uds_data_storage.c:28-46 | factory value first, then what the store has |
| DataStorage.VehicleData.SetVin | src/uds_data_storage.c:53-79 | result, RAM copy and store after a set |
| GatedServices.HandleWriteDid | src/uds_write_did.c:22-68 | hook call and answer of 0x2E |
| GatedServices.HandleIoControl | src/uds_iocontrol.c:22-74 | hook call and answer of 0x2F |
| EcuReset.ResetService.constructor | src/uds_reset.c:26-46 | initial state |
| EcuReset.ResetService.HandleReset | src/uds_reset.c:48-88 | the chosen reset kind, the restarted 50 ms timer and the answer of 0x11 |
| EcuReset.ResetService.ResetTimerExpiry | src/uds_reset.c:35-41 | the reboot call, with the chosen kind |

## Left out

- UdsServer.Server.ProcessRequest: when a read of the dynamic identifier does not fit the transmit buffer (never so for a slice within its source, `DefinitionFits`), the code copies on and sends from the memory behind it without a check; that memory is an array of its own here, so what the copy does to other variables is not modelled.
- DynamicDid.DynamicDids.ReadPayload: bytes copied from outside the source data are arbitrary values, not a memory fault.
- FlashImage.ImageIsTheAcknowledgedPayload: excludes a later 0x34 whose erase fails and blocks that pass the end of the 32-bit address space (`FailedEraseRedirects` says what the first does); a hook call is one event, so a power cut inside a single flash write is not modelled.
- AttemptResults.FailedAttemptsAreBounded: assumes that the store is mounted and that each of its writes is atomic and succeeds; its condition on the number of power cuts is shown to suffice, not to be sharp.
- Device.Unit.Perform: for a power cut the object runs the handler and keeps the events before the cut; split timer callbacks of service 0x14 exist in the transition system only.
- CAN and ISO-TP binding, the receive loop and transmission: a sent frame is an event.
- Flash page discovery, partition arithmetic and mounting of the store.
- The entropy source and its uptime fallback: a seed is an arbitrary value.
- The bodies of the application hooks, including the weak defaults: arbitrary results and, for a failed flash call, arbitrary bytes in its range.
- A timer that expires while a handler waits in an application hook: handlers are one step. An S3 expiry inside a verify, erase or write hook that blocks longer than S3 is not modelled; the handler would then go on in the default session with what it decided before.
- What a warm and a cold reboot do differently below the server.
- The 20 ms periods of the 0x78 timers and the 10 ms pauses: these timers may expire at any time while armed.
- More than one processor: a request that preempts a worker between two statements without a blocking call, and memory ordering.
- The periodic thread interleaved with the middle of a request handler.
- `uds_trigger_event_response`, logging, Kconfig and CMake.
- The vehicle data component is not called by the server and has a transition system of its own.
