# A verified model of the sandbox service

This project models, in Dafny, the parts of a code-sandbox service whose behaviour is hardest to
see from one function, and proves properties of them over every input, run or interleaving:

- the warm-pool counters and claims of the two database backends. The document backend's bounded
  compare-and-set loops are a state machine of any number of actors; the relational backend's
  row-locked transactions are its atomic specification (`WarmPoolSegments`, `SegmentProtocol`,
  `SegmentStores`, `WarmSandboxes`, `ClaimStores`, `ClaimProtocol`), with the expiring lock
  document beside them (`AdvisoryLock`);
- the guest daemon's process events and their late-joining readers (`ProcessEvents`,
  `EventStreams`), the enveloped messages of the Connect protocol (`ConnectFraming`), and the
  reader that cuts one command's output out of a shared shell (`ShellReader`, `ShellSession`), also
  over a stream with a gap (`ShellOverConnect`);
- the gateway's host names and its forward-to-owner hop (`HostParse`, `GatewayRouting`);
- tar names, file watching, upload chunks, template aliases, text timestamps and registry
  references (`TarNames`, `Watcher`, `Uploads`, `TemplateAlias`, `Timestamps`, `RegistryRefs`).

`Text` holds string functions shared by several modules, `Wrappers` the option type.

Database calls are atomic steps. A call's arguments are the values after the source's own
conversions (a key stripped, a count made an integer). Clock readings are parameters; in the
protocol modules a time is a number. Where texts of times are compared, `Timestamps` says what
that adds, and `AdvisoryLock` uses its comparison on microseconds. An update that
matches a document counts as a modified one. Strings are character sequences, white space and
digits the ASCII ones.

## What turned out not to hold

- The lock compares expiries as text, and a whole second prints without a fraction: an owner can
  lose the lock up to a second early (`AdvisoryLock.EarlyTakeover`). `AdvisoryLock.TakesEarlyIff` is
  the exact step, `OrderlyExclusionIff` the exact condition on a run, and a second's margin always holds.
- Two overlapping calls of one lock owner can lower the stored expiry, after which another owner
  may enter while the first still counts on its grant (`AdvisoryLock.OverlappingCallsBreakExclusion`).
- Events emitted while a Connect stream walks its copy of the history are lost to it, and an end
  event lost that way leaves the stream waiting (`EventStreams.EndCanBeLost`, `LostEndNeverFinishes`).
- An exit code is cut short when an event boundary falls inside its digits, and a command's output
  keeps a leading newline when one falls right after the start marker (`ShellSession.ExitCodeCanBeCut`,
  `NewlineCanStay`).
- A parsed host does not always print back to itself: an identifier with outer white space, or a
  domain that ends like a port (`HostParse.BlankIdentifierDoesNotReparse`, `DomainLikeAPortDoesNotParse`).
- Watcher events carry base names, from which a tree with equal names cannot be followed
  (`Watcher.EqualNamesLoseAFile`).
- The desired size can be lowered between a reservation's read and its compare-and-set, which
  does not notice (`SegmentProtocol.SizeCanBeLoweredUnseen`; when it still fits, `GrantFitsInEveryRun`).

Each has its exact condition beside it.

## Model

| member | source | states |
|---|---|---|
| WarmPoolSegments.ReserveIsMaximal | api-service/database/postgres.py:1341-1363 | A reservation grants at most the batch, never more than fits the desired size, and less than the batch only when the segment is then full; a clamp never raises the counter, and nothing but the counter and its times changes. |
| WarmPoolSegments.ClampGrantsNothing | api-service/database/postgres.py:1345-1354 | A row that has to be clamped is set to the useful slots and grants nothing in the same transaction. |
| WarmPoolSegments.GrantFitsDesiredSizeIff | api-service/database/mongo.py:704-732 | In any log, right after an entry that granted slots: ready plus in-flight is the lesser of the size that was read and what ready, the counter before and the batch come to; so it fits the stored size if and only if that is not below the one read, or the batch alone fits. |
| WarmPoolSegments.GrantFitsDesiredSize | api-service/database/mongo.py:704-732 | In particular it is within the size read, and within the stored one unless that was lowered, for whoever has no more sandboxes ready than the caller said. |
| WarmPoolSegments.StaleGrantAgreesIff | api-service/database/mongo.py:720-735 | The compare-and-set does not test `desired_size`: a grant computed from a stale size is the transaction's own exactly when the free room, cut at the batch, came out the same. |
| WarmPoolSegments.StaleClampAgreesIff | api-service/database/mongo.py:711-719 | A clamp computed from a stale size is the transaction's own exactly when both sizes leave the same useful slots. |
| WarmPoolSegments.OutstandingNonNegative | api-service/database/mongo.py:763-788 | No set of workers that each give back only what they hold themselves ever holds a negative number of slots. |
| WarmPoolSegments.DisciplinedIsPooled | api-service/database/mongo.py:763-788 | Workers that give back only what they hold never give back more than is outstanding. |
| WarmPoolSegments.InflightWithinOutstanding | api-service/database/mongo.py:704-758 | In every log in which no completion gives back more than is outstanding, whoever reserved it, the counter is between zero and the slots outstanding. |
| WarmPoolSegments.InflightIsOutstanding | api-service/database/mongo.py:692-788 | It is equal to them as long as only completions lowered it (no clamp, reset or disable took effect). |
| WarmPoolSegments.FailuresAreConserved | api-service/database/mongo.py:632-788 | Over any log of transactions a segment's failure count grows by exactly the slots given back as failed and its hand-off count by the hand-offs, and it keeps its time of creation. |
| WarmPoolSegments.ResetClearsIff | api-service/database/mongo.py:743-758 | In every log, of what a grant or a completion last left of a segment's reservations: a reset clears them exactly when some are left and the text of their time is at or before its cutoff's, and leaves the counter otherwise. |
| WarmPoolSegments.ResetClearsInitialIff | api-service/database/postgres.py:1387-1395 | Reservations that were there from the start are cleared by their own time or, without one, by the segment's creation. |
| WarmPoolSegments.ResetIsRightToTheSecond | api-service/database/mongo.py:743-758 | No reservation younger than the cutoff by a second is cleared, and every one older by a second is. |
| WarmPoolSegments.FieldsAreLastSet | api-service/database/mongo.py:632-670 | In every log a segment's size and configuration are those of the last upsert or disable, its refill and hand-off times those of the last grant and hand-off, and it exists exactly when it did or was upserted. |
| SegmentProtocol.EveryCallIsOneTransaction | api-service/database/mongo.py:692-788 | Linearisability: in every interleaving of any number of actors the collection is what the logged transactions leave one after the other; a returned call is exactly one of them, between its start and its return and with its answer, or it was refused having written nothing. |
| SegmentProtocol.RefusedAfterEightRivals | api-service/database/mongo.py:703-736 | A call is refused for want of tries in its eighth, and only after at least eight transactions of others took effect on its key between its start and its return. |
| SegmentProtocol.FreshRunsRefineTransactions | api-service/database/postgres.py:1310-1449 | Refinement: when reservations commit against the desired size they read, the collection and every answer of a whole run are those of the row-locked transactions. |
| SegmentProtocol.SlotsAreConserved | api-service/orchestrator/warm_sandbox_pool.py:430-540 | Conservation over every interleaving with clamps, resets, disables and upserts, when each slot won is given back at most once, by whichever actor: 0 <= counter <= outstanding, with equality while only completions lower it. The refill loop reserves; other threads complete. |
| SegmentProtocol.WorkersConserveSlots | api-service/database/mongo.py:704-852 | The corollary for workers that give back what they won themselves. |
| SegmentProtocol.GrantFitsInEveryRun | api-service/database/mongo.py:704-732 | The same equality and condition right after every grant of every run of the state machine. |
| SegmentProtocol.SizeCanBeLoweredUnseen | api-service/database/mongo.py:720-735 | A run in which it is lowered: size 5 is read, an upsert makes it 1, the compare-and-set still matches and leaves 5 in flight. |
| SegmentStores.MongoSegments.ReserveWarmPoolSlots | api-service/database/mongo.py:692-736 | The loop as written, with other callers' transactions before each database access: it ends as one transaction with the answer given or refuses silently; alone it is the row-locked transaction. |
| SegmentStores.MongoSegments.ReserveOnce | api-service/database/mongo.py:704-735 | One turn of that loop: finished as a transaction, or nothing of this call is written; alone it always finishes. |
| SegmentStores.MongoSegments.CompleteWarmPoolSlots | api-service/database/mongo.py:763-788 | The same for giving slots back. |
| SegmentStores.MongoSegments.ResetWarmPoolInflight | api-service/database/mongo.py:738-758 | The filter's branches on the reservation time, or the creation time without one, select exactly what COALESCE does in the other backend. |
| SegmentStores.MongoSegments.DisableWarmPoolSegment | api-service/database/mongo.py:834-852 | One update that is the disable transaction. |
| SegmentStores.PostgresSegments.ReserveWarmPoolSlots | api-service/database/postgres.py:1310-1366 | The locked transaction step by step leaves the row and returns the number the specification gives. |
| WarmSandboxes.ScanMeaning | api-service/database/mongo.py:562-618 | A claim hands out a row exactly when it is healthy, every candidate created before it is unhealthy and there are fewer than eight of those; it marks lost exactly the unhealthy rows it reaches and changes nothing else. |
| WarmSandboxes.ClaimedRows | api-service/database/mongo.py:562-612 | On the fields: what a claim makes of every row. It is untouched; or it waited for the key and gateway with an error and is now lost, in no pool and otherwise as it was; or it waited without one and is the claimer's, with its API key, its time to live, and a lease of that or of a minute at least. |
| WarmSandboxes.OlderRowsHaveErrors | api-service/database/mongo.py:563-582 | Every row that waited for the same and was created before the one handed out had an error, and is lost. |
| WarmSandboxes.NothingLeft | api-service/database/mongo.py:562-566 | A claim that gets nothing although a sound row waits had eight rows with errors in front of it. |
| WarmSandboxes.MergedMeaning | api-service/database/mongo.py:583-590 | The metadata written: updates over the row's own, without the marker, and the waiting time it carried grown by this claim's wait. |
| WarmSandboxes.StaleMetadataAgreesIff | api-service/database/mongo.py:583-612 | The write is computed from the earlier read; it equals one computed at the write exactly when no key outside the claimer's updates had changed (marker aside). |
| ClaimStores.ClaimedMeaning | api-service/database/postgres.py:1010-1121 | What the caller of either backend gets: the oldest healthy row within reach, owned by it, without the marker, and one hand-off counted for it and for no other segment. |
| ClaimStores.ClaimFields | api-service/database/postgres.py:1039-1121 | What the caller of either backend gets, on the fields: a row that waited for it without an error, now its own; and without a key nothing happens. |
| ClaimStores.MongoPool.ClaimWarmPoolSandbox | api-service/database/mongo.py:538-620 | Alone, the loop is the scan. |
| ClaimStores.PostgresPool.ClaimWarmPoolSandbox | api-service/database/postgres.py:1039-1121 | The transaction's loop is the same scan, so both backends compute the same function. |
| ClaimProtocol.ClaimsAreExclusive | api-service/database/mongo.py:555-612 | For every interleaving of claimers with the rest of the service: no sandbox is handed out twice, and none is both handed out and marked lost by a rival. |
| ClaimProtocol.WaitingNeverComesBack | api-service/database/mongo.py:567-612 | A sandbox that has left the pool never waits again, in any continuation. |
| ClaimProtocol.StepTakesWaiting | api-service/database/mongo.py:568-612 | In every state: a step that wins takes a running row that waits for the claimer's key at that moment and makes it the claimer's; one that loses takes a row that waits; and no other row changes. |
| ClaimProtocol.FindSeesWaiting | api-service/database/mongo.py:555-582 | A claimer goes for a row it has seen waiting without an error, or marks one it has seen with one; it gives up only when none waits. |
| ClaimProtocol.HandoffsAreConserved | api-service/database/mongo.py:613-617 | Counted hand-offs, winners about to count and hand-offs that found no segment add up to the claims won, at every point of every run. |
| ClaimProtocol.ExistingSegmentsMissNothing | api-service/database/mongo.py:600-618 | For a segment that exists, hand-offs plus winners about to count equal the claims won. |
| AdvisoryLock.CallSteps | api-service/database/mongo.py:281-308 | What each step of a call does: it succeeds by writing the document for its time to live, exactly when the document is its own, passed as texts go or without expiry, or is not there; it fails only because the document is there. |
| AdvisoryLock.TakeoverMeaning | api-service/database/mongo.py:281-308 | In every interleaving of update, look-up and insert, however old the captured time: another owner succeeds less than a second before the stored expiry at the earliest, and acts on a time before it exactly when that time is a whole second and the expiry lies within it. |
| AdvisoryLock.TakesEarlyIff | api-service/database/mongo.py:281-301 | The guard of a takeover of a live document, on the call's own variables: an update by another owner whose captured time is the whole second that the expiry lies within. |
| AdvisoryLock.EarlyTakeover | api-service/database/mongo.py:268-301 | An orderly run in which the lock is lost half a second early: the expiry is second 30.5, the rival reads 30. |
| AdvisoryLock.CoverIsLostIff | api-service/database/mongo.py:281-301 | The failing steps, on every clock and for every margin: the stored expiry stops covering the live grants exactly when it was itself live and its owner lowers it or another takes it over. |
| AdvisoryLock.CoverHoldsIff | api-service/database/mongo.py:264-308 | Over whole runs: no step breaks the cover if and only if it holds in every state, and then at most one owner has a live grant. |
| AdvisoryLock.ExclusiveForeverIff | api-service/database/mongo.py:264-308 | On every clock: at most one owner holds an unexpired lock, now and in every continuation without such a step, if and only if the stored expiry covers every unexpired grant, or those end with the second after a whole-second expiry, in which the texts keep everyone else out. |
| AdvisoryLock.OrderlyExclusionIff | api-service/orchestrator/sandbox_gateway_ops.py:167-200 | When each owner's calls do not overlap and each owner keeps its own time to live, on every clock and for every margin: at most one owner has a grant that outlives the clock by the margin in every state of the run, if and only if no step takes over a document that does. The service's one caller makes an owner's calls under a mutex. |
| AdvisoryLock.OrderlyRunsExclude | api-service/database/mongo.py:268-308 | So no two owners ever hold an unexpired lock in a run in which no caller reads a whole second. |
| AdvisoryLock.OrderlyRunsExcludeToTheSecond | api-service/database/mongo.py:268-308 | And whatever the clock, no two owners ever have a second left each. |
| AdvisoryLock.OverlappingCallsBreakExclusion | api-service/database/mongo.py:281-301 | Without that order exclusion fails by far more than a second: two overlapping calls of one owner can lower the expiry and let a rival in early. |
| AdvisoryLock.LockCollection.AcquireAdvisoryLock | api-service/database/mongo.py:264-308 | Alone: the lock is given exactly to a caller that finds it free, its own, expired as texts compare, or without expiry, for its time to live and five seconds at least. |
| ConnectFraming.CutInvertsEncode | api-service/handlers/daytona_compat_support.py:581-599 | Cutting undoes encoding for any frames, whatever partial envelope follows. |
| ConnectFraming.EncodeInvertsCut | api-service/handlers/daytona_compat_support.py:585-599 | Every buffer is the envelopes cut from it followed by a leftover shorter than the envelope it starts. |
| ConnectFraming.ChunkingDoesNotMatter | api-service/handlers/daytona_compat_support.py:585-599 | For every partition into chunks: the messages and the leftover of the whole stream parsed at once. |
| ConnectFraming.ClientReceivesServerStream | api-service/envd_guest/server.py:121-128 | Whatever the chunks, the client gets exactly the messages the server framed, in order, with nothing left over after the end frame. |
| ConnectFraming.ServerStreamExistsIff | api-service/envd_guest/server.py:121-123 | There is a stream exactly when every payload is shorter than 2^32 bytes. |
| ConnectFraming.ServerStreamIsInjective | api-service/envd_guest/server.py:121-128 | No two lists of messages look alike on the wire. |
| ConnectFraming.ServerReadsClientFrames | api-service/envd_guest/server.py:89-101 | For every payload and whatever follows, the server reads what a client frames: a plain message by its payload; it refuses a compressed one and an end of stream. |
| ConnectFraming.ShortBodiesAreRefused | api-service/envd_guest/server.py:89-101 | Every body cut short is refused: as invalid without a whole header, as truncated otherwise. |
| ConnectFraming.WireFormat | api-service/handlers/daytona_compat_support.py:581-583 | On the wire: the flag, the length from its highest byte to its lowest, the payload. |
| ConnectFraming.EmptyStream | api-service/envd_guest/server.py:126-128 | The end of a stream, byte by byte. |
| ConnectFraming.FramesKept | api-service/handlers/daytona_compat_support.py:594-598 | The client drops exactly the frames that carry the end flag. |
| ConnectFraming.ReadsExactlyPlainEnvelopes | api-service/envd_guest/server.py:89-101 | The server's reader accepts a body exactly when it starts with an uncompressed, non-end envelope, and reads its payload. |
| ConnectFraming.ParseConnectMessages | api-service/handlers/daytona_compat_support.py:585-599 | The loop that deletes from the buffer in place. |
| ConnectFraming.ReceiveAll | api-service/handlers/daytona_compat_support.py:789-793 | The receive loop over transport chunks gives the messages of the whole stream. |
| ProcessEvents.ManagedProcess.Emit | api-service/envd_guest/server.py:273-276 | An event is appended to the history and to every subscriber's queue; each subscriber has then been given exactly the history since it joined. |
| ProcessEvents.ManagedProcess.EmitData | api-service/envd_guest/server.py:278-288 | Empty data is not emitted. |
| ProcessEvents.ManagedProcess.EmitEnd | api-service/envd_guest/server.py:290-304 | Only the first end counts; it gives up the terminal. |
| ProcessEvents.ManagedProcess.Subscribe | api-service/envd_guest/server.py:265-268 | A new queue starts at the end of the history. |
| ProcessEvents.ManagedProcess.Unsubscribe | api-service/envd_guest/server.py:270-271 | Only that subscriber leaves. |
| ProcessEvents.Queue.Get | api-service/envd_guest/server.py:463-473 | Taking an event moves it from what is queued to what was taken; the sum stays the history since the queue joined. |
| ProcessEvents.AppendKeepsOneEnd | api-service/envd_guest/server.py:290-300 | A history keeps at most one end event. |
| EventStreams.HistoryIsEmitted | api-service/envd_guest/server.py:273-304 | For every run the history is exactly the events emitted, each as often as it was and in order, but for empty data and ends after the first. |
| EventStreams.EveryReaderIsSound | api-service/envd_guest/server.py:455-475 | For every interleaving of emitters and readers: what a reader was given is its copy of the history and then everything from its subscription on; a finished stream ends with the first end it was given; the history holds at most one end. |
| EventStreams.ResumeReadsNext | api-service/envd_guest/server.py:460-475 | A reader with an event in front of it reads that event when it resumes, and no other; the other readers do not move. |
| EventStreams.LegacySeesWholeHistory | api-service/envd_guest/server.py:652-676 | For every interleaving the legacy stream sees what the process emitted from the beginning, once and in order, up to the end event. |
| EventStreams.ConnectIsCompleteIff | api-service/envd_guest/server.py:455-475 | A Connect stream that follows is given all that was emitted exactly when nothing was between its copy and its subscription. |
| EventStreams.FinishedIsCompleteIff | api-service/envd_guest/server.py:455-475 | A stream that has finished has seen all that was emitted up to the end, again exactly then. |
| EventStreams.LostEndNeverFinishes | api-service/envd_guest/server.py:460-475 | If the end event falls in that gap the stream never finishes, in any continuation. |
| EventStreams.CanFinishIff | api-service/envd_guest/server.py:455-475 | Once the process has ended a stream can still finish, for every interleaving so far, exactly when the end is neither lost to it nor missing from the copy it walks. |
| EventStreams.EndCanBeLost | api-service/envd_guest/server.py:460-468 | A run in which it does. |
| ShellReader.CollectShellCommandResult | api-service/handlers/daytona_compat_support.py:764-818 | The read loop computes the specification's outcome for every list of events. |
| ShellReader.EveryProgressMeans | api-service/handlers/daytona_compat_support.py:773-818 | After any events: the shell exited early exactly when its end came before both markers; otherwise complete exactly when both markers are in the text, with the error text that arrived after the start marker and before the end marker. |
| ShellReader.ResultIsBetweenMarkers | api-service/handlers/daytona_compat_support.py:773-815 | The result depends only on the concatenated text: complete exactly when an end marker follows a start marker, stdout is what lies between the first of each, up to one leading newline, for every split; stderr is the error text that arrived between the two. |
| ShellReader.OneNewlineIsDropped | api-service/handlers/daytona_compat_support.py:757-762 | One newline in front is dropped, in either form, and nothing else. |
| ShellReader.NegativeExitCode | api-service/handlers/daytona_compat_support.py:810-811 | A minus sign makes the exit code negative, and a tail that starts with no number makes it zero. |
| ShellSession.ExitCodeIsStatusIff | api-service/handlers/daytona_compat_support.py:757-812 | The parsed exit code is the printed status exactly when all its digits had arrived with the end marker, or it is zero. |
| ShellSession.CommandGetsItsOutput | api-service/handlers/daytona_compat.py:1431-1438 | For every split, the reader of a command gets its output, with a newline in front exactly when an event ended between the start marker and its newline. |
| ShellSession.CommandGetsItsStatusIff | api-service/handlers/daytona_compat.py:1433-1438 | And its exit code exactly when no event boundary cuts the status off, or the status is zero. |
| ShellSession.EachCommandGetsItsOwn | api-service/handlers/daytona_compat.py:1429-1441 | In a shared shell with distinct markers every command's reader returns that command's output from the whole transcript, with a newline in front exactly when an event ended between the start marker and its newline, and its status exactly when that arrived whole or is zero. |
| ShellSession.ExitCodeCanBeCut | api-service/handlers/daytona_compat_support.py:800-812 | For every command and every event boundary inside the digits of a non-zero status the exit code is another one. |
| ShellSession.NewlineCanStay | api-service/handlers/daytona_compat_support.py:757-762 | For every command an event that ends with the start marker leaves a newline in front of the output. |
| ShellOverConnect.CompletesIff | api-service/handlers/daytona_compat_support.py:776-815 | The reader listens on the Connect stream: it has its result exactly when both markers are in what is left of the text around the stream's gap. |
| ShellOverConnect.GapMissesCommand | api-service/handlers/daytona_compat_support.py:776-815 | When the gap ends before the command's text or starts behind it, the reader gets the command's own output and status, under the exact conditions of the whole transcript. |
| ShellOverConnect.GapTakesStart | api-service/handlers/daytona_compat_support.py:776-815 | When what is left holds no start marker, the reader waits on. |
| ShellOverConnect.TextIsOutput | api-service/handlers/daytona_compat_support.py:797-816 | Only what the process prints to its output counts as text, byte by byte. |
| HostParse.ParseInvertsPrintIff | runtime-gateway/host_parse.py:8-76 | Outside debug mode parsing inverts printing for every port 1..65535 and every trimmed, comma-free, non-empty identifier, exactly when the domain is non-empty, comma-free and does not end like a port. |
| HostParse.ParseInvertsPrintWithPortIff | runtime-gateway/host_parse.py:41-76 | The same with a `:digits` suffix, where the domain may end like a port. |
| HostParse.ReparseIsStableIff | runtime-gateway/host_parse.py:41-76 | Printing a parsed host and parsing again gives the same pair exactly when the identifier is trimmed and the domain does not end like a port. |
| HostParse.BlankIdentifierDoesNotReparse | runtime-gateway/host_parse.py:60-74 | A host for which it does not. |
| HostParse.DomainLikeAPortDoesNotParse | runtime-gateway/host_parse.py:49-56 | Under the domain `d:80` no printed host parses back. |
| HostParse.PrintThenParse | runtime-gateway/host_parse.py:8-76 | For every port and domain and every trimmed, comma-free identifier, parsing a printed host gives the pair, nothing, or a shorter identifier. |
| HostParse.ParsedIsInRange | runtime-gateway/host_parse.py:36-76 | Whatever is parsed names a port from 1 to 65535 and a sandbox. |
| HostParse.DomainIsCleaned | runtime-gateway/host_parse.py:57-58 | White space around the domain and dots in front of it do not count. |
| HostParse.FirstOfList | runtime-gateway/host_parse.py:44 | Of a list of hosts the first one counts. |
| HostParse.HeadersDoNotCount | runtime-gateway/host_parse.py:36-55 | In production the headers that name a target do not count. |
| HostParse.DebugRoundTrip | runtime-gateway/host_parse.py:17-55 | Round trip in debug mode: the printed local address and a header with the identifier give the pair back, and so do the two headers, whatever the host. |
| GatewayRouting.OneHopIff | runtime-gateway/middleware.py:31-131 | Under a stable route table, with a gateway name that is not itself a sandbox host: a forwarded request makes exactly one hop if and only if the route base reaches the owner or an unnamed gateway, otherwise it is forwarded without end; the next gateway reads the same port and sandbox. |
| GatewayRouting.HopsOnTheWay | runtime-gateway/middleware.py:84-119 | From the first hop on, the number of further hops, for every limit. |
| GatewayRouting.CarriedTargetIsRead | runtime-gateway/middleware.py:253-317 | A gateway called by a name that is no sandbox host reads the forwarded target and does not ask for the ingress secret again. |
| GatewayRouting.AdmittedIff | runtime-gateway/middleware.py:319-347 | The traffic check admits exactly: everyone to a public route; a request to the envd port with an access token or a signature; and one that brings the route's own token. |
| GatewayRouting.DeniedWhy | runtime-gateway/middleware.py:339-346 | The reason it gives: no token is set, none is brought, or another one is. |
| GatewayRouting.IngressAdmittedIff | runtime-gateway/middleware.py:253-278 | The ingress check admits exactly: local requests that name their sandbox, forwarded ones, every one where no secret is set, and one that brings the secret. |
| GatewayRouting.GuestIff | runtime-gateway/middleware.py:66-131 | A request reaches the guest, with its headers as they came, exactly when it is for a sandbox, both checks admit it, and its route is found and served here. |
| GatewayRouting.ForwardIff | runtime-gateway/middleware.py:66-106 | It is forwarded exactly when its route is another reachable gateway's, refused when none is found, denied when the ingress check says so, and passed on exactly when it is for no sandbox. |
| GatewayRouting.HostDecides | runtime-gateway/middleware.py:41-56 | In production a sandbox's host name decides, whatever the headers and the query say. |
| GatewayRouting.LocalQueryIsRead | runtime-gateway/middleware.py:285-304 | A request to a local address, with a port or without, is for the sandbox and port its query names. |
| GatewayRouting.LocalSixIsRead | runtime-gateway/middleware.py:287-291 | Of the sixth version's local address only the form in brackets and without a port is taken. |
| GatewayRouting.GuestPortGoesFirst | runtime-gateway/middleware.py:296-297 | A guest port in the query goes before a port. |
| GatewayRouting.SentOverHttp | runtime-gateway/middleware.py:145-156 | Every header but those of the connection itself is sent on as it came. |
| GatewayRouting.SentOverWebSocket | runtime-gateway/middleware.py:210-219 | Over a web socket the listed headers that are not blank are sent on, stripped, and nothing else. |
| GatewayRouting.HttpOwnerAnswersAlike | runtime-gateway/middleware.py:145-156 | For HTTP the owner's traffic check answers as for the original headers. |
| GatewayRouting.WebSocketOwnerAnswersAlikeIff | runtime-gateway/middleware.py:200-219 | For a web socket it does exactly when the request does not rest on the `x-access-token` exemption, which is not sent on. |
| TarNames.RelativeAcceptedIff | api-service/handlers/build_context.py:191-197 | A relative name is accepted exactly when no prefix of its parts leads above the start and the whole leads below it; it escapes exactly when some prefix leads above. |
| TarNames.AbsoluteAcceptedIff | api-service/handlers/build_context.py:191-197 | An absolute name never escapes; it is accepted exactly when it leads below the root, `..` at the root leading nowhere, with as many names as it is deep, and as the relative path behind its slashes would be when `..` never meets the root. |
| TarNames.AcceptedIsNormal | api-service/handlers/build_context.py:191-197 | Every accepted result is relative, has no `..`, `.` or backslash, and is a fixed point. |
| TarNames.CheckedIsKept | api-service/handlers/build_context.py:192-197 | What is checked is the normalised parts, joined. |
| TarNames.NameIsKept | api-service/handlers/build_context.py:192 | A name is kept behind what the path in front of it leads to. |
| TarNames.DotLeadsNowhere | api-service/handlers/build_context.py:192 | Empty parts and `.` lead nowhere, wherever they stand. |
| TarNames.NameAndBack | api-service/handlers/build_context.py:192 | Going into a name and up again leads nowhere, wherever it stands. |
| TarNames.UpFromTheTop | api-service/handlers/build_context.py:192 | Above its start a relative path goes on upwards, an absolute one stays at the root. |
| TarNames.BackslashesAreSlashes | api-service/handlers/build_context.py:192 | Names that differ in the direction of their slashes are treated alike. |
| Watcher.PolledWatcher.Poll | api-service/envd_guest/server.py:214-230 | One poll replaces the snapshot and reports the difference, creations and changes and removals each in path order. |
| Watcher.NoEventIff | api-service/envd_guest/server.py:217-228 | A path has no event exactly when it is in neither snapshot or has equal time, size and mode in both. |
| Watcher.EventMeaning | api-service/envd_guest/server.py:217-229 | Which event a path has, exactly: a change of permissions goes before one of time or size. |
| Watcher.PollReplays | api-service/envd_guest/server.py:214-230 | One poll's events take the old path set to the new one. |
| Watcher.PollsReplay | api-service/envd_guest/server.py:214-230 | Replaying the events of any number of polls over the first paths gives the last paths. |
| Watcher.NamesReplayIff | api-service/envd_guest/server.py:233-239 | The wire carries base names only: a client follows a poll from them exactly when no removed path shares its name with one still there. |
| Watcher.EqualNamesLoseAFile | api-service/envd_guest/server.py:233-239 | Two files of one base name, one of them removed: the client loses both. |
| Timestamps.TextOrder | api-service/database/common.py:29-30 | What the string order of two stored timestamps says about their fields. |
| Timestamps.TextOrderDisagreesIff | api-service/database/mongo.py:743-752 | String order differs from time order exactly for two times of one second of which one prints no microseconds. |
| Timestamps.FiltersAreRightToTheSecond | api-service/database/mongo.py:855-859 | Lease and staleness filters are right to within a second. |
| Timestamps.FiltersAreExactIff | api-service/database/mongo.py:854-859 | They are exact if and only if the two times are in different seconds or both or neither print microseconds. |
| Timestamps.AtOrBeforeOnMicros | api-service/database/mongo.py:281-288 | The text filter as a condition on microseconds, as the lock's protocol uses it. |
| Timestamps.SameTextIff | api-service/database/common.py:29-30 | Equal text means equal time. |
| Timestamps.IsoLayout | api-service/database/common.py:29-30 | Where the fields and the marks between them stand in the text. |
| Timestamps.DaysClosedForm | api-service/database/common.py:29-30 | The calendar the order of time rests on has a leap day every fourth year, not every hundredth, but every four-hundredth. |
| TemplateAlias.MongoChoosesAmongRecent | api-service/database/mongo.py:1107-1123 | Sorting by update time, cutting at a hundred and sorting stably by rank picks the relational order's first of those hundred. |
| TemplateAlias.ChoicesAgreeIff | api-service/database/postgres.py:2131-2165 | With distinct update times both backends choose the same row exactly when it is among the hundred most recent. |
| TemplateAlias.ChoicesAgreeUpToLimit | api-service/database/mongo.py:1092-1123 | So they agree for at most a hundred candidates. |
| TemplateAlias.NothingIff | api-service/database/postgres.py:2131-2165 | The document backend finds nothing exactly when there is no alias or no candidate; for different update times the relational order has a first row exactly when there is. |
| TemplateAlias.PostgresChoosesPreferred | api-service/database/postgres.py:2131-2160 | The relational choice is the template that may be used and is preferred to every other: for having an image, then for being the caller's own, then for being newer. |
| TemplateAlias.MongoChoosesPreferred | api-service/database/mongo.py:1102-1123 | With at most a hundred candidates the document backend's is that template too. |
| TemplateAlias.RecentMeaning | api-service/database/mongo.py:1111 | The candidates it looks at are a hundred at most, and every other one is older than all of them. |
| Uploads.PutMeaning | api-service/database/mongo.py:1464-1515 | After a put a get of its key returns the payload put; another key's upload is untouched unless it shares the upload identifier, and then shows the new payload under its own description. |
| Uploads.PutIsUpsertIff | api-service/database/postgres.py:2715-2731 | A put is the relational upsert exactly when no other stored key shares the identifier, or those that do hold the same payload. |
| Uploads.IdIsInjective | api-service/database/common.py:147-149 | Keys whose owner and namespace hold no NUL have different identifiers. |
| Uploads.NulLetsKeysClash | api-service/database/common.py:147-149 | With a NUL two keys can share one. |
| Uploads.RunsRefineRows | api-service/database/mongo.py:1464-1544 | For such keys every run of puts leaves the store showing what the relational rows hold, and the relational backend refuses none of them. |
| Uploads.GetsLastPut | api-service/database/mongo.py:1517-1544 | A get after any run returns what the last put of the key stored, or what was there before. |
| Uploads.GetsFirstTime | api-service/database/mongo.py:1497-1514 | And it says when the key was first put. |
| Uploads.PiecesFit | api-service/database/mongo.py:1480-1483 | All chunks are full, of a mebibyte, but the last, which is not empty unless the payload is. |
| Uploads.DocumentsDescribe | api-service/database/mongo.py:1485-1512 | Over every run the size and the number of chunks a document states are those of what is stored. |
| Uploads.ReadDuringPut | api-service/database/mongo.py:1484-1496 | A get while a put has inserted some chunks reads a prefix of the new payload that ends where a chunk does; all of it exactly at the end. |
| Uploads.MongoUploads.PutTemplateBuildUpload | api-service/database/mongo.py:1464-1515 | Delete, insert chunk by chunk, upsert: the state is the specification's and the answer is the upload stored. |
| Uploads.MongoUploads.GetTemplateBuildUpload | api-service/database/mongo.py:1517-1544 | The chunks joined in the order of their indices, or nothing. |
| Uploads.PostgresUploads.PutTemplateBuildUpload | api-service/database/postgres.py:2695-2731 | The upsert, or the primary key's refusal when a new key has another row's identifier. |
| RegistryRefs.PublishedSplits | runtime-gateway/template_builder.py:381-434 | In both layouts the last colon of a published reference separates repository and tag; in the single repository layout these are the base and a tag of the OCI grammar, with a repository per template the tag is valid exactly when the local one is. |
| RegistryRefs.SingleTagIs | runtime-gateway/template_builder.py:399-405 | The single layout's tag is both cleaned parts around a dash with dots and dashes trimmed off, 1 to 113 characters: neither the fallback nor the cut at 128 ever applies. |
| RegistryRefs.SplitInvertsPublishIff | runtime-gateway/template_builder.py:316-322 | The port-aware split gives repository and tag back exactly when the tag is non-empty and does not end in white space; always in the single layout. |
| RegistryRefs.PublishedIsOurs | runtime-gateway/template_builder.py:272-282 | Every published reference is recognised as one of the configured registry. |
| RegistryRefs.RawTagCanBeInvalid | runtime-gateway/template_builder.py:406-407 | The text of the local reference is not checked: a tag the grammar refuses is published as it stands with a repository per template, and mended by the single layout. |
| RegistryRefs.ComponentFixedIff | runtime-gateway/template_builder.py:65-67 | Cleaning changes nothing exactly on short, non-empty texts of tag characters without dots and dashes at the ends. |
| RegistryRefs.ComponentIsTag | runtime-gateway/template_builder.py:65-67 | A cleaned component is always a valid tag of at most the given length. |
| RegistryRefs.RunBecomesDash | runtime-gateway/template_builder.py:61-66 | A longest run of characters that are not allowed becomes one dash, and what is around it is cleaned by itself. |
| RegistryRefs.CleanNameIsLowered | runtime-gateway/template_builder.py:60-62 | Of an identifier that is clean but for capitals these are lowered, and it is cut at 48 characters; nothing else changes. |
| RegistryRefs.NothingLeftIsNamed | runtime-gateway/template_builder.py:60-67 | Where cleaning leaves nothing there is a name all the same. |
| RegistryRefs.TagCharacters | runtime-gateway/template_builder.py:61-66 | The characters of a tag and of a name. |
| RegistryRefs.LayoutByName | runtime-gateway/template_builder.py:334-343 | The layouts go by their names in any case, with dashes or underscores; any other name is an error. |
| RegistryRefs.AutoLayoutIff | runtime-gateway/template_builder.py:325-349 | Left open, it is the single repository exactly for the registries of one provider. |
| RegistryRefs.LocalTagIs | runtime-gateway/template_builder.py:391-394 | The tag of a local reference is what follows the colon of its last component; a port is none. |
| RegistryRefs.BaseIs | runtime-gateway/template_builder.py:388 | Slashes behind the prefix do not count. |
| RegistryRefs.OursIff | runtime-gateway/template_builder.py:272-282 | A reference is the registry's exactly when it is the base, or goes on behind it with a path or a tag. |
| RegistryRefs.SplitOfUntagged | runtime-gateway/template_builder.py:316-322 | A reference without a tag is all repository, a port included. |

## Left out

- Databases, HTTP, web sockets, containers and object storage themselves: they are state with atomic steps.
- The sandbox manager and the warm-pool workers: they appear only as actors that call the database.
- GatewayRouting.OneHopIff: assumes one route table for the whole request and a gateway name that no gateway takes for a sandbox host, because neither is checked on the way.
- TemplateAlias.ChoicesAgreeIff: assumes distinct update times, because neither server orders equal ones.
- ClaimProtocol.ClaimsAreExclusive: assumes that the rest of the service never puts a sandbox back into a pool and never uses an identifier twice, which is how its rows are created and changed.
- Database collation: texts are compared character by character.
- SKIP LOCKED between relational claims that run at once: the relational claim is one transaction.
- Rows created in the same instant are taken in the order of their identifiers, which the servers leave open.
- Rounding of the acquire wait to three decimals, and waits that are text.
- Stored negative in-flight counters: the document backend's filter never matches one, and none is reached from idle segments; `SegmentStores` excludes them only where it compares the backends.
- The setters of a segment's preferred gateway and last error, and the removal of `ready_image_ref`.
- Lock documents without an expiry occur only in the method, not in runs, because nothing writes one.
- Time outs of the shell reader, decoding of UTF-8, and message bodies: messages are opaque byte sequences.
- Terminals, signals and process start: only the event history and its queues are modelled.
- The directory flag of a watcher's snapshot, which the comparison ignores, and the optional entry in its events.
- Paths, bodies and upstream errors of proxied requests, default headers added by the HTTP client, and repeated query parameters after the first.
- Hash collisions of upload identifiers: the identifier is the text that is hashed.
- Two puts of one upload key at once: only what a get sees during one put is modelled.
- Merging uploads into one archive, uploads to object storage, and the retries of an image pull: plumbing around members modelled here.
- Unicode white space, digits and lower-casing in template identifiers and hosts.
- A repository layout name that is not known is an error value; its text is not modelled.
