# Verified model of the sandbox gateway

A Dafny model of the stateful core of a gateway that runs commands in sandboxes through worker
processes, and of the enrichment engine that turns command output into facts. Each module models
one component and proves what the component is for, over every input, every run or every
interleaving. `dafny verify dfyconfig.toml` checks the whole project.

## What is modelled

**Command protocol** (`WorkerMessages`, `Protocol`, `ProtocolSafety`, `ProtocolProgress`,
`ProtocolOutcomes`, `RunCommand`, `ListFiles`). The gateway side of a call registers a response channel under the command id, sends
the command, collects until a terminal message or a timeout, and removes the channel. The worker
spawns one task per command; a task needs one of four permits and emits its replies on a shared,
bounded stream. A reader routes each message by id. `Protocol` is the step relation of all callers,
readers, tasks and disconnections together; the central invariant is a conservation law: read off in
order, a command's replies are what its caller has collected, then what its channel buffers, then what
the stream carries, then what its task has yet to emit. A streamed call is the same machine, with
`Expire` standing for the consumer of the stream going away.

**Files over the protocol** (`SafePaths`, `FileRead`, `FileWrite`). The check that confines every path. Chunked reads with arbitrary short reads and
I/O errors, and a file size that may be stale; whole, chunked and appending writes of any number of
interleaved uploads.

**Gates** (`TokenBucket`, `TwoLevelLimiter`, `ClientMap`, `CircuitBreaker`, `CallAdmission`, `Handshake`). Each is
characterised from the history of calls alone: a call is admitted if and only if every window ending
at it has room; the circuit is open if and only if some opening of the current streak of failures is
less than 30 seconds old; a challenge response is accepted if and only if it answers the outstanding
challenge of its sandbox under one of its keys.

**Command sanitizer** (`Utf8`, `Utf8Scalars`, `Spans`, `Sanitizer`, `SanitizerKinds`, `SanitizerScan`,
`SanitizerReference`,
`SanitizerFixpoint`, `SanitizerRescan`, `SanitizerRescanCases`, `SanitizerReach`, `SanitizerSecrecy`,
`SanitizerContexts`, `SanitizerPrefixes`, `SanitizerQuotes`, `SanitizerExposures`, `SanitizeCommand`).
A recursive scanner that looks only at the remaining suffix, a description of every step in literal
texts and sets of bytes that the scanner is proved to follow, the in-place loop with its ten detectors
proved equal to it, UTF-8 safety, a tight bound on the output, the exact condition under which a second
pass changes nothing, and the exact condition under which the output does not depend on a value.

**Enrichment engine** (`EnrichmentModels`, `ExtractorCache`, `IntentDetection`, `Normalizer`,
`PipelineAgreement`, `RunWindow`, `OutputSummary`). Caches against the paths without them,
deduplication against filtering, the pruned and capped run window against the full log, and the
head-and-tail summary of an output.

## Main results

- In every interleaving of callers, readers, worker tasks, timeouts and disconnections, a successful call
  holds exactly its own command's replies, and a run that cannot go on has answered every caller that can
  be answered (`ProtocolSafety.CallersGetTheirOwn`, `ProtocolProgress.EveryCallerAnswered`,
  `RunCommand.RunEndToEnd`, `FileRead.ReadEndToEnd`).
- Nothing outside the allowed directories is read or written in any run (`FileWrite.FilesOutsideStay`,
  `FileRead.ReadsAreConfined`).
- Interleaved uploads do not interfere, whatever fails (`FileWrite.UploadsDoNotInterfere`,
  `FileWrite.UploadArrives`).
- The token bucket, the two-level limiter, the circuit breaker and the handshake decide exactly as their
  histories call for (`TokenBucket.ExactAdmission`, `TwoLevelLimiter.ExactAcceptance`,
  `CircuitBreaker.FieldsFollowHistory`, `Handshake.AcceptedIffDeserved`).
- The in-place sanitizer equals a scanner on suffixes, and its output is the one output that a literal
  description of the documented patterns allows (`SanitizeCommand.SanitizeCommand`,
  `SanitizerReference.SanitizedIff`). It hides a
  value exactly when the scan of the text before it jumps over the value and meets no open place on the
  way (`SanitizerSecrecy.HiddenIff`, `SanitizerContexts.SecretKeyIff`, `SanitizerPrefixes.PrefixedValueIff`).
  It is stable under a second pass exactly when its steps are settled (`SanitizerRescan.RescanIff`).
- Caches, windows and summaries agree with what they stand for (`PipelineAgreement.CacheIsTransparent`,
  `Normalizer.IdempotentIff`, `RunWindow.EnrichmentMetrics.RecentRuns5Min`,
  `OutputSummary.SummaryWellFormed`).

## What the proofs show about the code

- A write is answered by an acknowledgement, and the collector does not stop at one. So no write call
  ever succeeds: a write that took effect ends in a timeout, and only a refused one is answered
  (`FileWrite.WriteCallsNeverSucceed`). A read of an empty file sends nothing and also times out
  (`FileRead.ReadEndToEnd`).
- A path is canonicalised before it is written, and that fails for a file that does not exist. So no
  write mode ever creates a file (`FileWrite.AbsentFilesStayAbsent`). On existing files, whole and
  chunked writes agree, and appending agrees with them exactly on empty files (`FileWrite.ModesAgree`).
  A failing write touches nothing but its own file and entry, and its file holds a prefix of what was
  intended (`FileWrite.FailuresAreContained`).
- The allowed directories are compared as text: a path such as `/tmpfiles/x` is accepted as well
  (`SafePaths.SiblingsAreAccepted`).
- A sandbox without a secret is accepted at registration even when pre-shared keys are required; the
  comment at `crates/bastion-gateway/src/server.rs:64-65` says otherwise. The model follows the code
  (`Handshake.RegistryService.Register`).
- In the half-open state every command is admitted; the comment at
  `crates/bastion-gateway/src/registry.rs:123` speaks of reduced load. An error reported by a command
  counts as a success of its worker.
- The client map of the two-level limiter never exceeds `max_clients`, except that it holds one entry
  when that number is zero (`TwoLevelLimiter.MapIsBounded`). That is for requests one after the other: the
  size is checked before the insertion, so with `n` requests at a time the exact limit is `n - 1` higher
  (`ClientMap.ConcurrentBound`, `ClientMap.LimitIsReached`). The entry evicted from a full map is
  arbitrary, though the comment at `crates/bastion-gateway/src/server.rs:194` speaks of the least
  recently used; it can be the requesting client's own, which then starts with a full bucket, so
  every eviction may cost one more bucket (`TwoLevelLimiter.ClientWindowBoundWithEvictions`).
- Sanitizing is not idempotent. `SanitizerRescan.RescanIff` says for every command when a second pass
  changes nothing, and `SanitizerRescanCases` gives an input for each kind of step that is not settled:
  text right after a bearer token (`WordAfterBearer`) or a quoted value (`TextAfterQuote`,
  `TextAfterLowerQuote`), a kept key that begins with `AKIA` (`AwsAssignment`), and text that a replacement
  makes long enough for an OpenAI key (`TokenByReplacement`), a web token (`WebTokenByReplacement`) or an
  AWS key (`AwsKeyByReplacement`). A replaced flag value always ends at white space, which closes it.
- A value is hidden after any text that ends in an equals sign or a space if and only if the text is
  `Covered` (`SanitizerSecrecy.HiddenIff`): scan it with any other value in place; a step must jump over
  the value, and no step before it may be open. A place is open where a token known by its length has
  begun (`AKIA`, `sk-`, `eyJ`) and it is left to the value whether it is long enough, or where a
  lower-case key ends and the value may be empty.
- After a secret key, with any text before it that does not end in a byte of a key and any text after
  the value, the value is hidden if and only if the scan meets no open place
  (`SanitizerContexts.SecretKeyIff`); so it is wherever every `eyJ` and `sk-` in the text before is
  followed by a byte that ends it (`SecretNotObservable`). Where that fails the outputs differ for some
  values: after `db_` an empty value of `token=` is told from any other one (`ContextMatters`), after
  `eyJ..&` a long one from a short one (`OpenTokenMatters`), after a key of fewer than eight bytes that
  begins with `AKIA` also (`ShortAwsKeyMatters`).
- One kind of secret key does not protect its value at all: `ghp_password=` (`TokenWithSecretSuffix`) and every
  other key that is a GitHub token up to its equals sign, such as `ghp_abctoken=`. Only the key is replaced and the value
  is scanned as ordinary text (`SanitizerExposures.TokenKeyExposesValue`). No other lower-case secret key
  does this (`LowerKeyOrToken`).
- A quoted value is not protected by an upper-case key: in `API_KEY='x'` the key's value is taken to be
  empty, and the quoted text is scanned as ordinary text (`SanitizerQuotes.QuotedValueExposed`). When the
  scan comes to a secret key with nothing open before it, a quoted value is hidden if and only if the key
  is not upper-case (`SanitizerQuotes.QuotedValueIff`).
- After a bearer prefix or a secret flag, in the middle of a command too, the value is hidden if and only
  if the prefix is not itself taken for the value of an earlier one (`SanitizerPrefixes.PrefixedValueIff`).
  `Bearer Bearer x` and `--secret Bearer x` leave `x` to be scanned as ordinary text
  (`SanitizerExposures.BearerTakesBearer`, `FlagTakesBearer`).
- Streaming decodes every chunk on its own. It reports the collected exit code in every case, and the
  same bytes exactly when every chunk is text on its own (`RunCommand.StreamingAgreesIff`).
- A collected command that ends in an error reports that error; the streamed form of the same command
  reports exit code -1 and text appended to stderr (`RunCommand.StreamingOnError`).
- A `command` extractor whose id equals that of a cached extractor of the same enricher is lost on the
  cached path (`ExtractorCache.CacheAgreesIff`). Without such a clash the cached path finds the same
  facts in another order, which can still decide a tie (`PipelineAgreement.BestIgnoresOrder`).
- Normalising is idempotent, and commutes with the threshold, exactly when filtering changes no key's
  merge mode in certain ways (`Normalizer.IdempotentIff`, `Normalizer.ThresholdCommutesIff`); both hold
  when the facts of each key share one merge mode.

## Model

| member | source | states |
|---|---|---|
| WorkerMessages.CollectUntilTerminal | crates/bastion-gateway/src/registry.rs:430-455 | the receive loop returns exactly the messages up to and including the first terminal one |
| ProtocolSafety.RunInv | crates/bastion-gateway/src/registry.rs:1142-1176 | in every run the replies of every command are conserved in order: collected, buffered, carried, yet to emit; permits balance |
| ProtocolSafety.PendingIsInFlight | crates/bastion-gateway/src/registry.rs:417-458 | in every run the registered ids are exactly those of the calls in flight, after success, send failure and timeout alike |
| ProtocolSafety.CallersGetTheirOwn | crates/bastion-gateway/src/registry.rs:428-498 | in every interleaving a successful call holds exactly its own replies up to the first terminal one; without a terminal reply it cannot succeed |
| ProtocolSafety.CollectedIsPrefix | crates/bastion-gateway/src/registry.rs:428-455 | what a waiting or timed-out caller holds is a prefix of its own replies without a terminal message |
| ProtocolSafety.ConcurrencyBound | crates/bastion-worker/src/main.rs:333-350 | no worker session ever runs more than four commands at a time |
| ProtocolProgress.RunsAreBounded | crates/bastion-gateway/src/registry.rs:358-498 | every run is finite but for heartbeats: its length is at most the initial budget plus three for each heartbeat |
| ProtocolProgress.StuckMeansOver | crates/bastion-gateway/src/registry.rs:428-459 | no full channel, busy worker or lock on the channel map blocks a caller for good: in a state that cannot go on, every call is done, or waits for a lost worker or for a terminal reply its command never sends |
| ProtocolProgress.EveryCallerAnswered | crates/bastion-gateway/src/registry.rs:428-498 | without disconnection or timeout, a run that cannot go on, be it for a lock, has answered every caller with its own replies |
| ProtocolProgress.AnsweredIff | crates/bastion-gateway/src/registry.rs:436-442 | at the end of such a run a call has an answer exactly if its command replies with an exit, an error, a file list or a last file chunk, and otherwise waits with all its replies |
| ProtocolOutcomes.ResultTellsHistory | crates/bastion-gateway/src/registry.rs:410-498 | in every run a call is refused, cut off, timed out or answered exactly according to the steps it took |
| ProtocolOutcomes.BuffersAreBounded | crates/bastion-gateway/src/registry.rs:418-419 | in every run a response channel holds at most 16 messages and a stream at most 256 |
| ProtocolOutcomes.WhoWaits | crates/bastion-worker/src/main.rs:333-350 | in every reachable state a step is held up exactly by 256 commands, 256 messages, four running tasks, or 16 messages of a caller who still listens |
| ProtocolOutcomes.DownWorkersStop | crates/bastion-gateway/src/registry.rs:1142-1188 | a worker whose connection is lost starts, runs and finishes nothing more; only what it has sent is still routed |
| ProtocolOutcomes.DisconnectionLosesTheRest | crates/bastion-gateway/src/registry.rs:1142-1188 | a lost connection keeps any beginning of the stream and loses the rest and the queue; nothing else changes |
| RunCommand.AggregateRun | crates/bastion-gateway/src/registry.rs:566-598 | the fold returns the first error, or all output in order and the last exit |
| RunCommand.RunRepliesResult | crates/bastion-worker/src/main.rs:355-418 | the worker's replies fold to exactly the command's output and exit code, or its error |
| RunCommand.RunEndToEnd | crates/bastion-gateway/src/registry.rs:559-598 | in every run a caller that succeeds gets the output, exit code or error of its own command, never another's |
| ListFiles.HandleList | crates/bastion-worker/src/main.rs:825-869 | a list command is answered by the entries or the error found where the path leads, or refused |
| ListFiles.AggregateList | crates/bastion-gateway/src/registry.rs:826-857 | the first list or error among the messages, or no entries |
| ListFiles.ListEndToEnd | crates/bastion-gateway/src/registry.rs:804-857 | an undisturbed run that cannot go on has answered every list call with the entries or the error of its own listing |
| RunCommand.ForwardStream | crates/bastion-gateway/src/registry.rs:678-727 | the forwarding task emits the output chunks in order and ends at the first exit or error |
| RunCommand.FoldStream | crates/bastion-gateway/src/sandbox_tools.rs:518-565 | the chunk fold joins the decoded parts in order and takes the last well-sized exit code |
| RunCommand.StreamingAgrees | crates/bastion-gateway/src/sandbox_tools.rs:518-565 | on every output sequence ended by an exit, for any bytes and any decoder, streaming gives the collected exit code and each output as its chunks decoded one by one |
| RunCommand.StreamingAgreesIff | crates/bastion-gateway/src/sandbox_tools.rs:546-551 | with lossy decoding, streaming and collecting give the same bytes of an output if and only if each of its chunks is well-formed text on its own |
| RunCommand.SplitCharacterIsLost | crates/bastion-gateway/src/sandbox_tools.rs:546-551 | a character whose bytes arrive in two chunks is collected as text and not streamed as such |
| RunCommand.StreamingOnError | crates/bastion-gateway/src/sandbox_tools.rs:558-562 | on any sequence ended by an error, collecting fails with it and streaming reports -1 with the error after the decoded stderr |
| SafePaths.AcceptedIff | crates/bastion-worker/src/main.rs:293-324 | a path is accepted exactly if it is absolute and leads to something that exists under one of five literal prefixes |
| SafePaths.SiblingsAreAccepted | crates/bastion-worker/src/main.rs:310-313 | the prefixes are compared as text, so names beside the directories are accepted |
| FileRead.ReadChunks | crates/bastion-worker/src/main.rs:563-623 | for every sequence of short reads and errors, the chunks are consecutive, with prefix-sum offsets and the last mark exactly from the known size on |
| FileRead.HandleRead | crates/bastion-worker/src/main.rs:552-651 | a file that cannot be opened is answered by one error, any other by a chunk run |
| FileRead.AggregateRead | crates/bastion-gateway/src/registry.rs:787-801 | the fold returns the first error, or the concatenated chunk contents |
| FileRead.ReadCompletes | crates/bastion-worker/src/main.rs:574-578 | a read completes exactly if it fails, or the file is not empty and at least as long as the size taken before |
| FileRead.OnlyFinalChunkIsLast | crates/bastion-worker/src/main.rs:577-590 | for a non-empty unchanged file the final chunk, and no other, is marked last |
| FileRead.ReadRoundTrip | crates/bastion-worker/src/main.rs:563-609 | the collected chunks of a non-empty unchanged file concatenate to the file |
| FileRead.ReadReturnsPrefix | crates/bastion-gateway/src/registry.rs:787-801 | for a stale size, content that is returned is a prefix of the file that reaches that size |
| FileRead.ChunkCount | crates/bastion-worker/src/main.rs:563-565 | the announced ceiling is the least chunk count, reached when only the last read is short |
| FileRead.ChunksAreNumbered | crates/bastion-worker/src/main.rs:563-601 | the chunks of a file are numbered from 0 and announce the least number of chunks of 4194304 bytes; beyond 2^31 they wrap around |
| FileRead.ReadsAreConfined | crates/bastion-worker/src/main.rs:559-561 | a read of a relative path, or of anything outside the allowed directories, finds nothing but an error |
| FileRead.ReadEndToEnd | crates/bastion-gateway/src/registry.rs:769-802 | in every run a successful error-free read returns the file's content, and a read of an empty file never succeeds |
| FileWrite.WorkerFiles.HandleWrite | crates/bastion-worker/src/main.rs:653-824 | one write request changes files and pending chunks exactly as its mode, its chunk index and the outcome of the write call for |
| FileWrite.RefusedIff | crates/bastion-worker/src/main.rs:660-675 | a request is refused, with an error and no change, exactly if its path is relative or leads to no file or outside the allowed directories |
| FileWrite.FilesOutsideStay | crates/bastion-worker/src/main.rs:293-324 | in every run, with any faults, files outside the allowed directories keep their content |
| FileWrite.WhatAFaultLeaves | crates/bastion-worker/src/main.rs:677-823 | a failed write is reported; a file that cannot be opened is left alone, and an interrupted write leaves exactly the bytes written |
| FileWrite.UploadsDoNotInterfere | crates/bastion-worker/src/main.rs:677-823 | in every run of requests to different files, in any order and with any refusals and faults, an upload's file and pending chunks are what its own requests alone make of them |
| FileWrite.UploadArrives | crates/bastion-worker/src/main.rs:677-823 | in every such run, an upload whose own chunks arrive in order and are written has at every moment exactly what they make of its file, and at the end no pending entry, whatever happens to the others |
| FileWrite.FinalChunkClears | crates/bastion-worker/src/main.rs:704-757 | after an accepted final chunk no pending entry of its id remains, whatever failed before or then |
| FileWrite.OtherFilesUnchanged | crates/bastion-worker/src/main.rs:677-823 | in every run, with any faults, files that no request goes to keep their content |
| FileWrite.ModesAgree | crates/bastion-worker/src/main.rs:677-823 | the runs that write the same chunks whole and numbered leave the same file, the appending run leaves it exactly if the file was empty, and none leaves a pending entry |
| FileWrite.LastChunkFirst | crates/bastion-worker/src/main.rs:704-721 | a last chunk that arrives first loses the other one, which stays pending |
| FileWrite.AggregateWrite | crates/bastion-gateway/src/registry.rs:757-766 | the check fails with the first error among the messages and passes exactly if there is none |
| FileWrite.WriteCallsNeverSucceed | crates/bastion-gateway/src/registry.rs:436-442 | in no run does a write call collect an acknowledgement and succeed; only a refused write is answered |
| TokenBucket.ExactAdmission | crates/bastion-gateway/src/registry.rs:91-104 | a call is admitted if and only if, for every earlier call and itself, the admissions since then plus one fit capacity plus refill |
| TokenBucket.LevelIsLeastAllowance | crates/bastion-gateway/src/registry.rs:91-95 | the level found by a call is the least of the remaining allowances of all windows ending at it |
| TokenBucket.WindowBound | crates/bastion-gateway/src/registry.rs:81-104 | any window of a given length admits at most the capacity plus the refill over that length |
| TokenBucket.DeniedCallsLeaveNoTrace | crates/bastion-gateway/src/registry.rs:91-104 | after deleting any denied calls from a trace, each remaining call is admitted exactly if it was before |
| TokenBucket.RateLimiter.TryConsume | crates/bastion-gateway/src/registry.rs:91-104 | the fields are updated so that the call is admitted exactly if it fits every window |
| TokenBucket.WorkerWindowBound | crates/bastion-gateway/src/registry.rs:322-327 | within one registration a window of T seconds admits at most 20 + 10 T commands |
| TokenBucket.WorkerBurst | crates/bastion-gateway/src/registry.rs:325-328 | of the commands at one time a worker takes exactly the first 20 |
| TokenBucket.WorkerRefill | crates/bastion-gateway/src/registry.rs:91-104 | after these, the next one is taken exactly from a tenth of a second on |
| TwoLevelLimiter.BucketsReflectCalls | crates/bastion-gateway/src/server.rs:206-226 | under any evictions every bucket is what its own client's calls since its creation make of it |
| TwoLevelLimiter.MapIsBounded | crates/bastion-gateway/src/server.rs:206-216 | the client map never exceeds its limit, or one entry if the limit is zero |
| TwoLevelLimiter.NothingEvictedBelowLimit | crates/bastion-gateway/src/server.rs:212-217 | while fewer clients have been seen than the map holds, nothing is evicted |
| TwoLevelLimiter.ClientWindowBoundFewClients | crates/bastion-gateway/src/server.rs:206-226 | then each client is bounded by its one bucket in every window |
| TwoLevelLimiter.PassingBelowLimit | crates/bastion-gateway/src/server.rs:206-226 | then a request passes exactly if it fits every window of all requests of its client |
| TwoLevelLimiter.ClientBurst | crates/bastion-gateway/src/server.rs:257 | of the requests at one time exactly the first 100 of each client pass its level |
| TwoLevelLimiter.ClientRefill | crates/bastion-gateway/src/server.rs:257 | after 100 requests the next one passes exactly from a twentieth of a second on |
| TwoLevelLimiter.GatewayBurst | crates/bastion-gateway/src/server.rs:256 | of the requests at one time that pass their clients' level exactly the first 500 are accepted |
| ClientMap.ConcurrentBound | crates/bastion-gateway/src/server.rs:210-226 | in every interleaving of the checks, evictions and insertions of at most n requests at a time, the map with the insertions to come holds at most n - 1 entries more than the limit |
| ClientMap.RequestsAreConserved | crates/bastion-gateway/src/server.rs:210-226 | every request that has begun is in flight until it has inserted its client |
| ClientMap.RequestsGoOn | crates/bastion-gateway/src/server.rs:210-226 | a request in flight can always go on, whatever the others have evicted |
| ClientMap.AnyEntryCanGo | crates/bastion-gateway/src/server.rs:213-216 | any entry of a full map can be the one that is evicted |
| ClientMap.LimitIsReached | crates/bastion-gateway/src/server.rs:210-226 | some interleaving fills the map up to that bound |
| TwoLevelLimiter.GlobalWindowBound | crates/bastion-gateway/src/server.rs:269-302 | accepted requests in a window are bounded by the global bucket, which only accepted requests drain |
| TwoLevelLimiter.ClientWindowBound | crates/bastion-gateway/src/server.rs:206-226 | a client not evicted after the first request of a window passes at most what its bucket allows, whatever the others do |
| TwoLevelLimiter.ClientWindowBoundWithEvictions | crates/bastion-gateway/src/server.rs:206-226 | with e evictions of the client in a window, at most 1 + e full buckets and one refill over the window pass |
| TwoLevelLimiter.GatewayBounds | crates/bastion-gateway/src/server.rs:256-257 | 500 + 100 T accepted requests, 100 + 20 T per client, 1000 buckets |
| TwoLevelLimiter.ExactPassing | crates/bastion-gateway/src/server.rs:219-226 | a request passes the client level exactly if it fits every window of its bucket |
| TwoLevelLimiter.ExactAcceptance | crates/bastion-gateway/src/server.rs:271-302 | a request is accepted exactly if it fits every window of both of its buckets |
| TwoLevelLimiter.PerClientRateLimiter.TryConsume | crates/bastion-gateway/src/server.rs:208-226 | an arbitrary entry is evicted exactly if the map is full, then the client's bucket is charged |
| TwoLevelLimiter.BastionGateway.CheckRateLimit | crates/bastion-gateway/src/server.rs:271-302 | the answer over the whole history of the object, exactly |
| CircuitBreaker.FieldsFollowHistory | crates/bastion-gateway/src/registry.rs:127-185 | the counter is the streak of failures modulo 2^32, a deadline is set exactly from the third failure on, and the state is the one the history calls for |
| CircuitBreaker.ThirdFailureOpens | crates/bastion-gateway/src/registry.rs:118-175 | fewer than three failures in a row leave the circuit closed, the third opens it for 30 seconds, and it stays tripped until a success |
| CircuitBreaker.ProbeReopens | crates/bastion-gateway/src/registry.rs:155-175 | a failure in the half-open state opens the circuit for another 30 seconds, one in the open state changes nothing |
| CircuitBreaker.OpeningSetsDeadline | crates/bastion-gateway/src/registry.rs:160-180 | a failure sets the deadline exactly if it opens the circuit, to 30 seconds later |
| CircuitBreaker.OpeningHolds | crates/bastion-gateway/src/registry.rs:371-376 | no command is admitted within 30 seconds of an opening unless a success intervened |
| CircuitBreaker.OnlySuccessCloses | crates/bastion-gateway/src/registry.rs:145-156 | once tripped the circuit is not closed until a success, and a success closes it |
| CircuitBreaker.DeadlineStandsWhileOpen | crates/bastion-gateway/src/registry.rs:158-184 | failures while the circuit is open never move its deadline |
| CircuitBreaker.OpeningsAreSpaced | crates/bastion-gateway/src/registry.rs:158-184 | a streak of failures opens the circuit at most once every 30 seconds |
| CircuitBreaker.WorkerHandle.IsCircuitOpen | crates/bastion-gateway/src/registry.rs:141-143 | open exactly while an opening of the streak is cooling down |
| CircuitBreaker.WorkerHandle.RecordSuccess | crates/bastion-gateway/src/registry.rs:145-155 | the success is recorded and clears both fields |
| CircuitBreaker.WorkerHandle.RecordFailure | crates/bastion-gateway/src/registry.rs:157-185 | the failure is recorded, the counter wraps at 32 bits, and the deadline moves exactly if the failure opens the circuit |
| CallAdmission.WorkerSession.Admit | crates/bastion-gateway/src/registry.rs:364-415 | refused by the circuit at no cost in tokens, otherwise admitted exactly if the bucket has room |
| CallAdmission.WorkerSession.Conclude | crates/bastion-gateway/src/registry.rs:421-497 | any collected answer counts as a success, a timeout or lost connection as a failure |
| Handshake.BooksFollowHistory | crates/bastion-gateway/src/registry.rs:961-1040 | the maps hold each sandbox's latest secret and outstanding challenge, and nothing else |
| Handshake.AcceptedIffDeserved | crates/bastion-gateway/src/registry.rs:1010-1093 | a response is accepted if and only if it answers the outstanding challenge of its sandbox under a valid key |
| Handshake.HonestWorkerAccepted | crates/bastion-worker/src/main.rs:279-289 | a worker that signs its challenge with a key that is valid on arrival is accepted, unless its sandbox was challenged again or responded in between |
| Handshake.SecretStands | crates/bastion-gateway/src/registry.rs:344-355 | a secret stays valid until its sandbox is provisioned again, whatever else happens |
| Handshake.ChallengeUsedOnce | crates/bastion-gateway/src/registry.rs:1019-1021 | between two answered challenges of a sandbox lies a new challenge |
| Handshake.AcceptancesCovered | crates/bastion-gateway/src/registry.rs:1019-1093 | acceptances of a sandbox never outnumber its challenges |
| Handshake.ReplayNeedsCollision | crates/bastion-gateway/src/registry.rs:44-71 | an accepted proof is accepted again only through a collision of the HMAC |
| Handshake.SandboxesAreIndependent | crates/bastion-gateway/src/registry.rs:961-1093 | whatever other sandboxes do, a handshake goes as if it were alone |
| Handshake.RegistryService.Register | crates/bastion-gateway/src/registry.rs:961-1008 | accepted at once exactly without a secret, otherwise challenged with the nonces stored |
| Handshake.RegistryService.VerifyAgainstKeys | crates/bastion-gateway/src/registry.rs:62-71 | true exactly if some listed key verifies the proof |
| Handshake.RegistryService.ChallengeResponse | crates/bastion-gateway/src/registry.rs:1010-1093 | the challenge is used up whatever the outcome, and acceptance is exactly what the history deserves |
| Utf8Scalars.CharIff | crates/enrichment-engine/src/sanitizer.rs:153-167 | the characters of the model are exactly the encodings of Unicode scalar values in section 3 of RFC 3629 |
| Utf8Scalars.WellFormedIsEncoded | crates/enrichment-engine/src/sanitizer.rs:153-167 | a well-formed text is the encoding of a sequence of scalar values |
| Utf8Scalars.EncodedIsWellFormed | crates/enrichment-engine/src/sanitizer.rs:153-167 | and every such encoding is well-formed |
| SanitizerReference.StepIsDocumented | crates/enrichment-engine/src/sanitizer.rs:60-170 | every step is the one step that the description in literal texts and sets of bytes allows at that place |
| SanitizerReference.SanitizedIff | crates/enrichment-engine/src/sanitizer.rs:12-53 | the output is the one output that the description allows |
| SanitizerReference.SecretSuffixHides | crates/enrichment-engine/src/sanitizer.rs:542-626 | for every name of small letters, digits and underscores before `_key`, `_token`, `_secret` or `_password`, and every value without a delimiter, exactly the value is replaced, unless a GitHub token stands at the front |
| SanitizerReference.OtherNamesAreCopied | crates/enrichment-engine/src/sanitizer.rs:542-626 | every other such name, at which nothing else begins, is copied |
| SanitizerScan.StepSound | crates/enrichment-engine/src/sanitizer.rs:60-170 | every iteration advances, ends on a character boundary, writes well-formed text and at most 7/2 of what it consumes |
| SanitizerScan.OutputWellFormed | crates/enrichment-engine/src/sanitizer.rs:55-173 | the output of well-formed input is well-formed UTF-8 |
| SanitizerScan.OutputBound | crates/enrichment-engine/src/sanitizer.rs:55-173 | twice the output's length is at most seven times the input's |
| SanitizerScan.OutputBoundAttained | crates/enrichment-engine/src/sanitizer.rs:281-347 | the bound is attained by a three-letter upper-case key with an empty value |
| SanitizerKinds.KindStandsIff | crates/enrichment-engine/src/sanitizer.rs:60-151 | whatever is put in place of the value after a kept key, prefix or flag, the same detector fires and keeps the same text, unless an upper-case key and its new value are an AWS key |
| SanitizerFixpoint.FixpointIff | crates/enrichment-engine/src/sanitizer.rs:60-170 | a command is left alone if and only if every step leaves its part alone: no step makes up for another |
| SanitizerRescan.RescanIff | crates/enrichment-engine/src/sanitizer.rs:55-173 | for every command, a second pass changes nothing if and only if each step of the first is settled: values are closed by what follows, no kept key begins with AKIA, no copied character begins a token by length in the output |
| SanitizerRescanCases.PlainCommandsRescan | crates/enrichment-engine/src/sanitizer.rs:55-173 | a command without quotes, bearer tokens, AKIA, sk- and eyJ is unchanged by a second pass |
| SanitizerRescanCases.BearerSecondPass | crates/enrichment-engine/src/sanitizer.rs:72-91 | after a bearer token a second pass changes nothing if the rest is empty or begins with an apostrophe, and otherwise drops exactly the rest's beginning up to and over the next white space, or up to the next apostrophe |
| SanitizerRescanCases.UnclosedValue | crates/enrichment-engine/src/sanitizer.rs:62-90 | a replaced value that is followed by a byte that does not close it makes a second pass change something |
| SanitizerRescanCases.WordAfterBearer | crates/enrichment-engine/src/sanitizer.rs:72-91 | a word after a bearer token is such a case |
| SanitizerRescanCases.TextAfterQuote | crates/enrichment-engine/src/sanitizer.rs:211-221 | text right after a quoted value is such a case |
| SanitizerRescanCases.KeyTakenForToken | crates/enrichment-engine/src/sanitizer.rs:243-276 | a kept key that begins with AKIA is taken for an AWS key by a second pass |
| SanitizerRescanCases.TextAfterLowerQuote | crates/enrichment-engine/src/sanitizer.rs:601-626 | text right after the quoted value of a lower-case key is such a case |
| SanitizerRescanCases.TokenByReplacement | crates/enrichment-engine/src/sanitizer.rs:394-467 | a replacement can make the text before it long enough for an OpenAI key in a second pass |
| SanitizerRescanCases.WebTokenByReplacement | crates/enrichment-engine/src/sanitizer.rs:498-534 | and for a JSON web token |
| SanitizerRescanCases.AwsKeyByReplacement | crates/enrichment-engine/src/sanitizer.rs:243-276 | and for an AWS key |
| SanitizerReach.StepAcross | crates/enrichment-engine/src/sanitizer.rs:60-170 | with no token open, the step before a value writes what the text before it says, and ends inside that text or at a place beyond the value, in each case the same for all values |
| SanitizerSecrecy.HiddenIff | crates/enrichment-engine/src/sanitizer.rs:55-173 | for every text that ends in an equals sign or a space and every least length of the value, the output is the same for all values and any text after them if and only if the scan jumps over the value and meets no open place before |
| SanitizerContexts.SecretKeyIff | crates/enrichment-engine/src/sanitizer.rs:55-226 | after a secret key, with any text before it that does not end in a key byte, the value is hidden if and only if the scan up to it meets no open place |
| SanitizerContexts.SecretNotObservable | crates/enrichment-engine/src/sanitizer.rs:55-226 | in particular if every web token and OpenAI key begun in the text before also ends there: in URLs, quotes and after dashes |
| SanitizerPrefixes.PrefixedValueIff | crates/enrichment-engine/src/sanitizer.rs:72-126 | at the start of a command or after a space, tab or line feed, the value after a bearer prefix or a secret flag is hidden if and only if the prefix is not taken for the value of an earlier one |
| SanitizerPrefixes.PrefixedValueNotObservable | crates/enrichment-engine/src/sanitizer.rs:72-126 | in particular if the text before does not itself end in such a prefix |
| SanitizerPrefixes.FirstValueNotObservable | crates/enrichment-engine/src/sanitizer.rs:72-126 | at the start of a command the value may be empty or hold double quotes, and anything may follow |
| SanitizerQuotes.QuotedValueIff | crates/enrichment-engine/src/sanitizer.rs:180-347 | when the scan comes to a secret key and meets no open place before, all quoted values after it, with anything but that quote in them, give the same output if and only if the key is not upper-case |
| SanitizerQuotes.QuotedValueExposed | crates/enrichment-engine/src/sanitizer.rs:322-343 | after an upper-case key, text in quotes is scanned as ordinary text |
| SanitizerExposures.TokenKeyExposesValue | crates/enrichment-engine/src/sanitizer.rs:351-389 | after a key that is a GitHub token up to its equals sign, the value is scanned as ordinary text |
| SanitizerExposures.LowerKeyOrToken | crates/enrichment-engine/src/sanitizer.rs:542-626 | a lower-case key with a secret suffix is such a token, or a secret key in the sense of SecretKeyIff, and not both |
| SanitizerExposures.BearerTakesBearer | crates/enrichment-engine/src/sanitizer.rs:72-91 | a second bearer prefix is taken for the first one's value, and what follows it is scanned as ordinary text |
| SanitizerExposures.FlagTakesBearer | crates/enrichment-engine/src/sanitizer.rs:109-126 | so is a bearer prefix after a secret flag |
| SanitizerExposures.OpenTokenMatters | crates/enrichment-engine/src/sanitizer.rs:498-534 | after text in which a JSON web token has begun, the output tells a value of 38 bytes or more from a shorter one |
| SanitizerExposures.ShortAwsKeyMatters | crates/enrichment-engine/src/sanitizer.rs:243-276 | a key of fewer than eight bytes that begins with AKIA shows whether it has eight bytes together with its value |
| SanitizerExposures.ContextMatters | crates/enrichment-engine/src/sanitizer.rs:542-626 | after text that ends in a byte of the key, such as `db_`, the outputs can differ |
| SanitizeCommand.SanitizeCommand | crates/enrichment-engine/src/sanitizer.rs:55-173 | the in-place loop, with every slice on a character boundary, equals the recursive scanner |
| SanitizeCommand.CheckAssignmentPattern | crates/enrichment-engine/src/sanitizer.rs:180-226 | finds the explicit assignment at the index, exactly as recognised on the suffix |
| SanitizeCommand.CheckBearerPattern | crates/enrichment-engine/src/sanitizer.rs:230-239 | finds the bearer prefix at the index |
| SanitizeCommand.CheckAwsKeyPattern | crates/enrichment-engine/src/sanitizer.rs:243-276 | finds the AWS key at the index |
| SanitizeCommand.CheckSnakeKeyPattern | crates/enrichment-engine/src/sanitizer.rs:281-347 | finds the upper-case assignment before the first equals sign |
| SanitizeCommand.CheckGithubToken | crates/enrichment-engine/src/sanitizer.rs:351-389 | finds the GitHub token at the index |
| SanitizeCommand.CheckOpenAiKey | crates/enrichment-engine/src/sanitizer.rs:394-467 | finds the OpenAI key, trying the long prefixes first |
| SanitizeCommand.CheckCliSecretFlag | crates/enrichment-engine/src/sanitizer.rs:472-494 | finds the end of a secret flag after optional blanks |
| SanitizeCommand.CheckJwtPrefix | crates/enrichment-engine/src/sanitizer.rs:498-534 | finds a token with two dots and 50 to 1200 bytes |
| SanitizeCommand.CheckLowercaseSecretSuffix | crates/enrichment-engine/src/sanitizer.rs:542-626 | finds the lower-case assignment with a secret suffix, the value quoted or plain |
| RunWindow.WindowCounts | crates/enrichment-engine/src/metrics.rs:142-185 | a pruned queue has as many entries as the full log has in the last five minutes, up to 10000 |
| RunWindow.FiveMinutes | crates/enrichment-engine/src/metrics.rs:142-185 | what is reported is the number of runs of the last 300 seconds, up to 10000 |
| RunWindow.EnrichmentMetrics.PruneOld | crates/enrichment-engine/src/metrics.rs:142-147 | pruning keeps the queue a sorted suffix of the log and leaves nothing older than five minutes |
| RunWindow.EnrichmentMetrics.RecordSuccess | crates/enrichment-engine/src/metrics.rs:150-163 | one run is logged and counted, and the queue stays a window of the log |
| RunWindow.EnrichmentMetrics.RecordFailure | crates/enrichment-engine/src/metrics.rs:166-176 | one failed run is logged and counted, and the queue stays a window of the log |
| RunWindow.EnrichmentMetrics.RecentRuns5Min | crates/enrichment-engine/src/metrics.rs:181-185 | the answer is the number of logged runs of the last five minutes, up to 10000, however often the queue was pruned |
| ExtractorCache.FromEnrichers | crates/enrichment-engine/src/pipeline.rs:34-65 | the cache holds, for every id, the valid patterns of the last enricher with that id |
| ExtractorCache.FactPipeline.BuildCachedExtractors | crates/enrichment-engine/src/pipeline.rs:157-190 | extractors are built once, one for each cached pattern, in order |
| ExtractorCache.FactPipeline.ExecuteExtractors | crates/enrichment-engine/src/pipeline.rs:277-341 | the cached run: cached extractors first, then those whose id is not cached |
| ExtractorCache.CacheAgrees | crates/enrichment-engine/src/pipeline.rs:277-341 | up to order, the cached run finds what the per-call run finds, less the shadowed extractors' facts |
| ExtractorCache.CacheAgreesIff | crates/enrichment-engine/src/pipeline.rs:330-341 | the two agree exactly if no shadowed extractor would have found anything |
| ExtractorCache.EmptyCacheIsPerCall | crates/enrichment-engine/src/pipeline.rs:329-341 | with an empty cache the cached run is the per-call run, in the same order |
| ExtractorCache.CachedIds | crates/enrichment-engine/src/pipeline.rs:34-65 | exactly the globs, and the regexes that compile, are run from the cache |
| ExtractorCache.CachedFirst | crates/enrichment-engine/src/pipeline.rs:277-341 | the cache changes the order: facts of a cached extractor come before those of a command that is listed first |
| ExtractorCache.CommandRuns | crates/enrichment-engine/src/pipeline.rs:401-405 | a command extractor runs on both paths, with its own policy or else with the default one |
| ExtractorCache.OthersFindNothing | crates/enrichment-engine/src/pipeline.rs:376-408 | extractors with an invalid regex or of an unknown type find nothing |
| ExtractorCache.UniqueIdsAgree | crates/enrichment-engine/src/pipeline.rs:277-341 | with distinct ids the cache changes no fact |
| IntentDetection.IntentDetector.GetOrCompile | crates/enrichment-engine/src/intent.rs:28-36 | whatever is cached, the answer is that of the regex engine |
| IntentDetection.IntentDetector.Detect | crates/enrichment-engine/src/intent.rs:57-74 | the matching enrichers in catalog order, the same for every state of the cache |
| IntentDetection.DetectedAreMatches | crates/enrichment-engine/src/intent.rs:57-74 | exactly the enabled enrichers with a valid matching pattern are kept, as often as listed |
| IntentDetection.DetectedInOrder | crates/enrichment-engine/src/intent.rs:57-74 | the order of the catalog is kept |
| Normalizer.FactNormalizer.Normalize | crates/enrichment-engine/src/normalizer.rs:44-86 | whatever the order of the keys, each key keeps exactly what its own group calls for |
| Normalizer.BestIsLastMaximum | crates/enrichment-engine/src/normalizer.rs:70-74 | nothing is more confident than the best fact and everything after it is less |
| Normalizer.SingleModeKeepsBest | crates/enrichment-engine/src/normalizer.rs:68-85 | a key in single mode survives at most once, as its last most confident fact |
| Normalizer.GroupCommutes | crates/enrichment-engine/src/normalizer.rs:44-86 | for one key, filtering first equals filtering last exactly unless it changes the mode of several facts |
| Normalizer.ThresholdCommutesIff | crates/enrichment-engine/src/normalizer.rs:44-86 | threshold then deduplicate is deduplicate then threshold if and only if for no key filtering changes the merge mode of several facts |
| Normalizer.ThresholdCommutes | crates/enrichment-engine/src/normalizer.rs:44-86 | in particular with shared merge modes |
| Normalizer.GroupIdempotent | crates/enrichment-engine/src/normalizer.rs:44-86 | for one key, normalising again changes nothing if and only if filtering does not turn its multi group into a single one of several facts |
| Normalizer.IdempotentIff | crates/enrichment-engine/src/normalizer.rs:44-86 | for a whole list, normalising twice is normalising once if and only if that holds for every key |
| Normalizer.Idempotent | crates/enrichment-engine/src/normalizer.rs:44-86 | in particular with shared merge modes |
| Normalizer.MixedModesNotIdempotent | crates/enrichment-engine/src/normalizer.rs:58-65 | without shared merge modes a second pass can drop a fact that the first one kept |
| PipelineAgreement.BestIgnoresOrder | crates/enrichment-engine/src/normalizer.rs:70-74 | the best fact is the same in every order exactly if no other fact is as confident |
| PipelineAgreement.OrderIrrelevant | crates/enrichment-engine/src/normalizer.rs:44-86 | reordered facts normalise to the same facts, with shared modes and clear best facts |
| PipelineAgreement.CacheIsTransparent | crates/enrichment-engine/src/pipeline.rs:277-371 | under these conditions the cache does not show in the normalised facts |
| OutputSummary.FloorCharBoundary | crates/bastion-domain/src/catalog/experience.rs:245-251 | the greatest boundary not after the index |
| OutputSummary.CeilCharBoundary | crates/bastion-domain/src/catalog/experience.rs:253-259 | the least boundary not before the index |
| OutputSummary.SummarizeOutput | crates/bastion-domain/src/catalog/experience.rs:226-243 | short output is unchanged; long output keeps the longest head and tail of at most 512 bytes that cut no character |
| OutputSummary.CutsAreTight | crates/bastion-domain/src/catalog/experience.rs:235-236 | head and tail have 509 to 512 bytes each and do not overlap |
| OutputSummary.SummaryWellFormed | crates/bastion-domain/src/catalog/experience.rs:238-242 | the summary is well-formed UTF-8 of 1062 to 1068 bytes |

## Left out

- Transports (gRPC, TLS, HTTP, SSE), process execution, container and storage back ends, configuration files: I/O and foreign libraries. Clock readings, nonces, command ids and what a command, a read or a write returns are parameters.
- HMAC, regex matching and the extractors: uninterpreted functions; a glob is taken to find the same files on both paths of one run.
- Floating point: tokens, times and confidences are real numbers, so NaN and rounding do not occur.
- Counters, offsets and sizes of 64 bits are unbounded, except where wrap-around is modelled: the failure counter, the run totals, the chunk index and count, the exit code.
- The breaker and the bucket appear in the protocol only as the step that refuses a call; what they decide is proved in their own modules. Each breaker method is one atomic step, and one handle belongs to one connection.
- Locking inside the concurrent maps, but for the locks that readers hold on the channel map: every map operation is one step, and whether evicting an entry can block on the map's own iterator is not modelled.
- TwoLevelLimiter.PerClientRateLimiter.TryConsume: the size check, the eviction and the insertion are one step, so TwoLevelLimiter.MapIsBounded and TwoLevelLimiter.GatewayBounds hold for requests one after the other; for concurrent ones see ClientMap.ConcurrentBound, where the bucket contents are left out. Every caller in the repository uses one client key.
- ProtocolProgress.StuckMeansOver: waiting for a lock on the channel map occupies a thread of the executor; that one is left for the caller who makes room is assumed. For streamed calls, that consumers keep reading or go away: a consumer that stalls stops collecting, and its worker's reader with it.
- Cancellation, pipelines, shutdown and the watchdog; the health counter of active commands.
- Streaming: the consumer's cancel flag and progress messages.
- Rule evaluation between extraction and normalisation, composition of the final context, latency percentiles.
- File permissions, directories and links beyond a fixed resolution function.
- RunCommand.StreamingAgreesIff: lossy decoding is any function that keeps exactly the well-formed texts and never shortens; which replacement it makes is not modelled.
- SanitizerSecrecy.HiddenIff: a value has no white space and no quotes, and after an equals sign none of the eight delimiters; quoted values are the subject of SanitizerQuotes.QuotedValueIff. Tokens that are recognised by their own prefix wherever they stand are not the values meant here.
- SanitizerQuotes.QuotedValueIff: a quoted value whose key lies in the value of something before it is not covered.
- SanitizerPrefixes.PrefixedValueIff: text that ends in anything but a space, a tab or a line feed before the prefix is left to SanitizerSecrecy.HiddenIff.
- Sanitizer running time: the search for an equals sign starts again at every position, so the scan is quadratic at worst; no bound is stated.
