# mkqd verification model

mkqd is a worker daemon around the mkq queue library: it registers queues from Go
code and from YAML, runs one worker per queue, drains them on shutdown, and ships
executors that POST jobs over HTTP, including signed ActivityPub deliveries. This
project models the parts of mkqd that carry invariants and proves them.

| file | what it models |
|---|---|
| `Shutdown.dfy` | the two-phase stop as a step system: any number of workers, handlers and callers, a clock, Redis open or closed |
| `Registry.dfy`, `Lifecycle.dfy`, `Runs.dfy` | registration, Check, Start with rollback and Shutdown as an object, and what every sequence of calls keeps |
| `KeyCache.dfy` | the directory signer's cache against a changing file, under every interleaving |
| `SignatureHeader.dfy`, `ReceivedHeader.dfy`, `Canonical.dfy`, `HttpSig.dfy`, `Base64.dfy` | the HTTP Signature printer, parser, canonical string, signing and verification |
| `Signers.dfy`, `DirSigning.dfy`, `Delivery.dfy`, `Errors.dfy` | the three signers, the directory signer over its changing cache, and the delivery executor's decision path over Go error chains |
| `Retry.dfy` | Retry-After, from header text to applied delay, in int64 arithmetic |
| `Config.dfy`, `Document.dfy`, `EnvExpand.dfy`, `Dedup.dfy` | validation, pool sizing, tuning precedence, environment expansion of a document in place, in-place dedupe |
| `SafeDial.dfy` | the public-address test |
| `Utf8.dfy` | truncation at character boundaries and header sanitising |
| `Prelude.dfy`, `Text.dfy` | shared types and the Go string functions used |

State that the Go code updates in place is a class (`Runtime`, `DirSigner`,
`HttpRequest`, `ScalarCell`) or an array, and every mutating method is tied to a
function of the old state; the theorems are then about those functions. Concurrent
protocols are step systems whose runs are arbitrary.

## What the proofs found

- The key cache promises that a load never serves a key older than the call. That
  fails when a file's (mtime, size) comes back: a load that stats the old version
  and reads the new one caches new material under the old stamp, and restoring the
  old file with its old time makes a later load return a key the file no longer
  holds (`ReusedStampServesStaleKey`, `RestoredFileIsUnsafe`). The exact condition on
  file histories is `StampsIdentifyKeys` (`FaithfulIffStampsIdentifyKeys`); distinct
  stamps for distinct versions imply it.
- Shutdown is meant to stop every worker. A Start that succeeds after a Shutdown holds
  workers that no later call takes. `WorkersHeldIff` gives the exact condition.
- `isServing` is described as "workers are up and shutdown has not begun". `stopped` is
  set only after both Redis clients are closed, so in every run it says yes from the
  winning Shutdown call, or the start of a rollback, until that moment
  (`ServingOverstatesIff`), with all workers finished at the end of it
  (`ServesWithNothingUp`). Between completed calls, `started` stays true after a
  failed Start; `ServingWithoutWorkersIff` states when it then says yes with no worker.
- The comment at retry_after.go:43-44 says a negative delay becomes zero. The hook
  declines instead: for any error exactly when its chain holds no delay or the first one
  is negative (`DeclinesIff`, `ClampedIffNotNegative`).
- The comment at retry_after.go:80 says that an unparseable header is declined. A plus
  sign before digits, and digits beyond 64 bits with any text after them, are honoured
  (`OverflowHidesTrailingText`). `HonouredIff` gives the exact condition for every header
  that is not a date, and `MalformedHonouredIff` for those that are not delta-seconds.
- An auto-sized pool is meant never to draw the pool warning. Without code registrations
  it does so exactly when the declared sum wraps round to zero in 64 bits and the default
  concurrency is within 8 of the largest integer (`WarningFromConfigAloneIff`,
  `WrappedSumExample`); never when the sum fits.
- Go options are not validated as YAML is: `WithConcurrency(0)` reaches the worker
  unless a YAML block overrides it (`SlotsIff`).

## Assumptions

- mkq's contract is the one the comments state: Drain returns without error once the
  worker is idle, or cancels its handlers and returns an error when its context ends;
  Stop cancels and returns once idle or when its context ends. A draining worker
  dequeues nothing.
- The clock of `Shutdown.dfy` advances only while every goroutine of the protocol is
  blocked. The health server's Close returns by the deadline it is given.
- Start has returned before Shutdown begins. In `Runs.dfy` calls follow one another;
  `Shutdown.dfy` is where Shutdown callers and workers interleave.
- Each stat, file read and cache access is atomic.
- Hash and RSA are function parameters, with the hypotheses each lemma needs: the
  check accepts what the signer produced, or the hash is injective.
- Text is a sequence of characters that stand for bytes. `strings.ToLower`,
  `TrimSpace` and `Fields` are modelled for ASCII. A header map is single-valued and
  keyed by lower-case name, so header names that differ only in case are one name.
- The algorithm name is not validated by the code; where it matters it is assumed to
  hold no double quote.
- Go's `int` is 64 bits wide.

## Model

| member | source | states |
|---|---|---|
| `Shutdown.RunKeepsInv` | runtime.go:239-355 | every state of every interleaving keeps the joint invariant on phases, timing, cancellations and the Redis ledger |
| `Shutdown.NoCancelBeforeDeadline` | runtime.go:276-355 | in no run of Shutdown is any handler cancelled before the caller's deadline, or at all when there is none |
| `Shutdown.CancelledIff` | runtime.go:312-355 | in every run a handler is cancelled if and only if it was in flight when its worker's drain ran out or a rollback began |
| `Shutdown.OverrunIsCancelled` | runtime.go:343-355 | a worker whose drain ran out, up to the end of its unwinding, holds only cancelled handlers |
| `Shutdown.AbandonedOnlyAfterGrace` | runtime.go:206-215 | a worker is given up with a handler left only when the whole grace has passed since its Stop was called |
| `Shutdown.DequeuesStop` | runtime.go:220-224 | a worker takes up no job once its drain or a rollback has begun |
| `Shutdown.RedisClosesAfterWorkers` | runtime.go:239-293 | both Redis clients close only after every worker's drainWorker has returned |
| `Shutdown.CleanStopFinishesEveryJob` | runtime.go:239-293 | if the worker phase reports no error, every handler ever in flight had returned before the first close |
| `Shutdown.WorkerErrorIffStopExpired` | runtime.go:276-355 | the worker phase fails if and only if some worker's Stop ran out of its grace with a handler left |
| `Shutdown.ShutdownMeetsBound` | runtime.go:226-293 | the server and worker phases end by max(start, deadline) + grace for any number of workers |
| `Shutdown.AbortMeetsBound` | runtime.go:312-333 | a startup rollback ends within one grace of its start |
| `Shutdown.ShutdownIsIdempotent` | runtime.go:239-272 | however many callers, each Redis client closes once and all callers get the same result |
| `Shutdown.ResultIff` | runtime.go:239-272 | every caller gets an error if and only if the server, a worker's Stop, or one of the two clients failed |
| `Shutdown.StubbornHandlersCannotBlock` | runtime.go:206-272 | from every state after Shutdown began with a deadline, some continuation finishes within the bound with no step of any handler |
| `Shutdown.StepLowersMeasure` | runtime.go:239-355 | every step of the stop protocol lowers one measure of steps and time left, and no step of a handler or another caller changes it |
| `Shutdown.StoppingEnds` | runtime.go:239-355 | in every run a stop under a deadline, or a rollback, takes at most that many protocol steps, has ended once it took them, and until then has one enabled that waits for no handler |
| `Shutdown.MeasureAtCall` | runtime.go:239-293 | the bound is four steps a worker, five more, and the time to max(now, deadline) + grace |
| `Shutdown.ServingOverstatesIff` | runtime.go:393-398 | in every run isServing contradicts its description exactly from the winning Shutdown call, or a rollback's start, until `stopped` is set |
| `Shutdown.ServesWithNothingUp` | runtime.go:248-264 | it says yes throughout the drain whatever the workers' phases, and right before `stopped` is set with every worker finished and Redis closed |
| `Lifecycle.Runtime.Register` | register.go:249-264 | the object's registry, order and error are those of the one-step specification |
| `Lifecycle.Runtime.BuildConfiguredQueues` | register.go:273-309 | the loop over a registry it is filling equals judging every block against the registry before the call and stopping at the first fault |
| `Lifecycle.Runtime.ConfigureQueue` | register.go:275-306 | one block: skipped when code claims it, refused, or registered and appended |
| `Lifecycle.Runtime.Check` | runtime.go:429-436 | Check changes the registry alone, and only when Redis answers |
| `Lifecycle.Runtime.TakeWorkers` | runtime.go:297-303 | hands over all running workers and leaves none |
| `Lifecycle.Runtime.AbortWorkers` | runtime.go:312-333 | every running worker is handed to Stop, in order, and none stays |
| `Lifecycle.Runtime.LaunchWorkers` | runtime.go:150-167 | workers are launched up to the first refusal, which rolls all of them back |
| `Lifecycle.Runtime.LaunchAndListen` | runtime.go:144-179 | the outcome and fleet of Start once the queues are known, listener failure included |
| `Lifecycle.Runtime.Start` | runtime.go:131-180 | the whole new state and result of Start, each failure path included |
| `Lifecycle.Runtime.StopWorkers` | runtime.go:276-293 | every worker is drained once and exactly the failing queues are reported |
| `Lifecycle.Runtime.Shutdown` | runtime.go:239-272 | only the first call acts; every call returns the recorded result |
| `Registry.ConfiguredIs` | register.go:273-309 | building registers exactly the unclaimed blocks in their order, and neither replaces nor adds a code claim |
| `Registry.SameVerdict` | register.go:274-298 | a block fares the same before and during the loop |
| `Registry.BuiltRegistry` | register.go:273-309 | after an error-free build the registered queues are the code queues and the declared ones |
| `Registry.BuildErrorIs` | register.go:273-309 | a build fails if and only if a block is neither claimed nor built, with the first such block and its reason |
| `Registry.WarnPoolSize` | runtime.go:370-383 | the wrapping loop's verdict is that the pool is below the 64-bit total concurrency plus headroom |
| `Registry.PoolWarningIff` | runtime.go:364-383 | an auto-sized pool draws the warning, when nothing overflows, if and only if code registrations exceed what the configuration reckons with; and its condition in 64-bit arithmetic otherwise |
| `Registry.TotalOfReckoned` | config.go:420-433 | total slots are the declared shares plus the excess of code registrations, in any registration order |
| `Runs.RegistryConsistent` | register.go:249-309 | in every run `order` names exactly the registry's keys and non-code entries are declared and untuned |
| `Runs.RegisteredQueuesExact` | register.go:323-334 | registeredQueues lists each registered queue once, in first-registration order |
| `Runs.RegistrationsAreStable` | register.go:249-334 | in every continuation earlier queues keep their places and a code registration is never replaced |
| `Runs.ClaimedIff` | register.go:249-264 | a queue is a code queue if and only if some Handle call for it was accepted |
| `Runs.HandleAcceptedIff` | register.go:249-264 | after any run Handle is accepted if and only if the queue is named, new, and Start was not called; otherwise nothing changes |
| `Runs.BuildsIff` | register.go:273-309 | after any run a build succeeds if and only if every declared queue has an accepted handler or an executor that builds |
| `Runs.StartSucceedsIff` | runtime.go:131-180 | the exact condition for Start to succeed after any run |
| `Runs.ListenerIff` | config.go:412-416 | with the defaults applied the listener is wanted unless the address is "off" |
| `Runs.OneWorkerPerQueue` | runtime.go:131-180 | a successful Start, after any run, holds exactly one worker per code or declared queue |
| `Runs.HandedOverAtMostOnce` | runtime.go:150-177 | in every run each launched worker is either held or was handed over, exactly once |
| `Runs.FailedStartHoldsNothing` | runtime.go:150-177 | a Start that fails leaves no worker held, has handed all of them to Stop, and stays marked as started |
| `Runs.FlagsRecordCalls` | runtime.go:131-138 | in every run the flags record which calls were made and Redis is closed at most once |
| `Runs.ShutdownOnce` | runtime.go:239-303 | the first Shutdown takes every worker, and no later call changes its result or closes Redis again |
| `Runs.ShutdownReports` | runtime.go:239-293 | the first Shutdown reports no error if and only if every phase went well, and exactly the queues with a worker that did not drain |
| `Runs.UndrainedConcat` | runtime.go:276-293 | each failing worker is reported once, in order |
| `Runs.WorkersHeldIff` | runtime.go:128-303 | after any run a worker is held if and only if a Start succeeded and no Shutdown followed, or one preceded it |
| `Runs.StartAfterShutdownIsNeverStopped` | runtime.go:131-272 | a Start that succeeds after a Shutdown leaves workers that no continuation takes |
| `Runs.StartAfterShutdownExample` | runtime.go:131-272 | such runs exist for every single-queue configuration |
| `Runs.ServingWithoutWorkersIff` | runtime.go:131-138 | between completed calls isServing says yes without a worker if and only if every Start failed and Shutdown was not called |
| `Runs.PoolWarning` | runtime.go:364-383 | after any run and a successful build, the slots and the warning in terms of the excess of code registrations; configured queues have none |
| `Runs.WarningFromConfigAloneIff` | config.go:420-444 | with no code registrations the slots add up to the declared sum, and the auto-sized pool warns if and only if that sum wraps to zero and the default leaves no headroom |
| `Runs.WrappedSumExample` | config.go:420-444 | valid configurations for which it does |
| `KeyCache.DirSigner.Load` | executor/apdeliver/signer.go:185-218 | result and new cache of one load, for any answers of the file system |
| `KeyCache.UninterruptedLoad` | executor/apdeliver/signer.go:185-218 | the atomic steps, left alone, compute that same load, spelled out for an absent file, a hit, an unparseable key and a fresh one |
| `KeyCache.LoadsAreFaithful` | executor/apdeliver/signer.go:185-218 | in every interleaving each answer, a key, an unknown key or a failure to parse, is the file at a moment between call and return, if stamps identify keys and the file system works |
| `KeyCache.AbsentThroughoutIsUnknown` | executor/apdeliver/signer.go:187-206 | in every interleaving, whatever the stamps, a file absent throughout a call makes it an unknown key |
| `KeyCache.FaithfulIffStampsIdentifyKeys` | executor/apdeliver/signer.go:185-218 | a file history is safe in every interleaving if and only if a returning stamp means the same key |
| `KeyCache.ReusedStampServesStaleKey` | executor/apdeliver/signer.go:185-218 | every other history has a run that serves a stale key |
| `KeyCache.DistinctStampsIdentifyKeys` | executor/apdeliver/signer.go:185-218 | distinct stamps suffice |
| `KeyCache.RestoredFileIsUnsafe` | executor/apdeliver/signer.go:185-218 | restoring an old file with its old time is an unsafe history |
| `SignatureHeader.ValidateKeyId` | httpsig/httpsig.go:130-144 | the loop accepts exactly the non-empty ids within the length limit without quotes, backslashes or control bytes |
| `SignatureHeader.ValidKeyIdIff` | httpsig/httpsig.go:119-144 | which ids those are, character by character |
| `SignatureHeader.SplitParamsLoop` | httpsig/httpsig.go:362-382 | the builder-and-flag loop computes the recursive split |
| `SignatureHeader.JoinSplit` | httpsig/httpsig.go:362-382 | for every input the parts rejoin to it up to one bare trailing comma, are balanced but for the last, and hold no bare comma |
| `SignatureHeader.SplitJoin` | httpsig/httpsig.go:362-382 | splitting inverts joining on all well-quoted lists, up to an empty last part |
| `SignatureHeader.ParseSignatureHeaderLoop` | httpsig/httpsig.go:327-357 | the assigning loop computes the fold of assignments, with its error cases |
| `SignatureHeader.ParsePrint` | httpsig/httpsig.go:103-117 | parsing a printed header returns exactly the key id, algorithm, covered headers and base64 text |
| `ReceivedHeader.ParseReceived` | httpsig/httpsig.go:327-357 | a header of quoted parameters in any order, with any white space, repeats and unknown names parses to the last value of each; without a headers list it covers the date, and without key id or signature it is refused |
| `ReceivedHeader.AssignWritten` | httpsig/httpsig.go:333-347 | white space around a name, the equals sign and a quoted value makes no difference |
| `Base64.DecodeEncode` | httpsig/httpsig.go:111-117 | decoding inverts encoding for all octets |
| `Base64.DecodeIgnoresNewlines` | httpsig/httpsig.go:298-301 | a line break anywhere makes no difference to decoding |
| `Base64.DecodedShape` | httpsig/httpsig.go:298-301 | only whole groups of alphabet characters with at most two padding characters at the end decode |
| `Canonical.BuildSigningString` | httpsig/httpsig.go:158-192 | the builder loop yields one line per covered header, or fails on an empty or absent one |
| `Canonical.SignedLines` | httpsig/httpsig.go:158-192 | the signing string line by line: lower-case name, colon, space and value, with the special cases of target and host |
| `Canonical.UnsignableIff` | httpsig/httpsig.go:158-192 | there is none if and only if nothing is listed or an ordinary header listed has no value |
| `Canonical.DecodeInvertsSigning` | httpsig/httpsig.go:158-192 | the signing string decodes to exactly the covered names and values, in order |
| `Canonical.SigningStringUnambiguous` | httpsig/httpsig.go:158-192 | two requests with the same signing string cover the same names with the same values |
| `Canonical.TargetUnambiguous` | httpsig/httpsig.go:200-202 | request targets are equal if and only if the methods are, up to letter case, and the request URIs are |
| `Canonical.TargetDecodes` | httpsig/httpsig.go:200-202 | at its first space the target reads back as the method in lower case and the request URI |
| `HttpSig.HttpRequest.Sign` | httpsig/httpsig.go:78-117 | the headers SignRequest leaves in the request, and its error, on every path |
| `HttpSig.SignedShape` | httpsig/httpsig.go:78-117 | what a successful SignRequest asked the signer, got, and wrote |
| `HttpSig.SignsIff` | httpsig/httpsig.go:78-117 | SignRequest succeeds if and only if there is a string to sign, the signer signs it and its key id can be sent; a signer's error is passed on |
| `HttpSig.SignedCarries` | httpsig/httpsig.go:86-117 | a signed request keeps its own date or gets the present one, carries the digest of the body, and is otherwise unchanged |
| `HttpSig.SignedHeaderParses` | httpsig/httpsig.go:99-117 | its Signature header reads back as the signer's key id, algorithm or the default, and signature over the five default headers |
| `HttpSig.RequireCoverage` | httpsig/httpsig.go:305-316 | the set loop accepts exactly the lists that cover every required header |
| `HttpSig.AcceptedIff` | httpsig/httpsig.go:282-303 | a request is accepted if and only if its header parses, covers the four required names, the Digest is the body's, and the key check accepts the hash of the signed string with the decoded signature |
| `HttpSig.NoForgery` | httpsig/httpsig.go:302-302 | a key that accepts nothing makes Verify accept nothing |
| `HttpSig.SignThenVerify` | httpsig/httpsig.go:78-117 | whatever SignRequest signs with a matching key, Verify accepts with the same body |
| `HttpSig.AcceptedRequestsAgree` | httpsig/httpsig.go:282-316 | two accepted requests over one signed string agree on target, host, date, digest and, with an injective hash, body |
| `Signers.RequestedKeySigns` | executor/apdeliver/remote.go:176-201 | with every signer the requested key id is the one that signs |
| `Signers.RequestedKeyIsAdvertised` | executor/apdeliver/signer.go:170-183 | with every signer the requested key id is the one parsed back from the request |
| `Signers.LocalSignIff` | httpsig/httpsig.go:227-237 | when an in-process key signs, with what, and when the key is unknown |
| `Signers.DirSignIff` | executor/apdeliver/signer.go:170-183 | the same for a directory of keys, given what was loaded |
| `Signers.RemoteSignIff` | executor/apdeliver/remote.go:110-202 | a remote signer signs if and only if the answer is good, and with what; the key is unknown exactly on a 410 or a JSON 404; only a blocked address is given up |
| `Signers.SignersNeverDelay` | executor/apdeliver/remote.go:121-202 | no signer's own error carries a retry delay |
| `DirSigning.DirSignedRequestsVerify` | executor/apdeliver/signer.go:170-218 | in every interleaving with identifying stamps, what a dir signer signs verifies under a key the file held between its call and return, and advertises the requested id |
| `DirSigning.UnknownKeyWasAbsent` | executor/apdeliver/signer.go:170-218 | it reports an unknown key only when none was named or the file was absent at a moment of the call |
| `DirSigning.AbsentKeyIsPermanent` | executor/apdeliver/apdeliver.go:179-184 | a delivery whose key file is absent throughout the load sends nothing and fails for good |
| `Delivery.FillHeadersLoop` | executor/apdeliver/apdeliver.go:164-172 | the loop over payload headers computes the header map or refuses |
| `Delivery.FillSucceedsIff` | executor/apdeliver/apdeliver.go:164-172 | it refuses if and only if a header that the executor does not control has a name that is no token or a value with a control byte |
| `Delivery.TokenBytes` | executor/apdeliver/apdeliver.go:341-347 | the accepted name bytes are the token characters of section 5.6.2 of RFC 9110 |
| `Delivery.DeliveryCarries` | executor/apdeliver/apdeliver.go:144-184 | what is on the wire in the payload's terms: the trimmed activity or the body, the inbox, the content type or its default, date, digest and the executor's headers |
| `Delivery.DeliveryCarriesHeader` | executor/apdeliver/apdeliver.go:164-172 | and each other payload header, with the last value given for its name |
| `Delivery.ComposesIff` | executor/apdeliver/apdeliver.go:144-172 | exactly which payloads can be sent |
| `Delivery.UndeliverableSendsNothing` | executor/apdeliver/apdeliver.go:144-172 | any other payload sends nothing and fails for good |
| `Delivery.PayloadHeadersAreNotSigned` | executor/apdeliver/apdeliver.go:312-318 | the signed text does not depend on payload headers or their order |
| `Delivery.DeliveriesAreSignable` | executor/apdeliver/apdeliver.go:139-184 | every covered header of a delivery is set, so there is always a string to sign |
| `Delivery.DeliveredRequestsVerify` | executor/apdeliver/apdeliver.go:139-219 | whatever Execute sends is accepted by Verify with exactly the bytes sent |
| `Delivery.DelaysOnlyWhenRetryable` | executor/apdeliver/apdeliver.go:179-218 | a retry delay is attached only to errors that are not unrecoverable |
| `Delivery.ConfiguredSignersDelayOnlyWhenRetryable` | executor/apdeliver/apdeliver.go:179-218 | the same for the file, dir and remote signers, with only the transport's errors assumed free of delays |
| `Delivery.SentDeliveryOutcome` | executor/apdeliver/apdeliver.go:186-218 | a sent delivery succeeds if and only if the answer is 2xx, and is unrecoverable if and only if the address was blocked or the status is a 3xx or 4xx other than 401, 408 and 429 |
| `Delivery.UndeliverableIsPermanent` | executor/apdeliver/apdeliver.go:139-219 | an undeliverable payload or unknown key fails for good before anything is sent |
| `Delivery.SigningFailureOutcome` | executor/apdeliver/apdeliver.go:179-184 | a failed signing sends nothing and is given up if and only if the key is unknown or the signer gave up |
| `Delivery.UnknownKeyIsPermanent` | executor/apdeliver/apdeliver.go:179-184 | with a signer that does not know the key every payload fails for good |
| `Delivery.DeliveryHonoursRetryAfter` | executor/apdeliver/apdeliver.go:198-219 | a retryable answer asking for n seconds delays the job min(n, 3600) seconds |
| `Retry.ParseDeltaSeconds` | retry_after.go:83-109 | digits of any length read as their unbounded value, saturated to the largest duration |
| `Retry.DeltaSecondsEndToEnd` | executor/httpexec/httpexec.go:229-244 | header to applied delay: min(n, 3600) seconds for n > 0, the configured backoff for 0 |
| `Retry.NegativeSecondsDecline` | retry_after.go:115-149 | negative seconds of any length leave the configured backoff |
| `Retry.DateEndToEnd` | retry_after.go:83-149 | a future date reads as the saturated time left and is applied up to 1h; a past one is declined at once |
| `Retry.DelayIsBounded` | retry_after.go:115-149 | for any error chain the hook declines or answers within [0, 1h], and wrapping changes nothing |
| `Retry.NoWrap` | retry_after.go:83-109 | every value on the way is a genuine int64, and the product never wraps |
| `Retry.HonouredIff` | retry_after.go:74-109 | a header that is no date asks for a delay if and only if, after one optional plus, it is digits of positive value or begins with digits beyond 64 bits; and which delay |
| `Retry.HonouredEndToEnd` | retry_after.go:83-149 | the same to the applied delay |
| `Retry.MalformedHonouredIff` | retry_after.go:80-98 | exactly which headers that are neither a date nor delta-seconds are honoured |
| `Retry.OverflowHidesTrailingText` | retry_after.go:80-98 | digits beyond 64 bits wait the whole hour whatever text follows them, with or without a plus |
| `Retry.DeclinesIff` | retry_after.go:115-149 | on any error chain the hook declines if and only if it holds no delay or the first is negative, and otherwise answers with the first, capped |
| `Retry.DelayKeepsKind` | retry_after.go:46-72 | attaching a delay leaves an unrecoverable failure unrecoverable, and no other becomes so |
| `Retry.IsIff` | retry_after.go:46-59 | errors.Is finds a sentinel if and only if it is in the chain, under a delay too |
| `Retry.ClampedIffNotNegative` | retry_after.go:42-45 | a negative delay is declined, not treated as zero |
| `EnvExpand.ExpandRender` | config.go:256-286 | expanding any rendered literals and references gives the literals and values in turn, without rescanning |
| `EnvExpand.ExpandIsMeaning` | config.go:256-286 | the same for every string, through the references found in it |
| `EnvExpand.RenderScan` | config.go:242-242 | the references and characters found in a string render back to it |
| `EnvExpand.DefaultMarkIsDefaultForm` | config.go:267-271 | the ":-" test is true exactly for the default form |
| `EnvExpand.MatchIff` | config.go:242-242 | the pattern matches at the front of a string if and only if it begins with a rendered reference |
| `EnvExpand.ExpandedScalar` | config.go:258-280 | a visited scalar holds the meaning of its references and loses its tag exactly when it has one; otherwise it is untouched |
| `EnvExpand.MatchAgain` | config.go:262-264 | matching a matched text again gives all of it and the same groups |
| `EnvExpand.ExpandEnvNode` | config.go:256-286 | the document is expanded in place in document order and the collected names reported once each; without sharing, every scalar then holds the meaning of what it held, untagged exactly where that had a reference, and the report is exact |
| `EnvExpand.ReportIsExact` | config.go:281-285 | the error names exactly the unset default-less variables of the document, once each, in order of first occurrence |
| `Document.WalkScalars` | config.go:291-302 | the recursive walk visits every scalar in document order, in place, whatever the visitor; a scalar that occurs twice is visited twice |
| `Document.DistinctVisits` | config.go:288-302 | when no scalar occurs twice, that is visiting each on what it held at the start |
| `Dedup.DedupeInPlace` | config.go:304-315 | compacting into the array being read gives the first occurrences of the original, and leaves the rest alone |
| `Dedup.DedupeFresh` | register.go:323-334 | the same into a fresh list |
| `Dedup.FirstsIsFirsts` | config.go:304-315 | the result has no repeats, the same elements, and first-occurrence order |
| `Dedup.FirstsUnique` | config.go:304-315 | only one list has those three properties |
| `Dedup.FirstsGrows` | register.go:321-334 | appending never moves what was there |
| `Dedup.FirstsAbsorbs` | register.go:299-334 | appending names already listed, as a repeated Check does, changes nothing |
| `Config.Validate` | config.go:363-410 | no error if and only if the configuration is valid; otherwise the first fault, with its index |
| `Config.ValidIff` | config.go:363-410 | the valid configurations, written out |
| `Config.FaultIs` | config.go:385-408 | which fault of a queue block is named |
| `Config.DefaultsSettle` | config.go:334-359 | applying defaults is idempotent, and exactly which configurations are valid after it |
| `Config.DefaultsKeepWhatIsSet` | config.go:320-359 | a field that is set is kept, one at zero gets its documented default, the rest is untouched |
| `Config.SumDeclared` | config.go:420-433 | the wrapping loop gives the exact sum of shares wrapped once, or the default when that is zero |
| `Config.SharesAtLeastOneEach` | config.go:418-433 | every validated queue adds at least one, so the exact sum is zero only without queues |
| `Config.AutoPoolSizeIs` | config.go:435-444 | as long as it fits, the auto-sized pool is the declared concurrency plus eight |
| `Config.FindQueue` | config.go:447-454 | the loop finds the first block of the name |
| `Config.LookupFinds` | config.go:447-454 | a block is found if and only if declared, and with distinct names it is that block |
| `Config.TuningFromOptions` | register.go:65-73 | per knob the last option given wins |
| `Config.LastIs` | register.go:65-73 | "last" is the option after which none sets the knob again |
| `Config.OptionsConcat` | register.go:94-114 | options in two batches are the second laid over the first |
| `Config.OverlayIsAMonoid` | register.go:94-114 | overlaying is associative with the unset tuning neutral |
| `Config.Precedence` | register.go:311-319 | each knob independently: YAML block, then last Go option, then default |
| `Config.PrecedenceUndeclared` | register.go:311-319 | each knob of an undeclared queue: last Go option, then default |
| `Config.SlotsIff` | register.go:313-319 | a queue resolves to no slots if and only if an unoverridden Go option says so |
| `SafeDial.V4PublicIff` | internal/safedial/safedial.go:75-130 | the IPv4 tests are membership in an explicit union of ranges |
| `SafeDial.V6PublicIff` | internal/safedial/safedial.go:75-130 | on IPv6 the embedded IPv4 address decides where there is one, explicit ranges elsewhere |
| `SafeDial.WrapperHasEmbeddedVerdict` | internal/safedial/safedial.go:89-130 | mapped, NAT64 and compatible wrappers get their embedded address's verdict, whatever the middle bits |
| `SafeDial.RangesAreDisjoint` | internal/safedial/safedial.go:75-97 | the ranges are disjoint |
| `SafeDial.EmbeddingIsV6` | internal/safedial/safedial.go:100-130 | no embedding prefix contains an IPv4 address, so one unwrap is the last |
| `Utf8.Truncate` | internal/httpsend/httpsend.go:84-93 | the decrementing loop cuts at the last rune start within the limit |
| `Utf8.EncodedIsValid` | internal/httpsend/httpsend.go:82-93 | every encoded sequence of scalar values is valid text in the model's sense |
| `Utf8.ValidIsEncoded` | internal/httpsend/httpsend.go:82-93 | and every valid text is one |
| `Utf8.PrefixValidIffRuneStart` | internal/httpsend/httpsend.go:84-93 | in valid text the valid prefixes are exactly those that end before a rune start |
| `Utf8.TruncateKeepsWholeRunes` | internal/httpsend/httpsend.go:84-93 | the longest whole-character prefix within the limit is kept and the output is valid UTF-8 |
| `Utf8.SanitizeHeaderValue` | executor/httpexec/httpexec.go:325-338 | the byte loop computes the cleaned, truncated value |
| `Utf8.SanitizedIsLegal` | executor/httpexec/httpexec.go:325-367 | always a legal field value of bounded length, valid UTF-8 when the input is, and the identity on short legal values |
| `Utf8.SanitizedReplacesOnlyIllegal` | executor/httpexec/httpexec.go:325-367 | of the truncated value exactly the illegal bytes are replaced, by underscores |

## Left out

- mkq, go-redis, the BullMQ scripts and Prometheus: foreign code; only the Drain and Stop contract above enters.
- RSA, SHA-256, HMAC, PEM and X.509: library calls, taken as function parameters.
- YAML, JSON, URL and HTTP-date parsing: library parsers; the model starts from the parsed value.
- cmd/mkqd: flag handling and printing over single mkq calls.
- server.go, logging.go, version.go and the deployment files: the health server appears only as one bounded step of Shutdown and one failure of Start.
- executor.go's factory registry: a lookup table; a factory is an arbitrary function from queue block to result.
- httpexec's classify, header merging and return value: each follows from one branch, or depends on map order.
- Start racing Shutdown: rt.workers is appended to without the lock, so the source itself excludes it.
- Config.DefaultsSettle: applyDefaults is a function on a configuration value rather than writes through a pointer.
- SafeDial.V6PublicIff: addresses with a zone are not modelled.
- Retry.NegativeSecondsDecline: supposes that the text of a negative number is not an HTTP-date.
- Lifecycle.Runtime.StopWorkers: drains one after another, since only the outcome per worker matters there; Shutdown.dfy has the concurrency and the time.
- Shutdown.ServingOverstatesIff: a Shutdown after a rolled-back Start is in Runs.dfy, between completed calls, and not in the step system; nor are the moments inside Start before its workers are up.
