# Verified model of the AlloyDB Go Connector

The connector dials AlloyDB instances over mutual TLS. Its moving parts are a cache that keeps a
client certificate fresh in the background, a lazy variant of it, the Dialer that shares one cache
per instance between all Dial calls, a small framed exchange at the start of every connection, and
the URI that names an instance. This project models those parts in Dafny and proves what they keep
over every run and every interleaving.

`dafny verify dfyconfig.toml` checks everything.

| file | what it holds |
|---|---|
| `Timing.dfy` | the constants of the refresh cycle and the delay between two refreshes |
| `RefreshMachine.dfy` | the refresh-ahead cache as a machine: timers, limiter, API call, publication, locked update, ForceRefresh, Close |
| `RefreshChain.dfy` | single live chain, conservation, monotone reads, write-once publication, the retry of Dial |
| `RefreshRate.dfy` | the rate bound over whole runs, and the limiter against the refresh timeout |
| `RefreshClose.dfy` | what is left to happen after Close |
| `RefreshValidity.dfy` | good results are kept; continuous validity under stated timing assumptions |
| `RefreshAheadCache.dfy` | the cache as objects updated in place; every method is one step of the machine |
| `LazyCache.dfy` | the lazy cache as a class, against a specification over call histories |
| `ForkJoin.dfy` | the two concurrent fetches of one refresh and their join |
| `Bytes.dfy`, `MetadataExchange.dfy`, `ExchangeProperties.dfy` | the length-prefixed exchange, its pooled buffer, client and server composed |
| `DialerMachine.dfy`, `DialerProperties.dfy`, `Dialer.dfy` | get-or-create under two locks, removal, the key generated once |
| `OpenConnections.dfy` | the open-connection counter, modulo 2^64 |
| `InstanceUri.dfy`, `InstanceUriRoundTrip.dfy` | the regular expression that parses an instance URI, and its printer |
| `Wrappers.dfy` | the optional value, the smaller of two numbers |

## Assumptions about the environment

- Instants and durations are integers in nanoseconds; a difference of instants saturates as a Go
  Duration does. The clock never goes back.
- `golang.org/x/time/rate` is an exact token bucket: one unit per nanosecond, 30 seconds' worth of
  units per token, two tokens at most. `Wait` fails at once if its context is done or the wait would
  exceed the deadline; a cancelled reservation gives its token back unless its time has passed.
- `time.Timer.Stop` returns true exactly when the timer was armed. A section under a lock is one
  step; everything between two such points can interleave with anything.
- The Admin API returns any outcome at any time. Errors are values.
- Go's `regexp` matches leftmost-first.
- In the metadata exchange every Read and Write moves any number of bytes up to what it was asked
  for, with or without an error. Messages are the bytes the protobuf library makes of them.
- `sync.Pool.Get` returns a buffer put back before or a new one.

Continuous validity needs its own assumptions, which its statement lists: timers, grants and runnable
goroutines do not lag behind the clock, an API call takes at most a given time, a certificate outlives
its installation by at least four minutes, and a bounded number of refreshes in a row fail. It needs
no lower bound on the refresh timeout, since a refresh the limiter turns away is one more failure.

## Where the code is narrower than its comments

- `dialer.go:304` blocks on "refreshed connection info". In the window between `close(r.ready)` and
  the locked update, the retry gets the expired result again (`RefreshChain.RetryAvoidsExpiredResult`
  gives the exact condition, `RefreshChain.RetryCanMeetExpiredResult` a run).
- `removeCached` "stops all background refreshes" of the cache it is handed, but deletes whatever
  entry is there (`DialerProperties.RemovalStraysIff`, `DialerProperties.OverlappingDialsStray`).
  Over whole runs, `DialerProperties.NeverStrayIff` says when none is left running outside the map.
- A successful refresh replaces the current result whatever its expiration, so a certificate that
  arrives expired displaces a valid one: `RefreshValidity.GoodResultIsKeptIff` gives the exact
  condition for every run, `RefreshValidity.ExpiredResultDisplacesGood` a run.
- Close "prevents it from making additional calls" (`instance.go:193-194`), but a refresh that has
  reserved its token can still start its call, with the cancelled context
  (`RefreshClose.OneMoreCallIff`).
- The client's two reads of the response ignore how many bytes they moved (`dialer.go:488`,
  `dialer.go:495`), so after a short read it decodes what its pooled buffer held before.
  `ExchangeProperties.BufferIsInvisibleIff` gives the exact condition,
  `ExchangeProperties.ShortReadExposes` a family of inputs. The server of `internal/mock` checks the
  counts and is exact (`ExchangeProperties.ReceivesIff`).
- The format in the comment at `instance.go:50-51` does not say that a well-formed instance can be
  lost when printed and parsed, as when the words of the format come twice
  (`InstanceUriRoundTrip.RepeatedWordIsLost`).
  `InstanceUriRoundTrip.RoundTripIff` gives the exact condition; no caller meets the failing side,
  since the fields are unexported, the parser is the only source of instances, and it yields none of those
  (`InstanceUriRoundTrip.ParsedIff`).

## Model

| member | source | states |
|---|---|---|
| `Timing.RefreshDuration` | internal/alloydb/instance.go:244-255 | the delay is never negative, is zero exactly when no more than four minutes are left, and whenever four minutes are left now they are still left when it has passed |
| `Timing.RefreshLeaves` | internal/alloydb/instance.go:241-255 | under an hour the refresh comes when exactly four minutes are left, above it when as much time is left as was waited |
| `Timing.DocumentedDelays` | internal/alloydb/instance_test.go:263-294 | the delays the tests promise, in nanoseconds |
| `RefreshChain.SingleLiveChain` | internal/alloydb/instance.go:184-189 | in every reachable state only `next` can be scheduled or running, and before Close it is |
| `RefreshChain.CycleNeverStuck` | internal/alloydb/instance.go:260-351 | a live `next` whose wake-up time has come can step, and its locked update, nothing else, hands over to a successor |
| `RefreshChain.Conservation` | internal/alloydb/instance.go:225-239 | scheduled = 1 + timers cancelled by ForceRefresh + locked updates = stopped + finished + live; while open, exactly the cancelled ones are stopped |
| `RefreshChain.NoReaderCapturesDeadOperation` | internal/alloydb/instance.go:149-155 | before Close, what a reader captures is published or is the live `next`, never an operation whose timer was stopped |
| `RefreshChain.MonotoneReads` | internal/alloydb/instance.go:206-210 | over any run neither `cur` nor `next` moves back, and `cur` never passes the last operation scheduled |
| `RefreshChain.WriteOnce` | internal/alloydb/instance.go:102-110 | what an operation published never changes, so all its readers agree; a stopped operation never publishes |
| `RefreshChain.ReadyClosedAtMostOnce` | internal/alloydb/instance.go:312 | over any run `ready` is closed exactly once for each operation that became readable |
| `RefreshChain.OutcomesAreReturned` | internal/alloydb/instance.go:279-312 | over any run, whatever an operation came to hold was returned to it by the Admin API, or is the failure of its wait or context check |
| `RefreshChain.ForceReplacesTimer` | internal/alloydb/instance.go:227-239 | a pending timer is stopped and an operation due at once takes its place, a running refresh is left alone; `cur` stays if valid and is the coming refresh otherwise |
| `RefreshChain.ForceStartsRefresh` | internal/alloydb/instance.go:225-239 | after ForceRefresh a refresh is running or can start at once, and a reader captures a valid result or that refresh |
| `RefreshChain.UpdateHandsOver` | internal/alloydb/instance.go:320-349 | after a failure the next refresh is due at once, after a success no later than when the buffer is left; the finished refresh becomes current unless it failed and `cur` is still valid |
| `RefreshChain.NoCallBeforeDue` | internal/alloydb/instance.go:260-263 | without ForceRefresh no call starts, no token is taken and no operation is replaced before the scheduled refresh is due |
| `RefreshChain.RetryAvoidsExpiredResult` | dialer.go:301-310 | after ForceRefresh the retry never gets the expired result again, in any continuation, if and only if that result's locked update had run, even if another Dial has closed the cache meanwhile |
| `RefreshChain.RetryCanMeetExpiredResult` | internal/alloydb/instance.go:312-316 | a run in which the retry does get it again |
| `RefreshRate.RateBound` | internal/alloydb/instance.go:36-46 | over any run, any window of length T holds at most 2 + T/30s calls granted, whatever fails and however often ForceRefresh is called |
| `RefreshRate.StartRateBound` | internal/alloydb/instance.go:284-298 | the same for the instants at which calls start, with the goroutines' lateness added to the window |
| `RefreshRate.WaitIsAtMostOneInterval` | internal/alloydb/instance.go:281-284 | a refresh that reserves finds the bucket out of debt, and one that sleeps is granted within 30s and within its deadline |
| `RefreshRate.TimeoutSufficesIff` | internal/alloydb/instance.go:281-296 | no refresh is ever turned away by the limiter, however late after making its timeout context it comes to reserve, if and only if the refresh timeout is at least the refresh interval |
| `RefreshRate.TimeoutIsSafeIff` | internal/alloydb/instance.go:40-43 | a token always comes strictly before the deadline, however late before it the refresh reserves, if and only if the refresh timeout is greater than the refresh interval |
| `RefreshRate.EveryStartIsCounted` | internal/alloydb/instance.go:298 | the calls that the bounds count are all that the run started |
| `RefreshRate.CallsGrantedCounts` | internal/alloydb/instance.go:36-46 | the number the bounds speak of is the number of calls whose grant lies in the window |
| `RefreshRate.CallsAreRare` | internal/alloydb/instance.go:36-46 | with burst 2 and one call per 30s: at most 3 calls granted in 30 seconds and 122 in an hour |
| `RefreshRate.DefaultTimeoutIsSafe` | internal/alloydb/instance.go:40-43 | the default timeout of 60 seconds meets the condition |
| `RefreshRate.WaitIsGranted` | internal/alloydb/instance.go:281-284 | with a timeout above the interval a refresh that sleeps never gives up before its token, and gets it when its time has come |
| `RefreshRate.CancelledWaitIsFree` | internal/alloydb/instance.go:284 | a wait given up before its token's time leaves the limiter as if never entered, for all time; later it costs the token |
| `RefreshClose.CloseStopsTheTimer` | internal/alloydb/instance.go:195-202 | Close stops every armed timer and changes nothing else |
| `RefreshClose.AtMostOneCallAfterClose` | internal/alloydb/instance.go:193-194 | after Close at most one more API call starts in any continuation, and none unless a token had been reserved |
| `RefreshClose.OneMoreCallIff` | internal/alloydb/instance.go:193-194 | some continuation after Close does start one more call if and only if a token had been reserved |
| `RefreshClose.FiringAfterCloseEndsTheCycle` | internal/alloydb/instance.go:263-274 | an operation that fires after Close fails with the context's error, never calls the API and never schedules a successor |
| `RefreshClose.CloseQuiesces` | internal/alloydb/instance.go:195-202 | without further ForceRefresh at most seven more goroutine steps and one more operation follow Close; at every point either nothing is live or some step can still be taken, at once or after a wait |
| `RefreshValidity.GoodStepIff` | internal/alloydb/instance.go:320-340 | a valid `cur` is valid after a step if and only if the clock does not pass its expiration and the step installs no expired certificate; only a successful update replaces it at all |
| `RefreshValidity.GoodResultIsKeptIff` | internal/alloydb/instance.go:326-340 | over any run `cur` stays valid throughout if and only if every step meets that condition |
| `RefreshValidity.ExpiredResultDisplacesGood` | internal/alloydb/instance.go:340 | a run in which an expired certificate displaces one with an hour left |
| `RefreshValidity.ContinuousValidity` | internal/alloydb/instance.go:134-137 | under the timing assumptions, from the first success until Close `cur` is valid at every instant, for any ForceRefresh calls |
| `RefreshValidity.TimelyRunExists` | internal/alloydb/instance.go:134-137 | a run that meets those assumptions as time passes: two successes by their timers, the first certificate expired, a ForceRefresh that cancels a timer, and a failure; the second certificate is served |
| `RefreshAheadCache.RefreshOperation.Cancel` | internal/alloydb/instance.go:112-117 | true exactly if the timer was armed, which it then stops |
| `RefreshAheadCache.RefreshOperation.IsValidAt` | internal/alloydb/instance.go:119-132 | true exactly if ready, without error and not past its expiration |
| `RefreshAheadCache.Cache.constructor` | internal/alloydb/instance.go:165-191 | `cur` and `next` are one operation, armed for now; the cache is open |
| `RefreshAheadCache.Cache.ForceRefresh` | internal/alloydb/instance.go:227-239 | an armed `next` is halted and a new one armed for now takes its place; `cur` stays if valid and is `next` otherwise; the objects move as the machine's step says, from one reachable state to another |
| `RefreshAheadCache.Cache.Close` | internal/alloydb/instance.go:195-202 | no timer stays armed and both pointers stay; the objects move as the machine's step says |
| `RefreshAheadCache.Cache.CompleteRefresh` | internal/alloydb/instance.go:316-349 | a new `next` is armed, for now after an error and after the refresh delay otherwise; `cur` becomes the finished refresh unless that failed and `cur` is valid; as the machine's step says |
| `RefreshAheadCache.Cache.CheckClosed` | internal/alloydb/instance.go:264-274 | a closed cache ends the callback with the context's error readable, an open one goes on unchanged |
| `RefreshAheadCache.Cache.StoreOutcome` | internal/alloydb/instance.go:284-298 | result and error are stored before anyone can read them |
| `RefreshAheadCache.Cache.CloseReady` | internal/alloydb/instance.go:312 | `ready` was open and is now closed; readers see what was stored |
| `RefreshAheadCache.Cache.Capture` | internal/alloydb/instance.go:207-209 | what is captured from an open cache is ready or the live `next` |
| `RefreshAheadCache.Cache.Await` | internal/alloydb/instance.go:210-222 | the info returned is the captured operation's success; an error is that operation's, the caller's context's or the closed cache's |
| `LazyCache.RepliesAreFresh` | internal/alloydb/lazy.go:55-58 | a success is the call's own fetch, or the latest successful fetch with more than four minutes left and no ForceRefresh since |
| `LazyCache.AnswersFromCacheIff` | internal/alloydb/lazy.go:67-76 | a call is answered without a fetch if and only if some call fetched successfully, no later one did, no ForceRefresh followed and more than four minutes are left; the answer is what it fetched |
| `LazyCache.SuccessAfterForceIsNew` | internal/alloydb/lazy.go:109-115 | any success after a ForceRefresh comes from a fetch begun after it |
| `LazyCache.FailedFetchChangesNothing` | internal/alloydb/lazy.go:83-92 | a failed fetch makes no difference to any later call, whatever is requested in between |
| `LazyCache.LatestIsLatest` | internal/alloydb/lazy.go:104-105 | the fetch the specification calls latest is the last one that was made and succeeded |
| `LazyCache.LazyRefreshCache.ConnectionInfo` | internal/alloydb/lazy.go:59-107 | the API is asked, and the reply given, exactly as the history of calls determines; both fields stay as they were unless a fetch succeeds |
| `LazyCache.LazyRefreshCache.ForceRefresh` | internal/alloydb/lazy.go:111-115 | sets the flag and enters the history; the fields stay what the history makes of them |
| `ForkJoin.Confluence` | internal/alloydb/refresh.go:277-334 | without cancellation every completion order gives a metadata error first, else a certificate error, else both results |
| `ForkJoin.SuccessMeansBothSucceeded` | internal/alloydb/refresh.go:299-323 | with cancellation too, a success holds both fetches of this call and an error is that of the fetch it names |
| `ForkJoin.NobodyBlocksOnSend` | internal/alloydb/refresh.go:281-297 | a goroutine about to send always finds room, and the caller never receives a closed channel's zero value |
| `ForkJoin.CancelEndsTheWait` | internal/alloydb/refresh.go:299-323 | a cancelled caller that has not returned can return at once with the context's error, and gives up only if cancelled |
| `ForkJoin.AlwaysEnds` | internal/alloydb/refresh.go:277-323 | at most eight steps besides cancellation, and while one is left some goroutine can take it; then the caller has returned and both goroutines are gone |
| `Bytes.DecodeOfEncode` | dialer.go:465 | reading back the big-endian length prefix gives the number written |
| `Bytes.EncodeOfDecode` | dialer.go:493 | writing back a prefix that was read gives its four bytes |
| `Bytes.BigEndian` | dialer.go:465 | the most significant byte comes first, written and read |
| `MetadataExchange.BufferPool.Get` | dialer.go:513-532 | a buffer of full length that no other exchange holds |
| `MetadataExchange.Append` | dialer.go:466 | in place when the capacity allows, in a fresh array with zeros behind otherwise; the whole array is given |
| `MetadataExchange.Exchange` | dialer.go:442-511 | result, bytes written and bytes consumed are a function of the request, the peer's bytes, how far every read and write gets, and what the pooled buffer held; every pooled buffer keeps its length |
| `MetadataExchange.Serve` | internal/mock/alloydb.go:339-385 | what the server receives, writes and leaves unread, and which error or short count ends it |
| `ExchangeProperties.ServerRecovers` | internal/mock/alloydb.go:339-363 | on a sound connection the server recovers the message exactly, answers with its own frame and leaves what follows unread |
| `ExchangeProperties.ServerRecoversIff` | internal/mock/alloydb.go:349-358 | the server recovers a request exactly if and only if its length fits the 32-bit prefix |
| `ExchangeProperties.ServerAnswersIff` | internal/mock/alloydb.go:339-385 | the server writes only in answer to a message it accepted, completes if and only if all of its frame went out, and names what went wrong otherwise |
| `ExchangeProperties.ReceivesIff` | internal/mock/alloydb.go:339-363 | whatever fails, the server takes a message as received if and only if its input begins with it behind its true length and both reads were complete |
| `ExchangeProperties.ClientRecovers` | dialer.go:487-510 | if both reads are complete the client consumes exactly 4 + the response's size, whatever the pooled buffer held, and completes exactly on an OK response; a refusal is reported with its message and an undecodable response as such |
| `ExchangeProperties.CompletesIff` | dialer.go:500-510 | for any input and failures the exchange completes if and only if nothing failed, the response fits and what was decoded says OK |
| `ExchangeProperties.FirstFailureIsReported` | dialer.go:442-498 | the first call to fail ends the exchange with its own error, before anything later is written or read |
| `ExchangeProperties.ExchangeIsFaithful` | dialer.go:423-441 | whenever client and server run on each other's written bytes, each side recovers exactly the other's message and leaves the other's later bytes; the client completes exactly on OK |
| `ExchangeProperties.StreamsFitTogether` | dialer.go:423-441 | for all messages, later bytes and buffers there is an exchange in which each side reads what the other wrote |
| `ExchangeProperties.PanicsIff` | dialer.go:493-494 | for any input and any failures, slicing out the response panics if and only if the exchange gets that far and the announced length exceeds the buffer's capacity |
| `ExchangeProperties.LongResponsePanics` | dialer.go:494 | every response longer than the buffer makes it panic |
| `ExchangeProperties.BufferIsInvisibleIff` | dialer.go:487-501 | what an earlier exchange left in the pooled buffer makes no difference, for any decoder, if and only if the response does not fall short or is announced no longer than the client's own frame, or that frame left the pooled buffer |
| `ExchangeProperties.ShortReadExposes` | dialer.go:495 | after any request with room in the buffer, a response longer than the request's frame and cut short lets old bytes through |
| `ExchangeProperties.WritesPrefixOfFrame` | dialer.go:468-478 | whatever fails, a prefix of the frame is written, and all of it before anything is read if a short write returns an error |
| `DialerProperties.Linearizes` | dialer.go:608-664 | every run of any number of threads is a run of the specification in which each lookup is one atomic get-or-create |
| `DialerProperties.SectionCreates` | dialer.go:614-663 | under the write lock an entry that appeared is returned; otherwise the key the once holds or now makes is used, a failure leaves the map alone, and a new cache with that key becomes the entry |
| `DialerProperties.InsertionsMatchRemovals` | dialer.go:617-661 | per instance, caches inserted = removals that found one + the one present |
| `DialerProperties.OneKey` | dialer.go:81-107 | the generator runs at most once over a run, not at all for a provided key, and every cache has the same key: the one provided, or the one the generator returned |
| `DialerProperties.CallersShareOneCache` | dialer.go:611-617 | without a removal in between, every caller of one instance gets the cache that is there |
| `DialerProperties.RemovalDeletes` | dialer.go:399-402 | the entry is deleted whichever cache it holds, the caller's cache is closed, and nothing else changes |
| `DialerProperties.RemovedIsNeverReturned` | dialer.go:387-403 | after a removal, whoever returns later for that instance, in any continuation, gets a cache created after it |
| `DialerProperties.RemovalStraysIff` | dialer.go:387-403 | a removal leaves a running cache outside the map if and only if the entry deleted is another one that still runs |
| `DialerProperties.NeverStrayIff` | dialer.go:387-403 | over any run from a new Dialer, no cache ever runs on outside the map if and only if every removal deletes its caller's own cache or a closed one |
| `DialerProperties.OverlappingDialsStray` | dialer.go:399-402 | a run of three overlapping dials in which it does |
| `DialerProperties.CloseAllCloses` | dialer.go:600-605 | Dialer.Close closes the caches in the map, those and no others |
| `DialerProperties.CloseAllIsEnoughIff` | dialer.go:600-605 | it leaves no cache running if and only if none was left outside the map before |
| `Dialer.NewKeyGenerator` | dialer.go:81-99 | a provided key uses up the once, lazy mode leaves it, otherwise the key is generated and a failure reported |
| `Dialer.KeyGenerator.RsaKey` | dialer.go:101-107 | the first outcome, on this and every later call |
| `Dialer.Dialer.Find` | dialer.go:611-613 | the entry if there is one; the read-locked lookup is one step of the machine |
| `Dialer.Dialer.FindOrCreate` | dialer.go:614-663 | an entry that appeared is returned, otherwise a fresh cache is inserted and returned, and an error leaves the map alone; one step of the machine |
| `Dialer.Dialer.Remove` | dialer.go:389-403 | the caller's cache is closed and the entry is gone, as the machine's step says |
| `Dialer.Dialer.Close` | dialer.go:600-605 | every cache in the map is closed and the map is left alone |
| `OpenConnections.CounterAtEveryMoment` | dialer.go:375-384 | under every interleaving the counter is dials less closes counted so far, modulo 2^64 |
| `OpenConnections.CounterIsExactIff` | dialer.go:580-587 | it shows the number of open connections if and only if as many dials as closes are still uncounted, so at quiescence |
| `OpenConnections.CloseCountsOnce` | dialer.go:580-587 | closing an open connection closes it and no other and starts one decrement; closing again changes nothing |
| `OpenConnections.CounterCountsActions` | dialer.go:375-384 | from the actions alone: the counter is increments less decrements made, and once none is pending dials less connections closed, modulo 2^64 |
| `OpenConnections.MonitoredCache.CloseConn` | dialer.go:580-587 | the connection is closed; only a close that succeeds is counted |
| `OpenConnections.MonitoredCache.RunDecrement` | dialer.go:381-384 | adding ^uint64(0) takes one away, from zero to the largest value; one step of the machine |
| `InstanceUri.FindIsLeftmostFirst` | internal/alloydb/instance.go:54 | the matcher reports a match if and only if it is the leftmost-first one, and none if and only if the pattern matches nowhere |
| `InstanceUriRoundTrip.AcceptsIff` | internal/alloydb/instance.go:79-88 | ParseInstURI succeeds if and only if its input holds, somewhere, the URI of an instance in the format: nonempty colon-free parts, the project one or two joined by a colon |
| `InstanceUriRoundTrip.ParsedURIOccurs` | internal/alloydb/instance.go:90-96 | the URI printed for what was parsed is a substring of the input |
| `InstanceUriRoundTrip.ParseIsStable` | internal/alloydb/instance.go:66-97 | parsing that printed URI gives the same instance, even when groups swallowed slashes |
| `InstanceUriRoundTrip.RoundTripIff` | internal/alloydb/instance.go:49-71 | any instance survives printing and parsing if and only if its parts are nonempty and colon-free, the project being one such part or two joined by a colon, and no second `/locations/`, `/clusters/`, `/instances/` follow in order after the project, no second `/clusters/`, `/instances/` after the region, no second `/instances/` after the cluster |
| `InstanceUriRoundTrip.RepeatedWordIsLost` | internal/alloydb/instance.go:54 | a well-formed instance is lost whenever its region holds `/locations/`, its cluster `/clusters/` or its name `/instances/`, with something behind it |
| `InstanceUriRoundTrip.ParsedIff` | internal/alloydb/instance.go:79-97 | exactly those instances are ever parsed from any input, so whatever the parser yields survives |
| `InstanceUriRoundTrip.SlashFreeRoundTrip` | internal/alloydb/instance.go:49-71 | without slashes the well-formed parts are all it takes |
| `InstanceUriRoundTrip.FormatParses` | internal/alloydb/instance.go:50-51 | the documented format, written out, parses to its four parts |
| `InstanceUriRoundTrip.DomainScopedParses` | internal/alloydb/instance.go:52-54 | so does the legacy format with a domain-scoped project, colon included |

## Left out

- TLS, x509, PEM, RSA, protobuf encoding, OAuth tokens, admin REST calls, keep-alive: foreign libraries, present only as values and failures.
- Telemetry, logging, options, error types, the driver packages, the static cache, the mock admin server: wrappers without behaviour of their own.
- A bound on the fetch by the refresh timeout: the code has none, since the fetch runs under the cache's context; continuous validity takes the bound as an assumption.
- Release of every blocked reader: a reader that captured an operation before ForceRefresh stopped it waits until its context or the cache ends; only what holds at capture time is stated.
- RefreshAheadCache.Cache.Await: does not say that a closed cache returns an error, because the select may still take a ready result.
- RefreshAheadCache.Cache.Elsewhere: the limiter is a library object and appears only as the bucket of the machine state, so this method writes ghost state only.
- RefreshRate.RateBound: counts API calls, not operations; operations turned away by a short refresh timeout are rescheduled at once without a token.
- MetadataExchange.Exchange: does not model the deadlines beyond the failure to set them, nor the deferred calls that clear them.
- ExchangeProperties.BufferIsInvisibleIff: is about bytes of earlier exchanges; after a short read bytes of the client's own request are decoded too, and `ExchangeProperties.Decoded` shows them.
- DialerProperties.Linearizes: leaves out the check of the closed channel at the start of Dial, which a concurrent Close can overtake.
- ForkJoin is a machine over values rather than goroutines and channel objects; update in place plays no part in it.
- The IP address map of fetchInstanceInfo and the certificate parsing around it: plain field copying.
