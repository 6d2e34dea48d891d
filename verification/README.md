# Verified model of the platform's stateful cores

A Dafny 4.11 model of the parts of the voice platform where a little code carries
a promise about every run or every input, with proofs of those promises. Run
`dafny verify dfyconfig.toml` to check all of it.

| Part | Modules |
|---|---|
| Sealed-voicemail spool forwarder | `Spool`, `SpoolBackoff`, `SpoolPass`, `SpoolConservation`, `SpoolRejected`, `SpoolStranding`, `SpoolAnswers`, `SpoolRuns`, `Forwarder` |
| SIP search: index lookup and paging, leg fetch, index coverage | `IndexLookup`, `IndexPaging`, `IndexPagingLosses`, `LegFetch`, `IndexCoverage` |
| SIP search: leg graph, setup windows, ClickHouse literals | `LegGraph`, `SetupWindows`, `ClickHouseText` |
| Calls-per-second limiter | `CpsLimiter` |
| Session-status cache | `SessionStatus` |
| PCAP export | `Pcap` |
| CDR filter builder | `CdrFilters` |
| Carrier monitor: ESL replies and the reporting loop | `EslReply`, `CarrierMonitor` |

Code that updates state is a class or a method with loops, proved equal to a
specification function; the promises are lemmas about that function. `Ordering`,
`Lists`, `Powers` and `Wrappers` hold sorting, string order, selection from lists,
powers of two and the usual option types.

## How the forwarder is modelled

The spool is two maps from file name to content and modification time. A pass is
a list of single file operations, journal lines and sends, computed from what the
scan saw and from what the network would answer each message; a crash or an
exception between two operations leaves a prefix of that list. `Forwarder.RunOnce`
is the object with its fields, and is proved to do exactly those operations.
`SpoolRuns` puts passes, deposits by FreeSWITCH, crashes and lost replies together
into runs. JSON decoding is a parameter (`decode`), and file names come already
told apart.

## How the index lookup is modelled

The index is a list of rows (UTC day, number, role, Call-ID, first and last time). The
lookup reads the rows that match some needle on the days from the window's start to its
end, groups them by Call-ID, keeps the groups in which every needle matched and whose
times overlap the window, and orders them. The end moves down with the paging cursor,
and its day moves with it.

## Hypotheses

- Spool runs: the API answers "stored" or "duplicate" only when it holds the
  message; message ids are fresh; a deposit is finished before its metadata is old
  enough to be swept.
- Limiter: member ids are unique. `KeyAnswersLikeHistoryIff` is the exact condition on
  the clocks; it holds when callers' clocks do not step back between requests and the
  Redis clock stays within one second of a fixed offset from them.
- Session cache: a lookup that succeeds is remembered within the lookup timeout of
  its start.
- Index paging: a row's times lie on its UTC day. That is all the exact condition,
  `FollowIsCompleteIffNoPageLoses`, asks for. `FollowReturnsEveryCallOnce` is for
  searches with at least one needle, safe Call-IDs, at most 21 calls with one first
  timestamp, calls that begin in the window and, for several needles, a row for every
  needle on the day of the call's first message.
- Leg fetch: an answer is by ascending time, in any order among equal times, and
  leaves out only rows no older than those it holds.
- ESL: nothing is left unread from the authentication exchange.
- Coverage: a row is inserted no earlier than its timestamp; the view ran by the
  moment the records say it did.
- Carrier monitor, for when the API is behind only: the counter is unknown at the
  start and never runs backwards.

## Where the code and its documentation differ

The code is modelled as it is; each point is a lemma.

- The forwarder cuts a backoff short only "after a network failure"
  (`docker/vm-forwarder/forwarder.py:35-42`). The flag is set only by attempts that
  reached the wire, so it is stale after a local failure such as a missing secret:
  `StaleFlagCutsALocalBackoff`, and
  `EarlyAttemptFollowsANetworkFailureUnlessLocal` for the exact case.
- Setting a message aside overwrites a pair of the same name already in
  `rejected/`, with no journal line about it: `SecondTwinReplacesTheFirst`, and
  `ReplacedSilentlyIff` for exactly when.
- Metadata leaves `rejected/` before its blob when the two were alone in `rejected/`
  and in the spool and both old: the sweep first joins them and then deletes the
  metadata. `HalvesAreStranded`, and `MetadataGoesBeforeItsBlobIff` for exactly when.
- The index coverage walk stops one day short of what is complete when the view
  began exactly at a midnight that is not backfilled: `ClaimIsExact`. With only the
  table's modification time, in whole seconds, it can claim too much:
  `WholeSecondsClaimTooMuch`. `ClaimHoldsIff` and `ClaimHoldsForTheWholeSecondIff`
  say exactly when the claim holds.
- With several needles a lookup below a cursor does not see a number that first shows
  up on a later day than the cursor, so paging loses the call:
  `SecondNeedleAfterMidnightIsLost`. `DayBoundIsInvisibleIff` says exactly when the
  day bound never shows.
- A page of unsafe Call-IDs ends an index search though older calls remain:
  `UnsafeNewestHideTheRest`. Calls tied with a page's oldest past the extra ones fetched
  are cut too: `CallsPastTheExtraOnesAreCut`. `FollowIsCompleteIffNoPageLoses` is the
  exact condition for all of these.
- A PCAP record of a payload over 65493 bytes is longer than the snapshot length the
  file itself declares: `OneByteTooLong`, `PcapReadsBackIffItFits`.
- A closed ESL connection passes off a truncated body as a complete one:
  `ReplyDependsOnlyOnItsBytes`, `WholeBodyIffItArrived`.
- A disabled user is said to be out within the TTL. A slow status lookup can overwrite
  a fresher refusal, `SlowLookupOverwritesARefusal`, and an answer is remembered from
  when its lookup ended. The bound kept over all runs is the TTL and the lookup timeout,
  and no smaller one: `BoundHoldsIff`, `LockedOutWithinIff`.
- Two legs that name each other leave a group without an A leg:
  `MutualLinksHaveNoA`. So does every cycle, every tail into one, and a chain that
  leaves the result: `RootIsItsOwnIffChainEnds`, `GroupHasAnAIff`. On a cycle, a leg is
  not even grouped with the leg it is linked to: `LinkedLegsShareARootIff`.
- After a failed first report the monitor adopts the counter without a report, and
  the API waits for the heartbeat: `FailedBaselineWaitsForTheHeartbeat`. `BehindIff`
  and `BehindIffNothingPosted` say exactly when the API is behind.

## Model

| member | source | states |
|---|---|---|
| `Forwarder.ScanDir` | docker/vm-forwarder/forwarder.py:185-216 | a listing is split into complete pairs and leftovers, leftovers with their modification time |
| `SpoolPass.ScanFindsThePairs` | docker/vm-forwarder/forwarder.py:258-265 | the scan finds every complete pair of a directory exactly once, in (received, uuid) order |
| `SpoolPass.UsableIffTheSidecarIsItsOwn` | docker/vm-forwarder/forwarder.py:225-256 | a message can be sent if and only if its sidecar is at most 4096 bytes, names the message and gives a time; the bytes sent are the sidecar's own, and for an unusable one the blob's modification time stands in |
| `SpoolPass.ListingOrderIsInvisible` | docker/vm-forwarder/forwarder.py:185-216 | two listings of one directory give the same queue |
| `Forwarder.Forwarder.Scan` | docker/vm-forwarder/forwarder.py:258-265 | both directories' queues and all leftovers, as the specification lists them |
| `Forwarder.Forwarder.RemoveBoth` | docker/vm-forwarder/forwarder.py:267-272 | the blob is removed, then its metadata |
| `Forwarder.Forwarder.RejectBoth` | docker/vm-forwarder/forwarder.py:274-279 | metadata, then blob, move to the rejected directory, overwriting what has their name |
| `Forwarder.Forwarder.DropOld` | docker/vm-forwarder/forwarder.py:310-323 | exactly the messages past the age cap go, each with a journal line; the rest keep their order |
| `Forwarder.Forwarder.DropOverCap` | docker/vm-forwarder/forwarder.py:324-331 | the loop's victims, kept messages and journal are those of the size-cap specification |
| `SpoolPass.VictimsAreTheShortestRun` | docker/vm-forwarder/forwarder.py:324-331 | the victims are the shortest run of "oldest rejected, then oldest pending" that brings the spool under the cap |
| `SpoolPass.CapsAreKept` | docker/vm-forwarder/forwarder.py:306-331 | after the caps what is left fits in bytes and age, is the tail the shortest run leaves, and is sorted |
| `SpoolConservation.CapsRemoveOnlyWhatIsDue` | docker/vm-forwarder/forwarder.py:306-331 | whatever part of a pass is done, a file removed by the age cap is of a message too old, one removed by the size cap of a victim |
| `Forwarder.Forwarder.SweepOrphan` | docker/vm-forwarder/forwarder.py:332-345 | an old lone blob in the spool is set aside and journaled, other old leftovers are deleted, young or vanished ones are left |
| `SpoolPass.SweepOneSays` | docker/vm-forwarder/forwarder.py:332-345 | the sweep leaves a young or vanished leftover; an old blob of the spool goes to the rejected directory unchanged with a journal line; any other old one is deleted; nothing else is touched |
| `Forwarder.Forwarder.EnforceCaps` | docker/vm-forwarder/forwarder.py:306-352 | age cap on rejected then pending, size cap, sweep, and the gauges of what is kept |
| `Forwarder.Forwarder.SendOne` | docker/vm-forwarder/forwarder.py:371-419 | the outcome of an answer, and the flags: only an attempt that reached the wire changes them |
| `Spool.OutcomeIsByCode` | docker/vm-forwarder/forwarder.py:411-419 | 201 with a status of "stored" or "duplicate" counts as stored, 200 with one as a duplicate, 410 as gone, 422 as refused, and every other answer or none is tried again |
| `Forwarder.Forwarder.Backoff` | docker/vm-forwarder/forwarder.py:438-441 | the backoff doubles between its bounds and sets the next attempt with the jitter |
| `Forwarder.Forwarder.ReplayMessage` | docker/vm-forwarder/forwarder.py:461-491 | one message's send, what happens to its files, journal, counters and the backoff; stops at a retry |
| `Forwarder.Forwarder.ReplayUntilFailure` | docker/vm-forwarder/forwarder.py:461-491 | the loop ends right after the first failure or at the end of the queue |
| `Forwarder.Forwarder.MayReplay` | docker/vm-forwarder/forwarder.py:447-460 | whether a pass goes on to replay, and what the probe changes |
| `Forwarder.Forwarder.RunOnce` | docker/vm-forwarder/forwarder.py:443-492 | files, journal, counters and control state after a pass are those of its list of operations |
| `Forwarder.BooksFollowTheOps` | docker/vm-forwarder/forwarder.py:461-491 | files and journal are what the operations alone make of them |
| `Forwarder.CountersFollowTheSends` | docker/vm-forwarder/forwarder.py:468-488 | each answer counter grows by the sends answered so, by code and status |
| `Forwarder.DropsFollowTheJournal` | docker/vm-forwarder/forwarder.py:306-345 | each drop counter (age, size, no metadata, bad sidecar) grows by the journal's lines of its kind |
| `Forwarder.GaugesSay` | docker/vm-forwarder/forwarder.py:346-352 | the gauges are number and bytes of what is pending and of what is set aside, and the age of the oldest pending message |
| `SpoolPass.SendsAreAPrefixUpToTheFirstFailure` | docker/vm-forwarder/forwarder.py:461-491 | the messages sent are the oldest usable ones in order, ending with the first failure, or all of them |
| `SpoolConservation.KeptIffItFits` | docker/vm-forwarder/forwarder.py:324-331 | the size cap keeps a pending message if and only if it fits together with all newer ones |
| `SpoolConservation.RejectedKeptIffItFits` | docker/vm-forwarder/forwarder.py:324-331 | and one that was set aside if and only if it fits together with all newer ones set aside and all pending ones |
| `SpoolConservation.EveryMessageEndsOnce` | docker/vm-forwarder/forwarder.py:306-345 | after an uninterrupted pass every complete pending pair has exactly one fate, given by what was scanned and answered: dropped as too old, dropped as not fitting with the newer ones (the line says what is left), what its answer makes of it if the replay got to it, else untouched; one journal line for a drop or a setting aside and none otherwise |
| `SpoolRejected.EverySetAsideEndsOnce` | docker/vm-forwarder/forwarder.py:306-345 | after an uninterrupted pass the end of every pair of the rejected directory, whatever is pending under its name, is given by what was scanned and answered: dropped by the age cap or by the size cap with one journal line, its place taken by the pending pair or old lone blob of its name with no line, or unchanged |
| `SpoolRejected.ReplacedSilentlyIff` | docker/vm-forwarder/forwarder.py:274-345 | with no line about it, a set-aside blob is replaced if and only if the pass sets aside the pending message of its name (bad sidecar, or reached and answered 422) or sweeps an old lone blob of its name |
| `SpoolRejected.SecondTwinReplacesTheFirst` | docker/vm-forwarder/forwarder.py:274-279 | a pass in which that happens |
| `SpoolStranding.MetadataGoesBeforeItsBlobIff` | docker/vm-forwarder/forwarder.py:332-345 | a pass deletes metadata from the rejected directory while its blob is there if and only if the metadata was alone there, the blob alone in the spool, and both old enough for the sweep |
| `SpoolStranding.HalvesAreStranded` | docker/vm-forwarder/forwarder.py:332-345 | a pass in which that happens |
| `SpoolConservation.OneEnds` | docker/vm-forwarder/forwarder.py:461-486 | each answer (or unusable sidecar) gives its message the documented fate |
| `SpoolAnswers.AnswerDecides` | docker/vm-forwarder/forwarder.py:411-486 | over a whole pass, a message the replay reaches, with nothing under its name in the rejected directory before (the other case is `EverySetAsideEndsOnce`), is in neither directory after it if and only if it was answered 200 or 201 with a status of "stored" or "duplicate", or 410; it is set aside unchanged if and only if its sidecar was bad or it was answered 422; and otherwise it is untouched |
| `SpoolBackoff.BackoffFollowsTheFailures` | docker/vm-forwarder/forwarder.py:395-488 | over every run the backoff after n failures with nothing that clears between them is min(max, min * 2^(n-1)); 422 does not clear; the network flag says whether the last attempt on the wire went unanswered, and the reachable flag whether the last probe or attempt on the wire was answered |
| `SpoolBackoff.TriesOnlyWhenDueOrProbed` | docker/vm-forwarder/forwarder.py:447-460 | a pass replays if and only if the backoff is over, or the wire was last seen down, a scan interval has passed since the last probe, and the probe is answered |
| `SpoolBackoff.ProbesAreSpaced` | docker/vm-forwarder/forwarder.py:450-456 | two probes are at least a scan interval apart, while the clock does not step back |
| `SpoolBackoff.NextAttemptIsJittered` | docker/vm-forwarder/forwarder.py:438-441 | a failure ends the pass and sets the next attempt within a fifth of the doubled backoff |
| `SpoolBackoff.EarlyAttemptFollowsANetworkFailureUnlessLocal` | docker/vm-forwarder/forwarder.py:450-460 | an attempt before its time follows a network failure if and only if the last failure was not a local one |
| `SpoolBackoff.StaleFlagCutsALocalBackoff` | docker/vm-forwarder/forwarder.py:450-460 | a run in which a probe cuts short the backoff of a missing secret |
| `SpoolRuns.PassIsReady` | docker/vm-forwarder/forwarder.py:267-279 | in the order of every pass, a pending blob is removed for a delivery only after the send that justifies it, and pending metadata only once its blob has left the spool directory (of the rejected directory it says nothing here) |
| `SpoolRuns.NothingIsLost` | docker/vm-forwarder/forwarder.py:443-492 | over every run with crashes, lost replies and concurrent deposits: each deposited message is pending, set aside, held, refused with 410, or deleted by a cap or the sweep; its bytes are unchanged everywhere; the API has one copy; a blob without metadata only where a rejection was begun |
| `SpoolRuns.ABlobLeavesOnlyForCause` | docker/vm-forwarder/forwarder.py:267-345 | at any step of any run a pending blob leaves only when the API holds it, answered 410, a cap takes it, or it is set aside unchanged; the sweep deletes none |
| `CpsLimiter.CpsKey.CheckCpsLimit` | docker/api/src/db/redis_client.py:322-347 | the script's purge, count, add and expiry on the sorted set |
| `CpsLimiter.CpsKey.GetCurrentCps` | docker/api/src/db/redis_client.py:370-404 | the monitor purges and counts, adding nothing |
| `CpsLimiter.CpsKey.Purge` | docker/api/src/db/redis_client.py:330-330 | members at or before the window start go, and an emptied key loses its expiry |
| `CpsLimiter.KeyAnswersLikeHistoryIff` | docker/api/src/db/redis_client.py:322-347 | every answer of a run is the one a limiter that forgets nothing gives if and only if no request's window reaches back to an admission that an earlier purge or expiry has dropped |
| `CpsLimiter.SaneClocksMissNothing` | docker/api/src/db/redis_client.py:308-347 | that is so when callers' clocks do not step back and the Redis clock keeps its offset from them within a window: the 2 s expiry is long enough |
| `CpsLimiter.KeyAnswersLikeHistory` | docker/api/src/db/redis_client.py:322-347 | so purge and the 2 s expiry never show in any run with such clocks |
| `CpsLimiter.IdleKeyExpires` | docker/api/src/db/redis_client.py:337-345 | a key left alone goes away 2000 ms after its last admission by the server's clock, and not before |
| `CpsLimiter.EveryWindowWithinLimit` | docker/api/src/db/redis_client.py:325-347 | the forgetless limiter admits at most the limit in every half-open 1000 ms window, wherever it ends and whatever the clocks do |
| `CpsLimiter.ScriptWithinLimitIfNothingMissed` | docker/api/src/db/redis_client.py:322-347 | so does the script, for every run in which nobody misses what it dropped |
| `CpsLimiter.ScriptWithinLimit` | docker/api/src/db/redis_client.py:322-347 | and so for every run with such clocks |
| `CpsLimiter.BackwardClockOverfillsAWindow` | docker/api/src/db/redis_client.py:308-330 | with a clock that steps back, three calls get into a window of limit two |
| `SessionStatus.StatusCache.Remember` | docker/api/src/auth/user_status.py:89-95 | storing sweeps expired entries, then all of them, when the cache is full |
| `SessionStatus.StatusCache.Probe` | docker/api/src/auth/user_status.py:122-125 | an unexpired entry answers without a lookup |
| `SessionStatus.OthersAreKeptIff` | docker/api/src/auth/user_status.py:89-95 | remembering a user leaves another's entry as it was if and only if there are fewer than 10000, or that entry is unexpired and fewer than 10000 are |
| `SessionStatus.RememberedAnswers` | docker/api/src/auth/user_status.py:122-133 | a looked-up status, a refusal too, answers that user without another lookup for 30 s and no longer |
| `SessionStatus.FailureAnswers` | docker/api/src/auth/user_status.py:126-130 | letting in after a failed lookup is remembered for 5 s |
| `SessionStatus.ForgettingAsksAgain` | docker/api/src/auth/user_status.py:68-72 | once the cache is forgotten every user is looked up again |
| `SessionStatus.FactsWereRead` | docker/api/src/auth/user_status.py:131-131 | in every run a fact is a read by a request of that user, and says active just when the status was "active" |
| `SessionStatus.EveryAnswerIsGrounded` | docker/api/src/auth/user_status.py:117-137 | in every interleaving an allowed answer rests on an "active" read within TTL + timeout or a lookup failure within the fail-open TTL, a refusal on another status that recent |
| `SessionStatus.DisabledUserIsLockedOut` | docker/api/src/auth/user_status.py:117-137 | a user not read as active since a moment is refused once TTL + timeout have passed, unless a lookup just failed |
| `SessionStatus.CacheStaysBounded` | docker/api/src/auth/user_status.py:89-95 | no run grows the cache past its bound |
| `SessionStatus.BoundHoldsIff` | docker/api/src/auth/user_status.py:117-137 | over all runs, every answer rests on a read within TTL + s (or lets in after a recent failure) if and only if s is at least the lookup timeout |
| `SessionStatus.LockedOutWithinIff` | docker/api/src/auth/user_status.py:117-137 | over all runs, a user not read as active for a time is refused, unless a lookup just failed, if and only if that time is at least TTL + timeout: the documented TTL alone is not kept |
| `SessionStatus.SlowLookupOverwritesARefusal` | docker/api/src/auth/user_status.py:126-133 | a run where a slow lookup lets a disabled user in after a fresher refusal, more than a TTL after its read |
| `IndexCoverage.ComputeCapability` | docker/api/src/routers/homer_index.py:257-303 | the loops compute the specified capability |
| `IndexCoverage.SinceIsLatest` | docker/api/src/routers/homer_index.py:284-296 | the view counts from the latest of its creation second and its recorded starts |
| `IndexCoverage.CapabilityIff` | docker/api/src/routers/homer_index.py:280-283 | the index is offered if and only if view and table exist and it is not stale, and the reason says which fails |
| `IndexCoverage.CoversIff` | docker/api/src/routers/homer_index.py:297-303 | an offered index covers a start if and only if that is no earlier than midnight seven UTC days ago and the index is complete from there (in the midnight case: and the view had begun) |
| `IndexCoverage.WalkIsMaximal` | docker/api/src/routers/homer_index.py:284-300 | the backward walk ends at the first day that does not count, and only there |
| `IndexCoverage.CoveredIsComplete` | docker/api/src/routers/homer_index.py:284-303 | every row at or after the covered start is in the index |
| `IndexCoverage.CoversMeansComplete` | docker/api/src/routers/homer_index.py:228-230 | if a start is claimed, no row from it on is missing, the start is within retention and the index is not stale |
| `IndexCoverage.EarlierIsNotComplete` | docker/api/src/routers/homer_index.py:284-300 | before the covered start some possible row is missing |
| `IndexCoverage.StoppingShortIsStillComplete` | docker/api/src/routers/homer_index.py:284-300 | in the midnight case an earlier start is complete too |
| `IndexCoverage.ClaimIsExact` | docker/api/src/routers/homer_index.py:284-300 | the claim is the earliest complete start if and only if it is not the midnight case |
| `IndexCoverage.CompleteFromIff` | docker/api/src/routers/homer_index.py:268-300 | whenever the view began, the index is complete from a start if and only if the view ran by then or every day in between was backfilled by a run that started after it |
| `IndexCoverage.ClaimHoldsIff` | docker/api/src/routers/homer_index.py:284-300 | so the claimed start is complete if and only if the view began by then, or the days up to its beginning were backfilled after it |
| `IndexCoverage.ClaimHoldsForTheWholeSecondIff` | docker/api/src/routers/homer_index.py:284-289 | from the tables alone: the claim holds wherever in its recorded second the view began if and only if it starts no earlier than that second's end or the days up to there are backfilled |
| `IndexCoverage.WholeSecondsClaimTooMuch` | docker/api/src/routers/homer_index.py:284-289 | a view known only by its creation second is claimed complete before it ran |
| `IndexLookup.HitsHold` | docker/api/src/routers/homer_index.py:371-384 | the lookup's answer is ordered, names each call once, and holds exactly the calls whose rows on the days read match every needle and overlap the window, each with its first matching message |
| `IndexLookup.HitsAreNewestFirst` | docker/api/src/routers/homer_index.py:382-382 | the answer is by first message, newest first, and by Call-ID, last first, where these agree |
| `IndexLookup.MatchMeans` | docker/api/src/routers/homer_index.py:350-370 | a needle of ten digits or more matches an equal number, a shorter one a number it occurs in; callers only in From and P-Asserted-Identity, callees only in To and the request line |
| `IndexLookup.FoundBelow` | docker/api/src/routers/homer_index.py:333-384 | below a smaller end a call keeps its first message, and is found if and only if that is before the end and the rows read up to it already settle the match |
| `IndexLookup.LowerBoundLeaves` | docker/api/src/routers/homer_index.py:333-384 | the answer below a smaller end is, in order, the part of the larger answer that is older and settled by then |
| `IndexLookup.OneNeedleHidesTheDayBound` | docker/api/src/routers/homer_index.py:333-371 | with one needle and calls that begin in the window, the answer below a cursor is all that is older |
| `IndexLookup.DayBoundIsInvisibleIff` | docker/api/src/routers/homer_index.py:333-371 | with several needles that holds below every cursor if and only if every call has a row for each needle on the day of its first message |
| `IndexPaging.SearchViaIndex` | docker/api/src/routers/homer.py:1255-1275 | the page loop computes the specified page, ties kept whole as far as fetched, and whether there is more |
| `IndexPaging.CursorIsInside` | docker/api/src/routers/homer.py:1262-1275 | a page's cursor is below the end it was asked with, so paging terminates |
| `IndexPaging.OlderIsTheTail` | docker/api/src/routers/homer.py:1259-1266 | the calls of an answer older than a cursor are its tail |
| `IndexPaging.PageCut` | docker/api/src/routers/homer.py:1255-1266 | a page is the newest calls down to its cursor, ties included, unless an unfetched call ties with its oldest; then it stops short |
| `IndexPaging.PageLosesOrIsWhole` | docker/api/src/routers/homer.py:1255-1275 | a page and what can be shown below its cursor are the whole list if and only if the page loses nothing: no unfetched call ties with its oldest, and no older call is late for the next lookup |
| `IndexPaging.NoMoreMeansNone` | docker/api/src/routers/homer.py:1267-1275 | when a page that loses nothing says there is no more, nothing older can be shown |
| `IndexPaging.MoreMeansOlder` | docker/api/src/routers/homer.py:1267-1275 | when a page says there is more, some matching call is older than its oldest |
| `IndexPaging.HasMoreIff` | docker/api/src/routers/homer.py:1267-1275 | with safe Call-IDs, a page that loses nothing says there is more if and only if the next page shows something |
| `IndexPaging.PageIsFull` | docker/api/src/routers/homer.py:1256-1266 | a page shows at least 50 calls if so many of the newest 70 can be shown, and else all of those |
| `IndexPaging.FollowPages` | docker/api/src/routers/homer.py:1623-1637 | following the cursor page by page, until no more is said |
| `IndexPaging.FollowIsCompleteIffNoPageLoses` | docker/api/src/routers/homer.py:1255-1275 | for every index and search, paging gives every call that can be shown, newest first, if and only if no page reached loses one (an empty page though some remain, an unfetched tie, a late call); it never gives more calls than there are |
| `IndexPaging.UnfetchedNeedsTies` | docker/api/src/routers/homer.py:1071-1074 | an unfetched call ties with a page's oldest only if more than 21 calls begin at that instant |
| `IndexPaging.FollowReturnsEveryCallOnce` | docker/api/src/routers/homer_index.py:333-384 | paging returns every matching call exactly once, newest first, when Call-IDs are safe, at most 21 calls begin at one instant, and each call begins in the window and, with several needles, has a row for each on its first day |
| `IndexPagingLosses.LateCallIsLost` | docker/api/src/routers/homer.py:1255-1275 | a call older than a page's cursor that is not settled below it is never returned, in any index |
| `IndexPagingLosses.SecondNeedleAfterMidnightIsLost` | docker/api/src/routers/homer_index.py:333-384 | an index, with safe Call-IDs, no two calls at one instant and all of them in the window, where paging with two needles loses a call the first lookup finds, because its second number is seen after midnight |
| `IndexPagingLosses.UnsafeNewestHideTheRest` | docker/api/src/routers/homer.py:1255-1262 | an index whose 70 newest calls have a DEL character in their Call-IDs: paging returns nothing though an older call can be shown |
| `IndexPagingLosses.CallsPastTheExtraOnesAreCut` | docker/api/src/routers/homer.py:1071-1074 | an index of 71 calls at one instant: the page loses one and paging does not return them all |
| `LegFetch.FetchChunk` | docker/api/src/routers/homer.py:734-771 | the paginating loop computes the specified rows and whether it was capped |
| `LegFetch.FetchIsCompleteOrCapped` | docker/api/src/routers/homer.py:734-771 | for every tie order and page size, an uncapped chunk holds exactly the wanted rows, once and in order; a capped one misses only rows no older than any it returned |
| `LegFetch.FetchIsWholeIfItFits` | docker/api/src/routers/homer.py:734-752 | a chunk is whole and not capped when no instant has more than `most` wanted rows, fewer than a page, and all wanted rows fit in the pages with as much overlap between each two |
| `LegFetch.ChunkEqualsOneBigQuery` | docker/api/src/routers/homer.py:734-771 | an uncapped chunk has the rows of the one unlimited query, without repeats |
| `LegFetch.FetchAllLegs` | docker/api/src/routers/homer.py:702-733 | the Call-IDs are filtered, capped and chunked, failures and caps reported |
| `LegFetch.ChunksAre` | docker/api/src/routers/homer.py:730-731 | every query is for 25 Call-IDs, only the last for fewer, and together they ask for each once, in order |
| `LegFetch.HealthSays` | docker/api/src/routers/homer.py:723-771 | exactly what is reported: the cap of 400 Call-IDs, each chunk's failure and each chunk's page cap; truncated if a cap was reached, degraded if there were chunks and all failed |
| `LegFetch.GatherIsComplete` | docker/api/src/routers/homer.py:702-771 | with no reason reported, every chunk's rows are all there |
| `LegFetch.NothingReportedMeansNothingMissing` | docker/api/src/routers/homer.py:702-771 | with no reason reported, the rows are exactly those of the safe Call-IDs asked for |
| `LegGraph.Graph.Add` | docker/api/src/routers/homer_correlation.py:362-367 | a link is recorded only if new and not to itself; recorded links stay |
| `LegGraph.AddedIff` | docker/api/src/routers/homer_correlation.py:362-367 | a link is recorded if and only if neither end is empty, they differ, and the leg has none yet; nothing else changes |
| `LegGraph.Graph.FindRoot` | docker/api/src/routers/homer_correlation.py:369-379 | the guarded walk terminates on every map and changes no link |
| `LegGraph.RootHasNoLinkIffChainEnds` | docker/api/src/routers/homer_correlation.py:369-379 | the walk ends at a leg without a link if and only if the chain runs out |
| `LegGraph.ChainSharesItsRoot` | docker/api/src/routers/homer_correlation.py:369-379 | along a chain that runs out all legs have one root, which is its own root |
| `LegGraph.RootIsItsOwnIffChainEnds` | docker/api/src/routers/homer_correlation.py:369-379 | the root of a leg is its own root if and only if the chain runs out: no cycle of any length and no tail into one has an A leg |
| `LegGraph.LinkedLegsShareARootIff` | docker/api/src/routers/homer_correlation.py:369-394 | a leg and the leg it is linked to share a root, and so fall into one group, if and only if the leg is on no cycle |
| `LegGraph.GroupHasAnAIff` | docker/api/src/routers/homer_correlation.py:390-432 | a group has an A leg if and only if the chain of its Call-IDs runs out at a Call-ID of the result |
| `LegGraph.MutualLinksHaveNoA` | docker/api/src/routers/homer_correlation.py:369-379 | two legs that name each other are each other's root |
| `LegGraph.FirstLinkWins` | docker/api/src/routers/homer_correlation.py:362-367 | a recorded link survives all later evidence |
| `LegGraph.EvidenceIsTaken` | docker/api/src/routers/homer_correlation.py:362-367 | after any evidence a leg has its old link, or else that of the first piece of evidence that can be recorded, and none if there is none |
| `LegGraph.BuildGroups` | docker/api/src/routers/homer_correlation.py:390-432 | correlations are the whole sorted class of each Call-ID, every leg has its role and attempt number, and a group has an A leg if and only if its chain runs out inside the result |
| `LegGraph.SortedListingIsUnique` | docker/api/src/routers/homer_correlation.py:405-412 | the correlations of a class are one list, in whatever order the set is iterated |
| `LegGraph.NumbersAreABijection` | docker/api/src/routers/homer_correlation.py:418-431 | attempts are a bijection onto 1..N that follows (first INVITE, Call-ID) |
| `LegGraph.NumberByTime` | docker/api/src/routers/homer_correlation.py:418-431 | sorting by time and numbering in order gives those attempts |
| `LegGraph.AttemptsSay` | docker/api/src/routers/homer_correlation.py:414-431 | the B legs of a group carry the CDR's numbers if all have one; else they are numbered by first INVITE, for want of that first captured row, then first scan, then Call-ID |
| `SetupWindows.WindowSpansTheSetup` | docker/api/src/routers/homer_correlation.py:173-204 | a leg's window begins 1 s before its first INVITE (or first message) and ends 2 s after its first final answer that is no challenge; without one at the given end, but after 5 min at most, and 2 s after the start when that end is too early; there is none only when no message has a time, and it is never empty |
| `SetupWindows.MergeWindows` | docker/api/src/routers/homer_correlation.py:207-222 | the merge loop computes the specified ranges |
| `SetupWindows.MergeCoversTheSame` | docker/api/src/routers/homer_correlation.py:207-222 | the merged ranges are sorted, strictly separated and cover the same instants |
| `SetupWindows.SeparatedIsUnique` | docker/api/src/routers/homer_correlation.py:207-222 | only one separated list covers given instants, so the merge does not depend on the input's order or overlaps |
| `SetupWindows.SetupIsInTheMerge` | docker/api/src/routers/homer_correlation.py:173-222 | every instant of a leg's setup lies in some merged range |
| `ClickHouseText.ChQuote` | docker/api/src/routers/homer_correlation.py:126-150 | the loop gives the specified literal |
| `ClickHouseText.QuotedReadsBack` | docker/api/src/routers/homer_correlation.py:126-150 | a literal reader yields exactly the string and stops right after it |
| `ClickHouseText.JoinedReadsBack` | docker/api/src/routers/homer_correlation.py:248-248 | a comma-joined list of literals reads back as the same list |
| `ClickHouseText.QuotedIsInjective` | docker/api/src/routers/homer_correlation.py:126-150 | two strings never share a literal |
| `ClickHouseText.QuotedHasNoControls` | docker/api/src/routers/homer_correlation.py:126-150 | a literal holds no control character |
| `ClickHouseText.PlainTextIsKept` | docker/api/src/routers/homer_correlation.py:126-150 | text without a backslash, a quote or a control character is written as it is |
| `ClickHouseText.SafeMeans` | docker/api/src/routers/homer_correlation.py:110-123 | a Call-ID is let into a query if and only if it has 1 to 512 characters from space to tilde |
| `ClickHouseText.DoublingQuotesAloneLosesTheEnd` | docker/api/src/routers/homer_correlation.py:126-140 | why escaping the quote alone is not enough |
| `Pcap.Ipv4Checksum` | docker/api/src/routers/homer_pcap.py:276-283 | the word loop computes the specified checksum |
| `Pcap.OnesSumIsNorm` | docker/api/src/routers/homer_pcap.py:276-283 | the one's complement sum of the words is their sum folded, as RFC 1071 section 1 has it |
| `Pcap.WordSumBound` | docker/api/src/routers/homer_pcap.py:276-283 | the word sum of any even header is at most 65535 per word |
| `Pcap.TwoFoldsNormalize` | docker/api/src/routers/homer_pcap.py:281-282 | two carry folds are enough for every sum below 2^32 |
| `Pcap.ChecksumMakesAllOnes` | docker/api/src/routers/homer_pcap.py:317-325 | writing the checksum into its zeroed word makes the header's sum all ones (RFC 791 section 3.1) |
| `Pcap.RepresentativeIsPublicIfAny` | docker/api/src/routers/homer_pcap.py:190-201 | a name is represented by its first public interface, else by its first |
| `Pcap.FrameReads` | docker/api/src/routers/homer_pcap.py:296-335 | a reader finds the addresses, ports and payload of a frame; its length fields agree with RFC 791 section 3.1 and RFC 768 |
| `Pcap.FrameSaysNoMore` | docker/api/src/routers/homer_pcap.py:274-328 | the bytes of a frame that carry nothing of the row: no hardware addresses, not a fragment, 64 hops, no UDP checksum |
| `Pcap.BuildPcap` | docker/api/src/routers/homer_pcap.py:338-366 | the loop gives the specified file, packet and skip counts |
| `Pcap.FileIsItsRecords` | docker/api/src/routers/homer_pcap.py:338-366 | the file is its header and one record for each representable row, and packets + skipped is the number of rows |
| `Pcap.PcapReadsBackIffItFits` | docker/api/src/routers/homer_pcap.py:269-366 | a reader that keeps to the snapshot length in the file's header recovers, in order, time, addresses, ports and payload of every representable row if and only if all payloads are at most 65493 bytes; a reader that overlooks it always does. A port is the row's own from 0 to 65535 and else 5060, an address its own, its name's, or 0.0.0.0 |
| `Pcap.OneByteTooLong` | docker/api/src/routers/homer_pcap.py:269-274 | a payload of 65494 bytes is written and counted, and refused by such a reader |
| `Pcap.FailsOnlyOnTime` | docker/api/src/routers/homer_pcap.py:338-366 | the export fails if and only if a representable row is past 2^32 seconds |
| `EslReply.ReceiveHeader` | docker/carrier-monitor/ops_esl.py:128-140 | the header loop reads up to the blank line or the size limit |
| `EslReply.ReceiveBody` | docker/carrier-monitor/ops_esl.py:148-160 | the body loop reads the declared length, or what came before the end |
| `EslReply.EslApi` | docker/carrier-monitor/ops_esl.py:128-161 | the response phase of a command |
| `EslReply.HeaderIsReadToItsEnd` | docker/carrier-monitor/ops_esl.py:128-135 | the header loop ends exactly at the first piece with which there is a blank line, more than a mebibyte, or a closed connection; it stalls exactly when none of these comes |
| `EslReply.BlankIsTwoLineFeeds` | docker/carrier-monitor/ops_esl.py:137-137 | the blank line is the first place where two line feeds follow each other |
| `EslReply.LengthIsDeclared` | docker/carrier-monitor/ops_esl.py:139-147 | in a header block of lines the declared length is that of the first line beginning with "Content-Length:" in any case, wherever it is, and 0 if there is none |
| `EslReply.ReplyDependsOnlyOnItsBytes` | docker/carrier-monitor/ops_esl.py:128-161 | the result is decided by the bytes received, however they are cut into pieces; a closed connection gives what arrived |
| `EslReply.WellFormedReplyGivesItsBody` | docker/carrier-monitor/ops_esl.py:128-161 | a well-formed reply followed by anything gives exactly its body, also when the blank line straddles pieces |
| `EslReply.WholeBodyIffItArrived` | docker/carrier-monitor/ops_esl.py:148-161 | the caller gets the whole declared body if and only if it all arrived |
| `EslReply.NegativeLengthCutsTheEnd` | docker/carrier-monitor/ops_esl.py:148-158 | a negative length reads nothing more and cuts that many bytes from the end of what came with the header |
| `CarrierMonitor.Loop.RunTick` | docker/carrier-monitor/carrier_monitor.py:681-744 | one tick of the reporting loop |
| `CarrierMonitor.KnownGenMovesIff` | docker/carrier-monitor/carrier_monitor.py:693-736 | a tick takes over the counter it read if and only if no report failed in it; a known value moves exactly in a tick that read another and posted a report |
| `CarrierMonitor.ChangeIsRetriedUntilPosted` | docker/carrier-monitor/carrier_monitor.py:693-719 | a changed counter makes every tick that can read it report until one succeeds |
| `CarrierMonitor.StateIsItsHistory` | docker/carrier-monitor/carrier_monitor.py:671-744 | the failure count and last attempt time are those of the run's outcomes |
| `CarrierMonitor.HeartbeatFiresOnTime` | docker/carrier-monitor/carrier_monitor.py:698-708 | a tick attempts if and only if a poll interval has passed since the last attempt or the counter changed |
| `CarrierMonitor.BackoffIsDocumentedIffMaxInReach` | docker/carrier-monitor/carrier_monitor.py:719-726 | every wait is min(base * 2^(n-1), max) if and only if max is at most base * 2^30 |
| `CarrierMonitor.BackoffFollowsTheFailures` | docker/carrier-monitor/carrier_monitor.py:709-733 | in every run the wait after a failure is set by how many failed in a row, and is the documented one while max is in reach |
| `CarrierMonitor.BehindIff` | docker/carrier-monitor/carrier_monitor.py:693-736 | with a counter that never runs backwards, the API holds less than the known counter if and only if that was adopted at a tick without a report, nothing posted before was as new, and nothing has been posted since |
| `CarrierMonitor.BehindIffNothingPosted` | docker/carrier-monitor/carrier_monitor.py:693-736 | with the counter readable at every tick, it is behind if and only if no report has been posted and some tick did not report |
| `CarrierMonitor.FailedBaselineWaitsForTheHeartbeat` | docker/carrier-monitor/carrier_monitor.py:734-736 | a run in which the API is behind: its first report fails, and the next tick adopts the counter |
| `CdrFilters.EscapeLikeHead` | docker/api/src/routers/cdrs.py:2009-2016 | the three replacements in sequence escape each character on its own |
| `CdrFilters.EscapedLikeIsPrefix` | docker/api/src/routers/cdrs.py:2009-2016 | LIKE on the escaped text plus a wildcard is a literal prefix match, for every string |
| `CdrFilters.BuildCdrFilters` | docker/api/src/routers/cdrs.py:2082-2152 | text and binds grown step by step are the specified ones |
| `CdrFilters.ProductFilterMeans` | docker/api/src/services/customer_numbers.py:130-137 | the product filter applies, with the value as it came, unless that is absent, blank, or "all" in any case with white space around it |
| `CdrFilters.EmittedMeansTheConjunction` | docker/api/src/routers/cdrs.py:2082-2152 | with SQL's three truth values, the emitted text with its binds accepts exactly the rows every filter means |
| `CdrFilters.FiltersMeanTheirConjunction` | docker/api/src/routers/cdrs.py:2038-2152 | for every combination of filters the accepted rows are exactly those that match, said without SQL |
| `CdrFilters.PlaceholdersAreThePositions` | docker/api/src/routers/cdrs.py:2082-2152 | the placeholders are 1, 2, 3, … and each bind is referred to once, in order |
| `CdrFilters.LaterBindsChangeNothing` | docker/api/src/routers/cdrs.py:2236-2261 | binds appended later change no earlier fragment |
| `CdrFilters.QueryCdrs` | docker/api/src/routers/cdrs.py:2202-2261 | the page query: of every ordered table it returns the matching rows without the first `offset`, at most `limit` of them, or 50 for a staff call-id lookup |
| `CdrFilters.PageReturnsWhatIsWanted` | docker/api/src/routers/cdrs.py:2241-2261 | with LIMIT and OFFSET read at their placeholders |
| `CdrFilters.PageAndCountAgree` | docker/api/src/routers/cdrs.py:2236-2261 | the page query with its LIMIT and OFFSET binds selects exactly the rows that match, as the count does |
| `CdrFilters.PagePlaceholders` | docker/api/src/routers/cdrs.py:2241-2261 | all placeholders through LIMIT and OFFSET are the positions of the binds |
| `CdrFilters.TenantSeesItsOwnCalls` | docker/api/src/routers/cdrs.py:2202-2210 | what matches for a tenant is exactly its own calls, one row per call, in the time window and under the filters it may use; the others change nothing |

## Left out

- HTTP, sockets, Redis and database transport, logging, metrics text: inputs or abstract maps here.
- The UUID pattern, ISO-8601 and JSON parsing: file names, timestamps and documents come parsed; `int()` in ESL is a parameter.
- Journal write failures, journal rotation and the fields of a journal line other than event, uuid and sizes.
- `os.remove` and `os.replace` failing for any reason but a missing file: like a crash, this ends the pass at a prefix.
- `.tmp` files in whole runs: deposits appear at their final names; the sweep of `.tmp` files is in the single-pass model.
- `SpoolRuns.NothingIsLost`: does not say that a drop is journaled when the crash falls between removal and journal line, because the code does not promise it.
- How long a lone blob moved to the rejected directory stays there: its old time lets the next sweep delete it.
- The gap between listing a directory and loading its files: one scan sees one state of the directories.
- `record_cps_hit`, which adds without checking, and the limiter's fail-open answers without Redis.
- User-id claim parsing and the warning throttle of the session check.
- The rows a search page shows for its calls (`_page_rows`) and the slow scan it falls back to.
- A search without needles, which the router never asks the lookup for, and the extraction of digits from what was typed.
- The SQL of the correlation scan and of the leg fetch: its stated order, bounds and limits are the model; and how ClickHouse runs any query.
- X-CID extraction and the CDR cross-check; the graph takes links as they come.
- The ESL authentication phase and replies with Content-Length 0.
- The order of equal start times in a CDR page, which the query leaves open, and how the customer-side number is computed in SQL.
- Non-ASCII white space and letter case in the product filter.
- CRUD routers, tokens, billing, webhooks, lab statistics, UI code and the C driver: plumbing, or easier members of the same kinds.
