# Verified model of soroban-cost-estimator

The cost estimator asks a Soroban RPC endpoint what a contract call would cost, breaks the answer
into fees, and remembers it. Between its I/O edges sit loops, state machines and integer
arithmetic; this project models those parts in Dafny and proves what they keep. `dafny verify
dfyconfig.toml` checks everything.

| file | what it models |
|---|---|
| `EstimateCache.dfy`, `CacheRows.dfy` | the estimate table and its log: upsert, touch on read, filtered delete, LRU eviction under two quotas |
| `CircuitBreaker.dfy`, `Retry.dfy`, `AppErrors.dfy` | the breaker shared by concurrent callers, the retry loop, and how both classify errors |
| `FeeCalc.dfy`, `XlmText.dfy` | saturating fees, shares in tenths of a percent, decimal XLM text |
| `SnapshotNames.dfy`, `SnapshotStore.dfy` | the file-name codec, listing, latest selection, retention |
| `ConfigDiff.dfy`, `ConfigHistory.dfy` | field differences, the change log, last-changed |
| `Timestamps.dfy` | RFC 3339 text against the instants it names |
| `EstimateCsv.dfy`, `Leb128.dfy`, `BuildWatch.dfy`, `BuildDate.dfy` | CSV report, LEB128 writer, rebuild detector, calendar arithmetic |
| `Text.dfy`, `Sorting.dfy`, `Arithmetic.dfy`, `Wrappers.dfy` | digits, splitting and text order; stable sorting; machine integers; optional results |

Objects whose methods update fields are classes; each method is proved against a function on
values, and the results over whole runs are lemmas about those functions. SHA-256, RFC 3339
parsing, the clock, the measured database size, the RPC outcomes and their durations are arbitrary
parameters.

## Where the code differs from what it promises

- **Half-open trap.** `circuit_breaker.rs` documents that a probe either closes or reopens the
  circuit. A probe answered with an error that is not a transport failure does neither, and once no
  call is in flight nothing ever leaves the half-open state (`RecoversIffNotWedged`,
  `ProbeOutcome`, `WedgeIsReachable`).
- **One probe.** Half-open is documented as one probe in flight, everyone else failing fast until it
  resolves. A call let through before the circuit opened can still be in flight, and its failure
  starts the cooldown of a second probe beside the first. `SecondProbeIff` says exactly when that
  can happen, `OneProbeAtATime` what rules it out, and `ProbesCanOverlap` that every enabled breaker
  can get there.
- **Newest snapshot.** `prune_snapshots` promises that the newest snapshot is never deleted. It
  protects the last file of the listing, and undated files are listed last. `NewestSurvivesIff`
  says exactly when the newest dated one survives; `NewestCanBeDeleted` is a directory where it
  does not.
- **Latest by two routes.** Listing and `select_latest_snapshot` disagree when undated files are
  present or two files carry the newest instant (`LastIsSelectedIff`, `LastCanDifferFromSelected`).
- **Unchanged.** Four ledger-cost limits are compared by `same_configuration` but not by the diff
  (`SameConfigurationIff`, `UncomparedFieldIsMissed`).
- **Chronological log.** The log orders snapshots by timestamp text. It is in order of time exactly
  when no two texts disagree with their instants (`LogIsChronologicalIff`); different offsets can
  make them (`OffsetsMisorderTheLog`). One numeric offset, which is what the tool writes, cannot
  (`OneOffsetIsChronological`). With `Z`, text is out of order exactly for a stamp and a later one
  that only adds digits to its fraction (`TextOrderIsTimeOrderIff`,
  `FractionsBreakTheOrderOfZulu`).
- **Last changed.** Two changes of one field with equal timestamps leave the overwritten value
  (`LaterKeptIffStrict`); `LatestIsLastIff` says for every log when the last change in log order is
  reported. That is log order only: with different offsets it can be the older value although all
  timestamps are distinct (`OffsetsReportTheOlderValue`). The log ends with a snapshot newest in time
  exactly when some snapshot has both the last text and the latest instant (`EndsAreExtremeIff`), and
  then the value is that of a newest one (`LastChangedHoldsNewestInTime`).
- **A network's files.** Listing and pruning take a network's files to be those whose names start
  with it and a hyphen. That takes in files of other networks (`BelongsIff`), as undated ones
  (`OtherNetworkIsUndated`), and one of them can then outlive the network's own newest snapshot
  (`OtherNetworkDisplacesNewest`).
- **Cache key.** Argument boundaries are lost before hashing (`KeysForgetBoundaries`), and the
  network is not part of the key (`NetworksShareAKey`).
- **Two consecutive polls.** A build is documented to be accepted on two consecutive polls. Read
  errors between the two do not count (`ConsecutiveIffReadable`, `ReadErrorIsSkipped`).
- **Shares.** The percentages are documented to sum to exactly 100%. They do exactly when there is
  a fee and the correction stays within 64 bits (`SharesOfBreakdown`); with non-negative rates only
  the raw sum can leave them (`NonNegativeSharesIff`). `SharesCanMiss` gives an input for either
  failure.
- **Eviction.** The comments say that usage falls back under 90% of both quotas, and that the log
  is never emptied by an impossible byte quota. A pass that evicts anything cuts the estimates to
  90% of the entry quota, even one that was met, but stops at the first measurement within the byte
  quota (`ByteQuotaTarget`). So it ends under 90% of both exactly when that measurement is
  (`UnderNineTenthsIff`; `DefaultQuotasAreNotBothTrimmed` and `ByteQuotaIsNotTrimmed` are passes
  that do not), and an impossible byte quota does empty the log (`ImpossibleQuotaEmptiesTheLog`).

## Model

| member | source | states |
|---|---|---|
| EstimateCache.EstimateCache.EnforceLimits | src/cache.rs:1408-1482 | for any sequence of measured sizes: every survivor is at least as recent as every evicted row and unchanged, the table never becomes empty, the log loses only a prefix, and both end with exactly the number of rows that iterating the rounds on the two counts gives; unset or met quotas change nothing |
| EstimateCache.EstimateCache.EvictionRound | src/cache.rs:1419-1475 | one round: it stops and changes nothing, or leaves nine tenths of an exceeded entry target, or else removes as many of the oldest estimates, and of the log's first rows, as make up for the bytes over the quota at the average size of a row; the last estimate always stays |
| EstimateCache.RoundProgress | src/cache.rs:1408-1520 | a round that does not stop strictly decreases estimates plus log rows and never empties the table; one that stops found the quotas met, or at most one estimate and no log |
| EstimateCache.PassSettles | src/cache.rs:1408-1482 | with at most 100,000 rows and any measured sizes, a pass ends with both quotas met as the round it stops in measured them, or with at most one estimate and no log |
| EstimateCache.EntryQuotaTarget | src/cache.rs:1415-1452 | a pass that finds only an entry quota N exceeded, with or without a byte quota, leaves the whole log and exactly floor(9N/10) estimates for N > 1; for N = 1 it leaves one, or 100,000 fewer than before if there were more than 100,001 |
| EstimateCache.ByteQuotaTarget | src/cache.rs:1408-1520 | with any entry quota beside the byte quota, a pass stops at the first measurement within the quotas, unless at most one estimate and no log are left; every earlier round measured too many bytes, or had too many estimates, which after the first round only a quota of one can; and a pass that evicts anything leaves at most floor(9N/10) estimates for N > 1, even if the entry quota was met |
| EstimateCache.UnderNineTenthsIff | src/cache.rs:430-448 | a pass that evicts anything ends under nine tenths of both quotas exactly when the size at the round it stops in is under nine tenths of the byte quota; a quota of one estimate is never under them with an estimate left |
| EstimateCache.DefaultQuotasAreNotBothTrimmed | src/cache.rs:425-448 | under the shipped quotas a pass cuts a table within its entry quota to 9,000 estimates and stops with the bytes at their quota |
| EstimateCache.ByteQuotaIsNotTrimmed | src/cache.rs:430-448 | a pass over a quota of 100 bytes that measures 200 and then 95 stops at 95, above nine tenths |
| EstimateCache.ImpossibleQuotaEmptiesTheLog | src/cache.rs:1484-1499 | a byte quota that no deletion meets leaves one estimate of a non-empty table and no log |
| EstimateCache.EstimateCache.DeleteOldest | src/cache.rs:1446-1453 | the delete-by-age statement removes exactly the limit or everything, and nothing it keeps is older than what it removes, however ties fall |
| CacheRows.OldestExist | src/cache.rs:1446-1453 | such a choice of oldest rows always exists, text timestamps compared lexicographically |
| CacheRows.LeastRecentIsOldest | src/cache.rs:1446-1453 | for times written with one numeric offset, as the cache writes them, the text order is the order of time, whatever the width of the fractions |
| CacheRows.BatchBounds | src/cache.rs:1508-1520 | a round makes progress, never takes the last estimate, and aims straight for the entry target |
| CacheRows.BatchesCover | src/cache.rs:1490-1520 | a byte-driven batch is as many rows of average size as fit into the excess, at least one; estimates short of the last, log rows up to all |
| CacheRows.CoversOnce | src/cache.rs:1490-1520 | there is only one such number |
| CacheRows.HistoryBatchBounds | src/cache.rs:1490-1499 | an over-quota round removes at least one log row and no more than there are |
| CacheRows.NewestSurvives | src/cache.rs:1227-1292 | no eviction takes a row strictly newer than all others |
| EstimateCache.EstimateCache.SaveEstimate | src/cache.rs:1199-1300 | upserts one key, appends one log row with a fresh id, evicts only older rows, and never evicts the row it just wrote if its time is strictly newest; the table still refines the plain map |
| EstimateCache.EstimateCache.LoadEstimate | src/cache.rs:1652-1700 | returns exactly what a plain map would hold, migrated, or an error for a newer schema; a hit changes only its access time, a miss or error changes nothing |
| EstimateCache.EstimateCache.EvictLru | src/cache.rs:1544-1560 | an on-demand pass changes no payload and keeps the refinement |
| EstimateCache.EstimateCache.ClearNetworkEntries | src/cache.rs:2340-2354 | removes exactly the network's rows and log, counts the rows, keeps the refinement |
| EstimateCache.EstimateCache.RemoveCachedEstimatesForWasm | src/cache.rs:2364-2381 | removes exactly the build's rows and log, counts the rows, keeps the refinement |
| EstimateCache.EstimateCache.DeleteCachedEstimates | src/cache.rs:1969-2015 | removes exactly the readable rows the filter wants, as stored, and returns their number; unreadable newer rows stay; a second selection is empty; an invalid filter changes nothing |
| CacheRows.SelectsIff | src/cache.rs:328-373 | a filter wants rows of the given function and network, a hash begun by the given text whatever its case and the space around it, and fee and time within closed ranges; a time that cannot be read is in none |
| CacheRows.FilterIsIntersection | src/cache.rs:328-373 | a filter selects what each of its options selects alone, and one without options every readable row |
| CacheRows.ValidFilterIff | src/cache.rs:273-325 | a filter is valid exactly when each option is valid alone and neither range is upside down |
| EstimateCache.EstimateCache.ListingHolds | src/cache.rs:1873-1892 | a listing shows exactly the readable rows the filter wants |
| EstimateCache.NewerFirstIsByTime | src/cache.rs:1881-1882 | the order of a listing is newest first for times written with one numeric offset |
| EstimateCache.EstimateCache.QueryCache | src/cache.rs:1873-1892 | lists each selected row exactly once, migrated, newest first, no key twice; so a count equals what a delete removes |
| EstimateCache.PagesAreTheListing | src/cache.rs:1934-1950 | consecutive pages of the capped size, cut from one listing, concatenate to the whole of it; a page has as many entries as asked for, up to 1000 and to the end |
| EstimateCache.EstimateCache.ListingIsUnique | src/cache.rs:1873-1892 | while the cache does not change, two queries with one filter answer alike if no two selected entries share a timestamp |
| EstimateCache.EstimateCache.QueriedPagesAreTheListing | src/cache.rs:1934-1950 | so pages that each come from a query of their own concatenate to the listing |
| EstimateCache.HeldIsLatestSave | src/cache.rs:1199-1300 | over any run, the plain map holds exactly the payload of the latest save under the key, or the initial one, with no removal that applies to it since |
| EstimateCache.RunRefines | src/cache.rs:1199-1300 | over any run of saves, touches, evictions and removals the table shows, under every key, exactly what the plain map holds |
| CacheRows.MigrationIsSettled | src/cache.rs:1599-1645 | every entry but a newer one reaches schema 3, changing only what schema 1 lacked; migrating twice changes nothing more |
| CacheRows.KeysForgetBoundaries | src/cache.rs:1662-1669 | two calls share a key exactly when build and function are equal and the argument lists run together into the same text |
| CacheRows.ConcatIsRunningTogether | src/cache.rs:1662-1669 | the hashed text is the arguments in order, one after the other |
| EstimateCache.RebuildRemoves | src/cache.rs:2364-2381 | removing a build's entries takes out what was saved for that build under any function and arguments, and nothing saved for another |
| EstimateCache.NetworksShareAKey | src/cache.rs:1199-1300 | a save for a second network under the same key replaces the first network's entry: clearing the first then leaves it, clearing the second removes it |
| CircuitBreaker.CircuitBreaker.ShouldReject | src/rpc/circuit_breaker.rs:226-263 | the admission decision and the open to half-open transition, as one atomic step |
| CircuitBreaker.CircuitBreaker.RecordSuccess | src/rpc/circuit_breaker.rs:267-281 | a success closes the circuit and clears the counter |
| CircuitBreaker.CircuitBreaker.RecordFailure | src/rpc/circuit_breaker.rs:293-337 | the failure step, with its early return for errors that are not transport failures |
| CircuitBreaker.CircuitBreaker.Call | src/rpc/circuit_breaker.rs:353-367 | check, call and record compose the three steps; a rejected call changes nothing |
| CircuitBreaker.ClosedIffFewFailures | src/rpc/circuit_breaker.rs:293-337 | in every interleaving the breaker is closed exactly while fewer than threshold transport failures follow the last success, and then counts them: it opens on the threshold-th |
| CircuitBreaker.StateIsHistory | src/rpc/circuit_breaker.rs:226-337 | the whole state of an enabled breaker, and whether it rejects, told from the recorded outcomes and the times of the checks alone |
| CircuitBreaker.CounterIsFailuresSinceReset | src/rpc/circuit_breaker.rs:293-337 | in every reachable state the counter is the transport failures since the last success or opening, and stays below the threshold |
| CircuitBreaker.LateFailuresDoNotProlong | src/rpc/circuit_breaker.rs:305-321 | failures recorded while the circuit is open only count: it stays open since the same time and lets a check through once the cooldown from then has passed, until the threshold-th of them opens it afresh |
| CircuitBreaker.NothingBeforeCooldown | src/rpc/circuit_breaker.rs:226-263 | after an opening, with no success recorded, no call is let through before the cooldown |
| CircuitBreaker.AdmissionsAreSpaced | src/rpc/circuit_breaker.rs:226-337 | any two calls let through with no success between them, the second by a breaker not closed, are at least one cooldown apart |
| CircuitBreaker.ProbesAreRateBounded | src/rpc/circuit_breaker.rs:226-337 | over any failing stretch, calls let through times the cooldown never exceeds the time since the opening |
| CircuitBreaker.WedgedForever | src/rpc/circuit_breaker.rs:238-245 | half-open with no call in flight lets nothing through in any continuation |
| CircuitBreaker.RecoversIffNotWedged | src/rpc/circuit_breaker.rs:226-337 | some continuation lets a call through exactly when the breaker is not in that state |
| CircuitBreaker.ProbeOutcome | src/rpc/circuit_breaker.rs:297-312 | the last call in flight leaves half-open unless it ends in an error that is not a transport failure |
| CircuitBreaker.WedgeIsReachable | src/rpc/circuit_breaker.rs:293-337 | every enabled configuration has a run into that state |
| CircuitBreaker.SecondProbeIff | src/rpc/circuit_breaker.rs:131-133 | from half-open with one probe in flight, a second probe can join before it resolves exactly when a call let through while closed is still in flight |
| CircuitBreaker.OneProbeAtATime | src/rpc/circuit_breaker.rs:131-133 | in every run in which no such call has its outcome counted during a probe, at most one probe is in flight, the breaker is half-open meanwhile and rejects everyone |
| CircuitBreaker.ProbesCanOverlap | src/rpc/circuit_breaker.rs:226-337 | every enabled breaker has a run into half-open with two probes in flight |
| CircuitBreaker.DisabledIsTransparent | src/rpc/circuit_breaker.rs:226-230 | with threshold zero nothing is ever rejected or changed |
| AppErrors.TransportFailuresAreRetryable | src/rpc/retry.rs:139-165 | every error the breaker counts is retried; the retried errors it does not count are exactly 429, 500 and retryable JSON-RPC errors |
| AppErrors.CountedErrorsAre | src/rpc/circuit_breaker.rs:369-395 | what the breaker counts: connection, timeout and request errors, statuses 502 to 504, and nothing the endpoint itself answered |
| AppErrors.RpcErrorsRetried | src/rpc/retry.rs:155-165 | an explicit answer of the endpoint decides; without one exactly the internal error and the hundred reserved codes are retried |
| Retry.WithRetryDeadline | src/rpc/retry.rs:61-129 | the loop returns the outcome of the first attempt that is not retried; with a deadline the same, if that attempt starts before it and finishes by it, and a timeout otherwise; no attempt starts at or after the deadline, and none that could start before it is skipped, at most max_retries + 1 are made, and it returns no later than the deadline |
| Retry.EarlierAttemptsRetryable | src/rpc/retry.rs:107-112 | every attempt but the last ended in a retryable error within the retry budget |
| Retry.FinalAttemptIs | src/rpc/retry.rs:93-112 | the attempt whose outcome stands is the first not worth retrying, or the last one allowed |
| Retry.DelayBounds | src/rpc/retry.rs:171-201 | a wait without a hint lies between min(500ms·2^i, 60s) and min(1s·2^i, 60s); with one it is the hint capped at 60s |
| Retry.JitterIsShareOfClock | src/rpc/retry.rs:171-201 | within those bounds the wait is the backoff and the share of it that the clock's nanoseconds are of a second, rounded down, capped at 60s |
| Retry.WaitBetweenAttempts | src/rpc/retry.rs:114-126 | the wait between attempt i and the next is the one for i |
| Retry.TotalWaitIsBounded | src/rpc/retry.rs:114-126 | the k-th attempt starts no earlier than the attempts before it take, and at most a minute per retry later |
| FeeCalc.ComputeFeeBreakdown | src/report/fee_calc.rs:86-215 | every field in terms of the exact rates; the shares sum to 1000 exactly when there is a fee and the correction does not overflow, and are zero without a fee; with non-negative rates and a non-refundable part within the total, the five parts sum to it and the shares lie in 0..1000 |
| FeeCalc.NonNegativeFees | src/report/fee_calc.rs:97-120 | with non-negative rates the step-by-step saturating sums are the exact sums clamped once |
| FeeCalc.SharesOfBreakdown | src/report/fee_calc.rs:145-180 | for any rates, the shares sum to 1000 exactly when the total resource fee is positive and neither the raw sum nor the corrected share leaves 64 bits |
| FeeCalc.NonNegativeSharesIff | src/report/fee_calc.rs:170-180 | with non-negative rates the shares sum to 1000 exactly when there is a fee and the raw sum, which is all the program checks, fits 64 bits |
| FeeCalc.SharesCanMiss | src/report/fee_calc.rs:118-180 | no fee gives shares that sum to 0, and a one-stroop fee with two rates of `i64::MAX` gives shares that do not sum to 1000 |
| FeeCalc.CorrectionIsTheOnlyOne | src/report/fee_calc.rs:170-180 | where it does not overflow, the correction is the only change to the last largest part alone that makes the rounded shares sum to 1000 |
| FeeCalc.ScaledFeeIsExact | src/report/fee_calc.rs:220-227 | the 128-bit product never saturates, so a fee is the exact quotient clamped once |
| FeeCalc.FeeIsRoundedDown | src/report/fee_calc.rs:220-227 | a fee at a non-negative rate is the price of its units rounded down |
| FeeCalc.UnitPrices | src/report/fee_calc.rs:97-105 | the units: ten thousand instructions, one entry read or written, 1024 bytes read or sent |
| FeeCalc.PermilleIsClose | src/report/fee_calc.rs:159-175 | a rounded share is within half a unit of the exact one |
| FeeCalc.PermilleOfAnyPart | src/report/fee_calc.rs:159-167 | a part beyond the total is rounded half up too, until it is clamped, and a negative part as its opposite |
| FeeCalc.SharesOfWhole | src/report/fee_calc.rs:145-180 | when the parts make up the total, the correction is at most 2 in magnitude and the corrected shares are in 0..1000 and sum to 1000 |
| FeeCalc.CorrectedSum | src/report/fee_calc.rs:152-180 | for parts of any size, the corrected shares sum to 1000 exactly when the total is positive and neither the raw sum nor the corrected share overflows; with no total they are all zero |
| FeeCalc.Range | src/report/fee_calc.rs:367-389 | the bounds are attained and bound every fee; the average is the truncated mean and lies between them |
| XlmText.PrintedForm | src/report/fee_calc.rs:236-267 | an amount is printed as a minus sign exactly when negative, a whole part without leading zeros, one point, and exactly as many places as asked for, at least one; and the number so printed is the rounded amount |
| XlmText.PrintThenParse | src/report/fee_calc.rs:236-339 | printing then parsing gives the amount rounded to the last printed place, or a range error exactly when that leaves 64 bits, at every precision |
| XlmText.RoundedIsClose | src/report/fee_calc.rs:244-256 | that rounding is within half a unit in the last printed place, halves away from zero, a whole number of units, and exact from seven places on |
| XlmText.FullPrecisionRoundTrip | src/report/fee_calc.rs:236-339 | at seven places or more every 64-bit amount comes back exactly |
| XlmText.FullPrecisionInjective | src/report/fee_calc.rs:236-267 | and distinct amounts print differently |
| XlmText.XlmToStroops | src/report/fee_calc.rs:285-339 | the parser is the meaning of signed decimal text: invalid forms, range errors, and the value in stroops |
| XlmText.DecimalParses | src/report/fee_calc.rs:285-339 | every signed decimal text parses to its amount, or to an error where the whole part or the amount leaves 64 bits |
| XlmText.OnlyDecimalsParse | src/report/fee_calc.rs:285-339 | and every text not refused as invalid is one |
| XlmText.FractionIsTruncated | src/report/fee_calc.rs:315-330 | a fraction of any length counts for the stroops it is worth, rounded down |
| XlmText.ReadFraction | src/report/fee_calc.rs:315-330 | the character loop reads the first seven digits, right-padded, and rejects any non-digit even past them |
| SnapshotNames.NameIs | src/config_snapshot/store.rs:165-169 | a file is called after its network, a hyphen, its timestamp with every colon as a hyphen, and `.json` |
| SnapshotNames.NameThenRead | src/config_snapshot/store.rs:40-81 | for every network name and every timestamp with an upper-case T and Z or a numeric offset, fraction or not, a name decodes to exactly the timestamp it encodes |
| SnapshotNames.NamesAreDistinct | src/config_snapshot/store.rs:165-169 | so distinct timestamps of a network never share a file |
| SnapshotNames.LowerCaseIsLost | src/config_snapshot/store.rs:49-51 | a timestamp without an upper-case T is never decoded |
| SnapshotStore.SnapshotDir.ListSnapshotsIn | src/config_snapshot/store.rs:471-495 | lists the network's files in the listing order |
| SnapshotStore.EntriesAre | src/config_snapshot/store.rs:474-484 | the files considered are those that belong to the network, each once, in directory order, with the instant its name encodes |
| SnapshotStore.ListingIsChronological | src/config_snapshot/store.rs:486-491 | that order is a sorted permutation: dated files by instant, undated ones last by name |
| SnapshotStore.SnapshotDir.SelectLatestSnapshot | src/config_snapshot/store.rs:295-333 | picks the first file in directory order with the newest instant, or the greatest name when none is dated; fails only on no files |
| SnapshotStore.LastIsSelectedIff | src/config_snapshot/store.rs:295-333 | the last listed file is the selected one exactly when no file is dated, or all are and one alone has the newest instant |
| SnapshotStore.LastCanDifferFromSelected | src/config_snapshot/store.rs:295-333 | a dated file listed before an undated one, or before another of the same instant, is selected and is not the last |
| SnapshotStore.SnapshotDir.PruneSnapshotsIn | src/config_snapshot/store.rs:531-578 | deletes exactly the doomed files and returns them oldest first; leaves the directory as it was on a read error, which happens exactly when an age rule meets an unreadable file before the last |
| SnapshotStore.DoomedExactly | src/config_snapshot/store.rs:554-566 | a file is doomed exactly when count or age rejects it and it is not the last of the listing |
| SnapshotStore.DoomedInOrder | src/config_snapshot/store.rs:554-566 | the files to delete are named in the order of the listing |
| SnapshotStore.TooOldIff | src/config_snapshot/store.rs:580-596 | the age rule rejects a file once one whole day more than it allows has passed since the recorded time |
| SnapshotStore.AgeRuleKeepsTheYoung | src/config_snapshot/store.rs:549-566 | an age rule alone leaves exactly the files younger than that, and the last |
| SnapshotStore.CountRuleKeepsTheLast | src/config_snapshot/store.rs:545-566 | a count rule alone leaves exactly the last files of the listing, as many as it asks for and at least one |
| SnapshotStore.PruneIsIdempotent | src/config_snapshot/store.rs:531-578 | a second run with the same policy and clock succeeds and deletes nothing |
| SnapshotStore.CountRuleHolds | src/config_snapshot/store.rs:545-547 | a count rule leaves at most max(count, 1) files |
| SnapshotStore.NewestSurvivesIff | src/config_snapshot/store.rs:531-578 | the snapshot newest by time is in the directory after a run exactly when no file is undated, or the count exceeds the number of undated files and no age rule rejects it, or the run fails on an unreadable file |
| SnapshotStore.NewestCanBeDeleted | src/config_snapshot/store.rs:543-566 | of one dated snapshot and one undated file, keeping one file deletes the snapshot |
| SnapshotStore.BelongsIff | src/config_snapshot/store.rs:476-483 | a listing for one network takes in a file of another exactly when the other's name goes on after a hyphen, or its own goes on as the file's name does |
| SnapshotStore.OtherNetworkIsUndated | src/config_snapshot/store.rs:40-81 | the file of a network whose name goes on after a hyphen is listed as undated, unless the rest of that name and the timestamp parse as one |
| SnapshotStore.OtherNetworkDisplacesNewest | src/config_snapshot/store.rs:531-578 | beside such a file, keeping one file deletes the network's own snapshot |
| ConfigDiff.ChangesAreExact | src/config_snapshot/diff.rs:438-480 | the difference holds exactly the compared fields whose values differ, with both values, and the settings present on one side only; each once, in order of comparison |
| ConfigDiff.ComputeByName | src/config_snapshot/diff.rs:593-632 | the compared values of the compute setting go by their own names, the fee rate flagged as pricing |
| ConfigDiff.LedgerCostByName | src/config_snapshot/diff.rs:634-723 | the same for the ledger cost |
| ConfigDiff.HistoricalDataByName | src/config_snapshot/diff.rs:725-744 | the same for historical data |
| ConfigDiff.EventsByName | src/config_snapshot/diff.rs:746-772 | the same for events |
| ConfigDiff.BandwidthByName | src/config_snapshot/diff.rs:774-807 | the same for bandwidth |
| ConfigDiff.ArchivalByName | src/config_snapshot/diff.rs:809-890 | the same for state archival |
| ConfigDiff.DiffSnapshots | src/config_snapshot/diff.rs:438-480 | the pushes, setting by setting and field by field, produce that difference |
| ConfigDiff.SameConfigurationIff | src/config_snapshot/model.rs:179-189 | configurations are the same exactly when the diff is empty and network, protocol version and the four uncompared ledger-cost fields agree |
| ConfigDiff.UncomparedFieldIsMissed | src/config_snapshot/diff.rs:641-719 | two snapshots that differ only in a transaction write limit are different configurations with an empty diff |
| ConfigHistory.BuildChangeLogFromSnapshots | src/config_snapshot/history.rs:32-53 | the log is the stamped differences of neighbours in timestamp order |
| ConfigHistory.LogHolds | src/config_snapshot/history.rs:37-52 | the log holds exactly the changes between neighbours, each with the timestamp and the ledger of the later snapshot |
| ConfigHistory.LogIsChronologicalIff | src/config_snapshot/history.rs:24-35 | the log's snapshots are in order of time exactly when no two given timestamps are ordered against their instants by their text |
| ConfigHistory.EntriesAreChronological | src/config_snapshot/history.rs:37-52 | and then its entries are in order of time |
| ConfigHistory.OneOffsetIsChronological | src/config_snapshot/history.rs:33-35 | snapshots whose timestamps carry one numeric offset are in order of time |
| ConfigHistory.OffsetsMisorderTheLog | src/config_snapshot/history.rs:33-35 | two snapshots with different offsets whose log is out of order |
| Timestamps.TextOrderIsTimeOrderIff | src/config_snapshot/history.rs:35 | of two timestamps with one offset, fractions of any width, the earlier comes first as text except for `Z` and a later one that only adds fraction digits |
| Timestamps.NumericOffsetsSortByTime | src/cache.rs:1225-1292 | with one numeric offset text is never out of time order |
| ConfigHistory.ChangeLogTelescopes | src/config_snapshot/history.rs:32-53 | for every setting present in all snapshots, each entry starts from the value its predecessors left, and replaying the entries over the snapshot the log sorts first gives the one it sorts last |
| ConfigHistory.StretchTelescopes | src/config_snapshot/history.rs:32-53 | for a setting that comes and goes, each stretch of snapshots that carry it has its own part of the log, which telescopes the same way |
| ConfigHistory.PresenceAlternates | src/config_snapshot/diff.rs:593-632 | over any snapshots a setting's added and removed entries alternate, field entries fall only where it is present, and they lead from its presence in the first to that in the last |
| ConfigHistory.EndsAreExtremeIff | src/config_snapshot/history.rs:24-35 | the snapshot the log sorts last is newest in time exactly when some snapshot has both the last timestamp text and the latest instant; likewise first and oldest |
| ConfigHistory.ChronologicalEnds | src/config_snapshot/history.rs:24-35 | in a log that is in order of time they are |
| ConfigHistory.NeighboursMeet | src/config_snapshot/history.rs:37-52 | two neighbouring entries of a field meet: the later one's old value is the earlier one's new value |
| ConfigHistory.AbsentSettingIsSilent | src/config_snapshot/diff.rs:593-632 | a setting no snapshot carries never appears in the change log |
| ConfigHistory.LastChangedFromLog | src/config_snapshot/history.rs:58-76 | one entry per field that ever changed, the one kept by strictly greater timestamp, in path order |
| ConfigHistory.LatestIsFirstGreatest | src/config_snapshot/history.rs:58-71 | for every log, the entry kept for a field is the first of its entries with the greatest timestamp |
| ConfigHistory.LatestIsLastIff | src/config_snapshot/history.rs:58-71 | for every log, a field's last change is kept exactly when every different change of it has a strictly smaller timestamp, or the same one and comes after an equal of the last |
| ConfigHistory.LastChangeHoldsNewest | src/config_snapshot/history.rs:32-53 | a field's last change in the log holds the value of the snapshot the log sorts last, and a field without a change has the same value in the first and the last |
| ConfigHistory.LastChangedHoldsNewest | src/config_snapshot/history.rs:58-76 | so last-changed reports the value of the snapshot the log sorts last for every field whose last change stands out in that sense |
| ConfigHistory.LastChangedHoldsNewestInTime | src/config_snapshot/history.rs:55-76 | and that of a snapshot newest in time if some snapshot has both the last timestamp text and the latest instant |
| ConfigHistory.OffsetsReportTheOlderValue | src/config_snapshot/history.rs:55-76 | two snapshots with distinct timestamps and different offsets for which it reports the older value |
| ConfigHistory.DistinctTimesStandOut | src/config_snapshot/history.rs:58-76 | with distinct snapshot timestamps every last change does |
| ConfigHistory.LaterKeptIffStrict | src/config_snapshot/history.rs:62-71 | of two changes with equal timestamps the earlier, overwritten one is reported |
| EstimateCsv.DocumentReadsBack | src/main.rs:2696-2717 | an RFC 4180 reader gets back the header and one record of ten fields per result, whatever the fields contain |
| EstimateCsv.FormatEstimateAllCsv | src/main.rs:2696-2717 | the buffer loop writes that document |
| EstimateCsv.ReadEscaped | src/main.rs:2672-2678 | an escaped value reads back as the value |
| EstimateCsv.EscapedForm | src/main.rs:2672-2678 | a value is quoted exactly when it holds a comma, a quote or a line break, and grows by the two quotes and one per quote in it |
| EstimateCsv.ColumnsAreAsHeaded | src/main.rs:2665-2717 | every column holds what the header says above it, with zeros and no fee text for a function that was skipped or failed |
| EstimateCsv.DocumentGrows | src/main.rs:2696-2717 | the header line and one line per result, cells joined by commas, ended by a line feed |
| Leb128.Buffer.WriteLebU32 | src/bin/gen_test_wasm.rs:225-237 | appends the encoding and leaves the earlier buffer alone |
| Leb128.Buffer.WriteName | src/bin/gen_test_wasm.rs:67-70 | appends the 32-bit length and the bytes |
| Leb128.U32RoundTrip | src/bin/gen_test_wasm.rs:225-237 | every 32-bit value takes at most five bytes and decodes to itself whatever follows |
| Leb128.EncodingIsShortest | src/bin/gen_test_wasm.rs:225-237 | no byte sequence decoding to a value is shorter, and only this one is as short |
| Leb128.NameRoundTrip | src/bin/gen_test_wasm.rs:67-70 | a name decodes to itself exactly when its length fits 32 bits |
| BuildWatch.EstimateWatch.PollOnce | src/main.rs:2464-2511 | one poll's acceptance and new state |
| BuildWatch.EstimateWatch.SettledNewBuildDetected | src/main.rs:2248-2263 | the double-sample decision and its update of the pending hash |
| BuildWatch.AcceptedIffSettled | src/main.rs:2248-2263 | in every trace a build is accepted exactly when its hash differs from the last accepted one and the previous readable poll saw the same hash |
| BuildWatch.ConsecutiveIffReadable | src/main.rs:2240-2247 | the poll just before an accepted one saw the same hash exactly when it was not a read error |
| BuildWatch.ReadErrorIsSkipped | src/main.rs:2495-2503 | a read error between two polls that saw the same hash does not keep the build from being accepted |
| BuildWatch.NeighboursDiffer | src/main.rs:2464-2511 | neighbouring accepted builds differ |
| BuildDate.CivilFromDaysIsCalendarDay | build.rs:18-28 | for every day count, negative ones included, the closed form is the date reached by stepping the calendar day by day from 1970-01-01 |
| BuildDate.CivilFromDaysIsDate | build.rs:18-28 | the result is always a real proleptic Gregorian date |
| BuildDate.CivilFromDaysSuccessor | build.rs:18-28 | one more day is the calendar successor |
| BuildDate.DaysOfCivilFromDays | build.rs:18-28 | counting the date's days back gives the day count |
| BuildDate.LaterDateLaterDay | build.rs:18-28 | days are counted in the order of the calendar |
| BuildDate.CivilOfDaysFromCivil | build.rs:18-28 | every real date is produced by the count of its days |
| BuildDate.StampRecomposes | build.rs:14-28 | date and time of day recompose to the original seconds |

## Left out

- SQLite, its journal, permissions, corruption recovery, vacuuming and the legacy JSON import: foreign calls. A statement is atomic and a row set is a map from key to row; in `DeleteOldest` rows with equal times fall either way.
- EstimateCache.EstimateCache.EnforceLimits: does not model overflow of `max_entries * 9` in `usize`.
- `load_estimate_history`, freshness by TTL, export, verify and statistics: reads that would only add easy members.
- CircuitBreaker.CircuitBreaker.Call: one caller's view; interleaved callers are the runs over checks and outcomes, where a reading of the clock belongs to its locked section.
- A call dropped before its outcome records nothing; in a run it stands as an uncounted failure, which has the same effect on the breaker.
- Retry.WithRetryDeadline: timers are exact and code between them takes no time; logging is left out.
- FeeCalc.ComputeFeeBreakdown: the percentages stay integers; their floating-point rendering is left out.
- XlmText.PrintThenParse: stated for every precision over unbounded integers; the command line admits 0 to 7.
- `Trim` in the cache filter knows ASCII white space only.
- EstimateCache.EstimateCache.ClearNetworkEntries: does not model another operation between its two statements, nor does `RemoveCachedEstimatesForWasm`; they run under the write lock but not in one transaction. `LoadEstimate` takes its lookup and its best-effort touch as one step, and the touch as succeeding.
- EstimateCache.EstimateCache.QueriedPagesAreTheListing: does not cover entries with equal timestamps, whose order SQLite leaves open.
- Leap seconds, and RFC 3339 text with a lower-case `t` or `z`, are not moments of `Timestamps`.
- RFC 3339 parsing, SHA-256 and text encodings: arbitrary functions and plain character sequences.
- SnapshotStore.SnapshotDir.PruneSnapshotsIn: a deletion does not fail, and file contents do not change during a run.
- ConfigHistory.StretchTelescopes: nothing is claimed of a field's values across an absence of its setting, since the log then holds a presence entry and not the values.
- `diff_payloads`, explanations, units, display names, colours, thresholds and exit codes: lookups and rendering.
- The text form of the build stamp, and the commands `build.rs` runs.
- RPC transport, WebSocket, XDR, WASM parsing, prompts, tables, JSON and Markdown output.
