# Blob-range registration: workload oracle and `blobrange` command

This project models two pieces of FoundationDB's blob-granule range support in
Dafny and proves properties of the model.

- **BlobGranuleRangesWorkload** is a test workload. One client registers
  ("blobbifies") fresh key ranges with the blob-range service and unregisters
  random ones, tracking which ranges it expects to be active and which
  inactive. A second client runs scripted unit scenarios in fresh ranges:
  verify-range, verify-range-gap and blobbify-idempotent. At the end,
  `_check` runs `checkRange` on every tracked active range.
- **`blobrange`** is the command-line client's command
  `blobrange <start|stop|check|purge|forcepurge> <startkey> <endkey> [version]`.
  It validates the tokens and dispatches to the database.

The blob-range service itself is external to both. Module `ReferenceService`
models it as a ghost set of registered, pairwise-disjoint key ranges, with
these rules:

- **blobbifyRange** succeeds on an exact match or on a range that overlaps
  nothing.
- **unblobbifyRange** succeeds on a range that overlaps nothing, or on a
  range aligned with registered ranges. Aligned means it cuts none of them,
  and its ends are a registered begin and a registered end. On success it
  unregisters the ranges inside.
- **verifyBlobRange** reports a range active when it lies inside one
  registered range.
- **listBlobbifiedRanges** and **getBlobGranuleRanges** return the
  overlapping registered ranges, unclipped, in key order.

Every scenario's ASSERTs are proved against this model for any service state
that leaves the scenario's fresh range untouched.

The workload is imperative in the source, and the model keeps that form:

- `BlobGranuleRangesWorkload` is a class with the fields `nextKey`,
  `activeRanges` and `inactiveRanges`, plus the ghost service state `svc`
  and the issued ids `issued`.
- `newKey`, `registerNewRange`, `unregisterRandomRange`, the client step,
  `_check` and the scenarios are methods, and each ASSERT is an `assert`.
- The invariant `Valid` holds across every operation:
  - the registered ranges stay disjoint;
  - every registered or tracked range lies under an issued id;
  - the tracked active ranges are registered and distinct;
  - the tracked inactive ranges are not registered.

The `blobrange` command is a pure function of:

- the tokens;
- the tenant prefix;
- the boolean the database answers to blobbifyRange or unblobbifyRange;
- the latest read version.

Its result is the call it makes together with the boolean it returns. The
`"%" PRId64 "%n"` parse of the version token is modelled byte by byte.

The model follows the workload's and the command's own code:

- unblobbifyRange on a union of registered sub-ranges succeeds. The gap
  scenario's teardown asserts this (lines 393-399).
- The idempotence scenario ends by *activating* `[A, B)` twice (lines
  557-561) and leaves it registered.
- Scenario selection is the source's retry loop: it draws again while the
  draw is an excluded scenario, up to `loopTries` times (lines 613-622).
- In the `blobrange` command, `startkey >= endkey` prints an error and
  still returns true (lines 119-120, 185).

## Model

| member | source | states |
|---|---|---|
| Keys.Strinc | fdbserver/workloads/BlobGranuleRangesWorkload.actor.cpp:115 | strinc of a key not ending in 0xff has the key's length and sorts after the key |
| Keys.Less | fdbserver/workloads/BlobGranuleRangesWorkload.actor.cpp:223-236 | the StringRef order the ASSERTs compare keys with: the first differing byte decides, and a proper prefix comes first |
| Keys.Hex | fdbserver/workloads/BlobGranuleRangesWorkload.actor.cpp:97 | "%08x" of the counter (and "%04x" of the boundary index at line 370) is exactly width lower-case hex digits |
| Keys.StrincBelow | fdbserver/workloads/BlobGranuleRangesWorkload.actor.cpp:114-115 | every key from k up to, but not including, strinc(k) starts with k |
| Keys.StrincAbove | fdbserver/workloads/BlobGranuleRangesWorkload.actor.cpp:369-373 | every extension k+s of a key sorts strictly below strinc(k), so the gap scenario's last boundary lies above the others |
| Keys.LessCommonPrefix | fdbserver/workloads/BlobGranuleRangesWorkload.actor.cpp:323-324 | a common prefix (withSuffix on one begin key) keeps the order of the suffixes in both directions |
| Keys.HexRoundTrip | fdbserver/workloads/BlobGranuleRangesWorkload.actor.cpp:96-97 | "%08x" of the counter decodes back to the counter |
| Keys.HexValueRoundTrip | fdbserver/workloads/BlobGranuleRangesWorkload.actor.cpp:96-97 | a fixed-width hex id is the "%0Nx" formatting of its value |
| Keys.HexMonotone | fdbserver/workloads/BlobGranuleRangesWorkload.actor.cpp:96-97 | zero-padded hex of one width sorts like the numbers, so a larger counter gives a larger key |
| Ranges.PrefixRange | fdbserver/workloads/BlobGranuleRangesWorkload.actor.cpp:114-115 | [k, strinc(k)) is non-empty, begins at k and holds every key that starts with k |
| Ranges.PrefixRangeHolds | fdbserver/workloads/BlobGranuleRangesWorkload.actor.cpp:114-115 | a key lies in [k, strinc(k)) if and only if it starts with k |
| Ranges.PrefixRangesDisjoint | fdbserver/workloads/BlobGranuleRangesWorkload.actor.cpp:114-115 | the prefix ranges of two different keys of one length are disjoint |
| Ranges.Partition | fdbserver/workloads/BlobGranuleRangesWorkload.actor.cpp:379-380 | consecutive increasing boundaries give non-empty sub-ranges that are pairwise disjoint and lie between the first and last boundary |
| ReferenceService.Blobbify | fdbserver/workloads/BlobGranuleRangesWorkload.actor.cpp:103-106 | blobbifyRange succeeds iff the range is registered as is or overlaps nothing; registers it then, changes nothing otherwise, and keeps the registry disjoint |
| ReferenceService.Unblobbify | fdbserver/workloads/BlobGranuleRangesWorkload.actor.cpp:107-110 | unblobbifyRange succeeds iff nothing overlaps or the range is aligned; then nothing registered overlaps it and everything outside stays; on failure nothing changes |
| ReferenceService.Verify | fdbserver/workloads/BlobGranuleRangesWorkload.actor.cpp:196-199 | isRangeActive: verifyBlobRange returns a version exactly when the whole query lies inside one registered range |
| ReferenceService.Listed | fdbserver/workloads/BlobGranuleRangesWorkload.actor.cpp:220 | listBlobbifiedRanges and getBlobGranuleRanges (line 232) report the registered ranges that share a key with the query, unclipped |
| ReferenceService.Enumerates | fdbserver/workloads/BlobGranuleRangesWorkload.actor.cpp:220-232 | a reply lists each reported range exactly once, in increasing order of begin |
| ReferenceService.RangesReply | fdbserver/workloads/BlobGranuleRangesWorkload.actor.cpp:220-232 | a listing or granule reply for a query enumerates the registered ranges that overlap it |
| ReferenceService.BlobbifyIdempotent | fdbserver/workloads/BlobGranuleRangesWorkload.actor.cpp:483-485 | activating an activated range again succeeds and changes nothing |
| ReferenceService.BlobbifyMisaligned | fdbserver/workloads/BlobGranuleRangesWorkload.actor.cpp:488-511 | activating a range that overlaps a registered range without equalling it fails and changes nothing |
| ReferenceService.UnblobbifyExact | fdbserver/workloads/BlobGranuleRangesWorkload.actor.cpp:153-154 | deactivating exactly a registered range succeeds and unregisters only it |
| ReferenceService.UnblobbifyUnaligned | fdbserver/workloads/BlobGranuleRangesWorkload.actor.cpp:533-537 | deactivating an overlapping range whose begin (or end) is no registered boundary fails and changes nothing |
| ReferenceService.UnblobbifyCutting | fdbserver/workloads/BlobGranuleRangesWorkload.actor.cpp:542-555 | deactivating a range that cuts a registered range fails and changes nothing |
| ReferenceService.ListedWithin | fdbserver/workloads/BlobGranuleRangesWorkload.actor.cpp:220-224 | a query inside one registered range lists exactly that range |
| RangeChecks.ActiveCovers | fdbserver/workloads/BlobGranuleRangesWorkload.actor.cpp:233-239 | granules accepted for an active range (first begin <= begin, last end >= end, each end the next begin) cover every key of the range |
| RangeChecks.Contiguous | fdbserver/workloads/BlobGranuleRangesWorkload.actor.cpp:237-239 | each granule ends where the next begins |
| RangeChecks.ActiveAccepted | fdbserver/workloads/BlobGranuleRangesWorkload.actor.cpp:222-239 | the active ASSERTs: one listed range holding the query; at least one granule, the first beginning at or before the query, the last ending at or after it, contiguous |
| RangeChecks.InactiveAccepted | fdbserver/workloads/BlobGranuleRangesWorkload.actor.cpp:226-250 | the inactive ASSERTs: the listing and the granule reply are both empty |
| RangeChecks.Accepted | fdbserver/workloads/BlobGranuleRangesWorkload.actor.cpp:222-250 | checkRange accepts the two replies by the active or the inactive ASSERTs, as isActive says |
| RangeChecks.CheckRangePasses | fdbserver/workloads/BlobGranuleRangesWorkload.actor.cpp:201-259 | checkRange completes: its first poll returns the expected verdict, and every listing and granule reply the service can give is accepted |
| RangeChecks.GranuleOf | fdbserver/workloads/BlobGranuleRangesWorkload.actor.cpp:237-239 | a key between the first granule's begin and the last granule's end lies in some granule of a contiguous sequence |
| RangeChecks.EnumeratesSingleton | fdbserver/workloads/BlobGranuleRangesWorkload.actor.cpp:222 | a reply listing one range once is exactly that one-element list |
| RangeChecks.CheckRangeConverged | fdbserver/workloads/BlobGranuleRangesWorkload.actor.cpp:201-259 | when the query lies inside one registered range (expected active), or when nothing registered overlaps it (expected inactive, the only inactive calls the scenarios make), every listing and granule reply passes checkRange's ASSERTs |
| Scenarios.UnitKeys | fdbserver/workloads/BlobGranuleRangesWorkload.actor.cpp:465-467 | begin < begin+"A" < begin+"AF" < begin+"AG" < begin+"B" < strinc(begin) |
| Scenarios.UnitRangeInside | fdbserver/workloads/BlobGranuleRangesWorkload.actor.cpp:323 | the scenario range and [begin+"A", begin+"B") are non-empty, and the latter lies in the former |
| Scenarios.InactiveProbes | fdbserver/workloads/BlobGranuleRangesWorkload.actor.cpp:339-358 | the ranges of fail1..fail7, in the order verifyRangeUnit polls them |
| Scenarios.MisalignedProbes | fdbserver/workloads/BlobGranuleRangesWorkload.actor.cpp:489-511 | the eight ranges of fail1..fail8; the deactivation probes unblobbifyFail1..8 at 533-555 are fail1-3, fail6, fail7, fail6, fail7 and fail8 of these |
| Scenarios.ClearInside | fdbserver/workloads/BlobGranuleRangesWorkload.actor.cpp:329-330 | a range inside an untouched scenario range activates (and deactivates as a no-op) successfully |
| Scenarios.SingleRegistration | fdbserver/workloads/BlobGranuleRangesWorkload.actor.cpp:322-358 | with one range r registered in the scenario range: q is active iff it lies in r; listing q gives r iff they meet; activation and deactivation of q succeed iff q is r or misses r |
| Scenarios.InactiveProbesOutside | fdbserver/workloads/BlobGranuleRangesWorkload.actor.cpp:339-358 | the seven probes are non-empty, lie in the range and reach outside [A, B) |
| Scenarios.VerifyRangeScenario | fdbserver/workloads/BlobGranuleRangesWorkload.actor.cpp:322-363 | verifyRangeUnit: activation succeeds, checkRange passes, both halves at "AF" are active, the seven probes are inactive, the teardown restores the state |
| Scenarios.MisalignedProbesOverlap | fdbserver/workloads/BlobGranuleRangesWorkload.actor.cpp:488-511 | every misaligned probe is non-empty, lies in the range, overlaps [A, B) and differs from it |
| Scenarios.IdempotentScenario | fdbserver/workloads/BlobGranuleRangesWorkload.actor.cpp:473-527 | deactivating the unregistered [A, B) is a successful no-op, activation and re-activation succeed, checkRange passes, listing the range gives exactly [A, B) |
| Scenarios.MisalignedRefused | fdbserver/workloads/BlobGranuleRangesWorkload.actor.cpp:488-555 | with [A, B) registered, each misaligned probe is refused by both activation and deactivation, leaving the service unchanged |
| Scenarios.GapBoundaries | fdbserver/workloads/BlobGranuleRangesWorkload.actor.cpp:366-375 | the boundaries loop yields rangeCount + 1 strictly increasing keys: begin, begin+"%04x"(i), strinc(begin) |
| Scenarios.GapBoundaryStep | fdbserver/workloads/BlobGranuleRangesWorkload.actor.cpp:369-373 | each boundary is below the next one |
| Scenarios.GapBoundary | fdbserver/workloads/BlobGranuleRangesWorkload.actor.cpp:366-375 | boundary i: the range begin, begin+"%04x"(i-1), or the range end |
| Scenarios.Piece | fdbserver/workloads/BlobGranuleRangesWorkload.actor.cpp:379-380 | sub-range i runs from boundary i to boundary i+1 |
| Scenarios.Pieces | fdbserver/workloads/BlobGranuleRangesWorkload.actor.cpp:379-384 | the sub-ranges between two indices that the loop registers, leaving out the gap |
| Scenarios.IncreasingSnoc | fdbserver/workloads/BlobGranuleRangesWorkload.actor.cpp:371 | appending a key above the last keeps the boundaries increasing |
| Scenarios.PiecesPartitioned | fdbserver/workloads/BlobGranuleRangesWorkload.actor.cpp:379-384 | the registered sub-ranges are non-empty, inside the range, new and disjoint from each other and from the rest |
| Scenarios.GapStep | fdbserver/workloads/BlobGranuleRangesWorkload.actor.cpp:379-388 | loop step i: a non-gap sub-range activates and checks active; the gap checks inactive |
| Scenarios.GapWholeInactive | fdbserver/workloads/BlobGranuleRangesWorkload.actor.cpp:390-391 | with all sub-ranges but the gap registered, the whole range is not active |
| Scenarios.PieceAgainstTeardown | fdbserver/workloads/BlobGranuleRangesWorkload.actor.cpp:393-399 | sub-ranges before the teardown's end lie in it; later ones neither meet it nor lie in it |
| Scenarios.GapTeardown | fdbserver/workloads/BlobGranuleRangesWorkload.actor.cpp:393-399 | deactivating the block of sub-ranges on one side of the gap succeeds and unregisters exactly those sub-ranges |
| Scenarios.GapTeardownEnds | fdbserver/workloads/BlobGranuleRangesWorkload.actor.cpp:393-399 | a teardown skipped because the gap is first or last loses nothing |
| Workload.IdRange | fdbserver/workloads/BlobGranuleRangesWorkload.actor.cpp:114-115 | the range under prefix+id is non-empty and begins with prefix+id |
| Workload.IdRangesDisjoint | fdbserver/workloads/BlobGranuleRangesWorkload.actor.cpp:610-611 | "R_" and "U_" ranges of different ids (or prefixes) are disjoint |
| Workload.FreshIdClear | fdbserver/workloads/BlobGranuleRangesWorkload.actor.cpp:94-101 | ranges under issued ids never meet the ranges of a fresh id |
| Workload.SwapAndPop | fdbserver/workloads/BlobGranuleRangesWorkload.actor.cpp:138 | one shorter; the last element fills the removed slot; every other slot is kept; the multiset loses exactly the removed element |
| Workload.SwapAndPopCount | fdbserver/workloads/BlobGranuleRangesWorkload.actor.cpp:138 | swap-with-last-then-pop removes exactly one copy of the chosen element |
| Workload.SelectionEnabled | fdbserver/workloads/BlobGranuleRangesWorkload.actor.cpp:603-622 | the selected op is one of the three enabled scenarios, and selection fails iff all 1001 draws are excluded |
| Workload.Selected | fdbserver/workloads/BlobGranuleRangesWorkload.actor.cpp:613-622 | the op the retry loop settles on: the first draw outside the excluded set, or none when all loopTries + 1 draws are excluded |
| Workload.SelectOp | fdbserver/workloads/BlobGranuleRangesWorkload.actor.cpp:613-622 | the selection loop returns the first non-excluded draw, or fails when loopTries goes below 0 |
| Workload.IssueKeeps | fdbserver/workloads/BlobGranuleRangesWorkload.actor.cpp:94-101 | issuing a fresh id keeps the bookkeeping and leaves both ranges under it untouched |
| Workload.RegisterKeeps | fdbserver/workloads/BlobGranuleRangesWorkload.actor.cpp:113-130 | registering the fresh "R_" range succeeds and keeps the bookkeeping with it appended to the active list |
| Workload.UnregisterKeeps | fdbserver/workloads/BlobGranuleRangesWorkload.actor.cpp:133-162 | unregistering a tracked active range succeeds and keeps the bookkeeping with it moved to the inactive list |
| Workload.ScenarioKeeps | fdbserver/workloads/BlobGranuleRangesWorkload.actor.cpp:629-641 | a scenario leaving one range registered in its "U_" range keeps the bookkeeping |
| Workload.BlobGranuleRangesWorkload.constructor | fdbserver/workloads/BlobGranuleRangesWorkload.actor.cpp:81-86 | nextKey = 10000000 * clientId, positive gap, nothing tracked or registered |
| Workload.BlobGranuleRangesWorkload.NewKey | fdbserver/workloads/BlobGranuleRangesWorkload.actor.cpp:94-101 | sequential: nextKey rises by sequentialGap and the id is its "%08x", above every earlier id; random: the UID; the id is fresh and the ranges under it untouched |
| Workload.BlobGranuleRangesWorkload.SetRange | fdbserver/workloads/BlobGranuleRangesWorkload.actor.cpp:103-111 | blobbifyRange when active, unblobbifyRange otherwise: the service's answer and new state |
| Workload.BlobGranuleRangesWorkload.RegisterNewRange | fdbserver/workloads/BlobGranuleRangesWorkload.actor.cpp:113-131 | the "R_" range of a newly issued id (the UID in random mode; nextKey unchanged there, raised by the gap in sequential mode) is added to svc and appended to activeRanges; inactiveRanges unchanged; Valid kept |
| Workload.BlobGranuleRangesWorkload.UnregisterRandomRange | fdbserver/workloads/BlobGranuleRangesWorkload.actor.cpp:133-163 | the chosen range is swapped out of activeRanges, unregistered, and appended to inactiveRanges; Valid kept |
| Workload.BlobGranuleRangesWorkload.ClientStep | fdbserver/workloads/BlobGranuleRangesWorkload.actor.cpp:289-302 | registers when nothing is active or on the coin: svc gains the appended range, one id is issued, nextKey as in newKey; else unregisters the drawn range: svc loses exactly it, nextKey and the ids unchanged; Valid kept |
| Workload.BlobGranuleRangesWorkload.Check | fdbserver/workloads/BlobGranuleRangesWorkload.actor.cpp:261-285 | checkRange passes on every tracked active range, and _check returns true |
| Workload.BlobGranuleRangesWorkload.TearDownRangeAfterUnit | fdbserver/workloads/BlobGranuleRangesWorkload.actor.cpp:304-320 | the deactivation succeeds; the new state is its result |
| Workload.BlobGranuleRangesWorkload.VerifyRangeUnit | fdbserver/workloads/BlobGranuleRangesWorkload.actor.cpp:322-363 | every ASSERT of verifyRangeUnit holds and the service ends as it began |
| Workload.BlobGranuleRangesWorkload.VerifyRangeGapUnit | fdbserver/workloads/BlobGranuleRangesWorkload.actor.cpp:365-391 | every ASSERT of verifyRangeGapUnit holds and the service ends as it began |
| Workload.BlobGranuleRangesWorkload.TearDownGapUnit | fdbserver/workloads/BlobGranuleRangesWorkload.actor.cpp:393-399 | the two teardowns around the gap succeed and restore the state from before the scenario |
| Workload.BlobGranuleRangesWorkload.BlobbifyIdempotentUnit | fdbserver/workloads/BlobGranuleRangesWorkload.actor.cpp:464-564 | every ASSERT of blobbifyIdempotentUnit holds and [A, B) is left registered |
| Workload.BlobGranuleRangesWorkload.MisalignedActivationsFail | fdbserver/workloads/BlobGranuleRangesWorkload.actor.cpp:488-511 | fail1..fail8 are false and change nothing |
| Workload.BlobGranuleRangesWorkload.MisalignedDeactivationsFail | fdbserver/workloads/BlobGranuleRangesWorkload.actor.cpp:529-555 | unblobbifyFail1..8 are false and change nothing |
| Workload.BlobGranuleRangesWorkload.UnitTestIteration | fdbserver/workloads/BlobGranuleRangesWorkload.actor.cpp:603-641 | a fresh "U_" range under one newly issued id, nextKey as in newKey; the selected op is an enabled one (ASSERT(false) unreachable); lists unchanged; svc gains [A, B) only for the idempotence scenario; Valid kept |
| Workload.BlobGranuleRangesWorkload.RunUnitScenario | fdbserver/workloads/BlobGranuleRangesWorkload.actor.cpp:629-641 | dispatch: only the idempotence scenario changes the registrations |
| ScanInt64.SpaceRun | fdbcli/BlobRangeCommand.actor.cpp:158 | the leading white space: all white space, and followed by a non-space |
| ScanInt64.DigitRun | fdbcli/BlobRangeCommand.actor.cpp:158 | the leading digits: all digits, and followed by a non-digit |
| ScanInt64.Clamp | fdbcli/BlobRangeCommand.actor.cpp:158 | the stored value is in the int64 range, equal to the number when it fits, the nearest bound otherwise |
| ScanInt64.Scan | fdbcli/BlobRangeCommand.actor.cpp:158 | an accepted version is a 64-bit value |
| ScanInt64.ScanAccepts | fdbcli/BlobRangeCommand.actor.cpp:158-161 | the token is accepted iff it is white space, an optional sign, one or more digits, and nothing else |
| ScanInt64.ScanSound | fdbcli/BlobRangeCommand.actor.cpp:158-161 | what is accepted is white space followed by signed digits to the end |
| ScanInt64.ScanComplete | fdbcli/BlobRangeCommand.actor.cpp:158-161 | white space followed by signed digits to the end is accepted |
| ScanInt64.DigitsRead | fdbcli/BlobRangeCommand.actor.cpp:158 | a token of digits is consumed whole |
| ScanInt64.Decimal | fdbcli/BlobRangeCommand.actor.cpp:171 | the decimal form is non-empty and all digits |
| ScanInt64.DecimalRoundTrip | fdbcli/BlobRangeCommand.actor.cpp:171 | decimal digits read back to the number |
| ScanInt64.ScanFormat | fdbcli/BlobRangeCommand.actor.cpp:158-162 | every int64 version written in decimal is accepted as itself |
| ScanInt64.ScanClampsHigh | fdbcli/BlobRangeCommand.actor.cpp:158 | digits beyond the int64 range read as the largest int64 |
| BlobRangeCommand.CommandRange | fdbcli/BlobRangeCommand.actor.cpp:107-113 | begin and end are the tenant prefix followed by tokens 2 and 3, or the bare tokens without a tenant |
| BlobRangeCommand.BlobRange | fdbcli/BlobRangeCommand.actor.cpp:95-186 | every call names a non-empty range ending at or below "\xff"; start/stop return the database's answer; purge/forcepurge/check return true |
| BlobRangeCommand.PrefixKeepsOrder | fdbcli/BlobRangeCommand.actor.cpp:107-119 | the ordering test on the bare tokens equals the test on the prefixed keys |
| BlobRangeCommand.TokenCountRejected | fdbcli/BlobRangeCommand.actor.cpp:99-102 | neither 4 nor 5 tokens: false, no call |
| BlobRangeCommand.CallRange | fdbcli/BlobRangeCommand.actor.cpp:107-113 | any call's range is tokens 2 and 3 under the tenant prefix, or bare without a tenant |
| BlobRangeCommand.SystemKeyspaceRejected | fdbcli/BlobRangeCommand.actor.cpp:115-118 | a prefixed end above "\xff" gives false, no call |
| BlobRangeCommand.MisorderedFallsThrough | fdbcli/BlobRangeCommand.actor.cpp:119-120 | startkey >= endkey gives true with no call |
| BlobRangeCommand.StartStop | fdbcli/BlobRangeCommand.actor.cpp:122-149 | start/stop with a version token: false; otherwise blobbify (start) or unblobbify (stop) the range and return the answer |
| BlobRangeCommand.PurgeAndCheck | fdbcli/BlobRangeCommand.actor.cpp:150-179 | a version token that is not white space, an optional sign and digits to the end gives false; otherwise purge (forced only for forcepurge) at the scanned (clamped to int64) or latest read version, or check at the scanned version, returning true |
| BlobRangeCommand.UnknownSubcommand | fdbcli/BlobRangeCommand.actor.cpp:180-183 | any other subcommand: false, no call |

## Left out

- The blob manager and blob workers are not modelled. They appear only as the reference registry; granule splitting is not modelled, so each registered range is one granule.
- Purge leaves registrations as they are in the model. Purge data effects and `waitPurgeGranulesComplete` are not modelled.
- Concurrency and timing are not modelled: the Poisson rate limiter, `delay`, retries on `tr.onError`, and the polling loop in `checkRange`. Each converged call is one step, and `_check`'s concurrent fan-out is a sequential loop.
- Randomness is passed in as parameters: the coin flips, the drawn range index, the selection draws, `rangeCount`, the gap index and the random UID. A random UID is required to be fresh (a 128-bit uniqueness assumption).
- Workload.BlobGranuleRangesWorkload.NewKey: requires that the counter stays within 32 bits. It does not model what `nextKey` does when it overflows `int`.
- Workload.BlobGranuleRangesWorkload.constructor: requires 10000000 * clientId to fit in 32 bits (client ids below 215). It does not model the overflow of the `int32_t` assignment at line 84 for larger ids.
- The floating-point configuration in the workload constructor (test duration, rate, target range count, lines 62-75) and `_setup`'s initial registrations are not modelled.
- The scenarios `rangesMisalignedUnit` and `reBlobbifyUnit` are not modelled. The selection excludes them, and their assertions encode behaviour the authors mark as not working.
- The checks on inactive ranges in `_check` are commented out in the source and are not modelled.
- The outer loop of `blobGranuleRangesUnitTests` and its stop flag are not modelled. The model covers one iteration.
- The success message at lines 139-142 of the `blobrange` command refers to names that are not declared there. Printing, tracing and the usage text are not modelled.
- The limit of 1000000 on listings is not modelled; no scenario comes near it.
- Keys.Strinc: only defined for keys not ending in 0xff. Every strinc in the workload is of "R_"/"U_" followed by hex digits.
- `doBlobCheck`'s timing and the version it prints are not modelled. `getLatestReadVersion` is a parameter.
- Errors the database throws from blobbifyRange and unblobbifyRange (start/stop, lines 124-146) or from purge and check are not modelled. The database is reduced to the boolean it answers. The source propagates them as exceptions.
- Multiple workload clients sharing one service are not modelled. The model has one client, which owns the ranges under the ids it issues.
