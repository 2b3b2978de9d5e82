# Verified model of the ktstr core

ktstr runs scheduler tests in virtual machines. This project models the parts of it in which a mistake
is hardest to see, and proves what they promise:

- **Test selection** (`Words`, `Ordering`, `Selection`, `Budget`, `GreedyBound`, `GreedyHalf`,
  `OrderIndependence`, `Features`): the greedy choice of tests under a time budget, its approximation
  guarantees, its independence of the input order, and the feature words it works on.
- **Lock files** (`Text`, `MountTable`, `MountSpaces`, `MountRanks`, `MountExact`, `LockTable`, `Holders`,
  `FlockProtocol`): who holds a lock, read from the text of the kernel's mount and lock tables, and the
  timed acquisition protocol over every interleaving.
- **Latch** (`Latch`, `LatchObject`): a mutex-guarded flag with a condition variable, as a state machine
  over every interleaving and as an object whose methods follow it.
- **Cgroup tree** (`CgroupNames`, `Teardown`, `RemovalGate`, `TopDown`): names, recursive teardown, the
  outstanding-remove gate and top-down controller enabling, each against a small kernel model in which
  any call may fail.
- **Export** (`Shell`, `Base64`, `Runfile`, `ExportedArguments`): shell quoting against a shell tokeniser,
  the self-extracting run file against its own extraction pipeline, and the two together.
- **Release cache** (`ReleaseCache`): a write-once cache with racing callers.
- **Funifier** (`Funify`): the recursive replacement of identifiers in a JSON dump, path by path.
- **CPU sets** (`CpuLists`, `Affinity`): CPU list text, mask decoding and the growing-buffer retry loop.

Objects whose methods change them are classes; loops are loops with invariants, proved against
specification functions; protocols of several threads or processes are state machines whose properties
hold in every state of every run. System calls, clocks, the network and hash functions are oracles: a
`method` whose contract leaves the outcome open (`Others`, `ReadDir`, `FetchReleases`), a step chosen by
the environment, or a parameter. Costs are real numbers. `dafny verify dfyconfig.toml` checks everything.

Where the code and its documentation disagree, the code is followed and the difference is a lemma:

- The comment on the removal gate says that a stall that clears does not strand the manager. With one
  caller that holds exactly while the counter is at or below the cap (`RemovalGate.SequentialGate`), with
  several exactly while it exceeds the cap by at most the number of callers that have not seen it there
  (`RemovalGate.ConcurrentRecovery`).
- The comment on the release cache says that racing callers return equal data. Only equal server answers
  make that true: over a set of server answers every eligible caller agrees with the cache in every run
  exactly when the set has at most one answer (`ReleaseCache.AgreementExact`,
  `ReleaseCache.OnlyRacersDisagree`, `ReleaseCache.RacersMayDisagree`).
- The comment on CPU lists promises nothing for input without data. Commas and white space with at least
  one comma, and nothing else, give an empty list (`CpuLists.ParseCpuList`, `CpuLists.SeparatorsOnly`).
- The comment on signed identifiers says the sign survives. Whatever the hash, it does so exactly for
  32-bit keys at or below the 32-bit minimum (`Funify.SignSurvivesExactly`, `Funify.SignLost`).
- The comment on the hash input says that the separator keeps pairs apart. Two categories can share an
  input exactly when they are equal or one continues the other after a NUL
  (`Funify.CategoriesCollideExactly`, `Funify.NulCollides`).
- The lookup in a mount table is right for every path exactly when no mount point of the table has white
  space left in it after the kernel's escaping (`MountExact.LookupExact`); otherwise it is wrong for the
  mount point itself or for what is read of it (`MountExact.WrongPath`). Line by line the same condition is
  `MountSpaces.LineStandsForMountExactly`; `MountSpaces.WrongDevice` and `MountSpaces.VerticalTabMisleads`
  compute a wrong device.
- Nothing stops a scheduler argument from containing the marker line of the run file, and shell quoting
  does not hide it. The archive comes back exactly when no argument has that line between two newlines and
  the fixed text around the arguments is in order (`ExportedArguments.ArgumentsExact`).
- The selection is no constant-factor approximation by itself (`GreedyHalf.NoConstantFactor`), but it or
  one test that is affordable alone covers a quarter of what any affordable set covers
  (`GreedyHalf.QuarterGuarantee`).
- With free tests and tests of one cost, the step inequality of the greedy choice holds exactly when that
  cost exceeds 64 microseconds (`GreedyBound.StepBoundExact`, `GreedyBound.TinyCostsBreakTheBound`).

## Model

| member | source | states |
|---|---|---|
| `Budget.Scan` | src/budget.rs:233-260 | one scan returns an eligible candidate that is preferred to every other eligible one by (ratio, then smallest name, then first), or nothing exactly when none is eligible |
| `Budget.Select` | src/budget.rs:222-273 | the result is the ascending arrangement of a complete greedy run, empty without a budget |
| `Budget.SelectionStats` | src/budget.rs:286-309 | the numbers are the cost and coverage of the selection and the coverage of all candidates |
| `Budget.SelectWithStats` | src/budget.rs:222-309 | the statistics of a selection respect the budget, and every unselected test costs more than what is left or adds no bit; at least as many bits are covered as tests selected, and at most 64 |
| `Selection.SelectionSoundAndMaximal` | src/budget.rs:222-273 | every complete greedy run is within budget, free of repetitions, not extensible by an affordable useful test, and no longer than the coverage it reaches |
| `Selection.OrderOfPicksIrrelevant` | src/budget.rs:262-309 | cost and coverage do not depend on the order of the picks, so sorting the result loses nothing |
| `GreedyBound.PickIsCheapest` | src/budget.rs:233-260 | a pick pays no more per new bit than any candidate that is still affordable |
| `GreedyBound.StepBound` | src/budget.rs:233-269 | against any set of tests of total cost at most B none of whose useful members was skipped, B times the gain of a pick is at least its cost times the coverage of the set still missing |
| `GreedyBound.ProductBound` | src/budget.rs:222-273 | the uncovered part of any such set shrinks by the factor (1 - cost/B) with every pick of the run |
| `GreedyBound.EqualCostGuarantee` | src/budget.rs:222-273 | with equal positive costs and k affordable tests, at most the fraction (1 - 1/k)^k of the coverage of any affordable set is missed |
| `GreedyBound.AllCovered` | src/budget.rs:222-273 | a run with equal costs that stops with money for one more test covers everything coverable |
| `GreedyBound.ZeroCostRuleExact` | src/budget.rs:246-250 | the fixed rate of free tests beats every paid test of a given cost exactly when that cost exceeds 64 microseconds |
| `GreedyBound.TinyCostsBreakTheBound` | src/budget.rs:246-250 | at every cost of at most 64 microseconds, a free test of one bit and a paid one of 64 bits violate the step inequality |
| `GreedyBound.StepBoundExact` | src/budget.rs:233-269 | for tests that are free or cost c, the step inequality holds at every pick against every set exactly when c exceeds 64 microseconds |
| `GreedyHalf.PickPays` | src/budget.rs:233-269 | a pick pays its share against any set as long as the set's best-ratio useful test is affordable, even if others of the set were skipped |
| `GreedyHalf.SkippedGuarantee` | src/budget.rs:222-273 | for any costs and any affordable set, the selection covers the set, or a prefix of the picks and one test skipped there overrun the budget, meet the product bound and cover at least half of the set |
| `GreedyHalf.QuarterGuarantee` | src/budget.rs:222-273 | for any costs and any affordable set, the selection or a single affordable test of the set covers at least a quarter of it |
| `GreedyHalf.NoConstantFactor` | src/budget.rs:222-273 | between a test of one bit at cost 2 and one of n bits at cost 2n + 1, with budget 2n + 1 every selection covers one bit where n are affordable |
| `OrderIndependence.SamePick` | src/budget.rs:233-260 | from the same items chosen so far, two listings of the same distinctly named tests pick the same test next |
| `OrderIndependence.OrderIrrelevant` | src/budget.rs:222-273 | two listings of the same distinctly named tests are picked from in the same sequence of tests |
| `OrderIndependence.SelectTwice` | src/budget.rs:222-273 | selecting from any permutation of distinctly named candidates yields the same set of names |
| `Features.Djb2Hash` | src/budget.rs:55-61 | wrapping at 32 bits in every step equals reducing the exact recurrence once |
| `Features.HashClassIsByteSum` | src/budget.rs:55-61 | the two hash bits kept are one plus the byte sum modulo 4, so letter order never matters |
| `Features.ExtractFeatures` | src/budget.rs:150-192 | the word has exactly the one-hot bit of each bucket and hash class and the bit of each flag that is on |
| `Features.EqualWordsExactly` | src/budget.rs:83-192 | two tests get equal words exactly when they agree on every bucket, hash class and flag |
| `Features.FeatureCount` | src/budget.rs:150-192 | the number of set bits is six plus the number of flags |
| `Features.PositionsUsed` | src/budget.rs:42-52 | only the 30 declared positions are ever set |
| `Features.AtMostThirtyPicks` | src/budget.rs:222-273 | a selection among extracted words has at most 30 tests, whatever the budget |
| `Features.EstimateDuration` | src/budget.rs:203-212 | duration plus two seconds for host-only tests; in a virtual machine also three for performance mode and a boot time of ten seconds plus one for each full ten CPUs beyond sixteen |
| `Features.ProductionCosts` | src/budget.rs:203-212 | candidates priced by the estimate meet the condition of the greedy bounds |
| `MountTable.UnescapeField` | src/flock.rs:670-716 | the loop computes the left-to-right replacement of octal escapes |
| `MountTable.UnescapeEscape` | src/flock.rs:670-716 | unescaping the kernel's escaping of any text gives the text back |
| `MountTable.ScoreLine` | src/flock.rs:584-636 | a line scores the length of its mount point exactly when it has the fields, covers the path and names a device |
| `MountTable.BestLine` | src/flock.rs:582-636 | the loop finds the device of the first line with the greatest score, or nothing when no line scores |
| `MountTable.MountMajorMinor` | src/flock.rs:578-644 | the same over the lines of the text |
| `MountTable.DeviceOfPath` | src/flock.rs:578-644 | on every printed mount table the result is the device of the deepest mount covering the path, the first one when stacked, and nothing exactly when none covers it |
| `MountTable.DepthDecidesLength` | src/flock.rs:620-636 | mounts that cover one path are ordered by byte length exactly as by depth |
| `MountSpaces.PointRead` | src/flock.rs:600-618 | a line is read as the mount point up to the first white space left after escaping, with its device numbers; that is all of it exactly when there is none |
| `MountSpaces.LineStandsForMountExactly` | src/flock.rs:582-636 | a line scores for exactly the paths its mount covers if and only if no white space is left in the mount point after escaping |
| `MountSpaces.ChildScore` | src/flock.rs:620-636 | a mount whose own name starts with such white space scores one more than its parent for every path the parent covers |
| `MountSpaces.WrongDevice` | src/flock.rs:578-644 | with such a child mounted, looking up any path the parent covers and the child does not returns the child's device, although the parent is the deepest covering mount |
| `MountSpaces.VerticalTabMisleads` | src/flock.rs:578-644 | with /a on 8:1 and a mount below it named by a vertical tab and b on 8:2, looking up /a/x returns 8:2, although the deepest covering mount is the one on 8:1 |
| `MountExact.Misread` | src/flock.rs:600-636 | a mount point with such white space is read as the root, as a path that is not above it, or as a path above it with more bytes than that path's own mount point |
| `MountExact.WrongPath` | src/flock.rs:578-644 | in any table with such a mount point the lookup is wrong for the mount point itself or for what is read of it |
| `MountExact.LookupExact` | src/flock.rs:578-644 | the lookup finds the deepest covering mount, the first when stacked, or none when none covers, for every path if and only if no mount point of the table has white space left after escaping |
| `LockTable.NeedleInjective` | src/flock.rs:527 | different files have different needles |
| `LockTable.FileTextExact` | src/flock.rs:430-434 | the printed file field of an entry, `<none>:0` included, equals a needle exactly when it is that file |
| `LockTable.FlockPids` | src/flock.rs:405-437 | the loop collects the matching pids once each, in order of first appearance |
| `LockTable.ReadHolder` | src/flock.rs:407-434 | the field-by-field test of a line equals the line filter |
| `LockTable.MatchesOfTable` | src/flock.rs:405-437 | on a printed lock table the filter sees exactly the pids the table shows for the file |
| `LockTable.HoldersOf` | src/flock.rs:405-437 | on every printed lock table the pids are exactly the granted flock holders of the file, without repetition, in order |
| `Holders.ReadHolders` | src/flock.rs:469-528 | from mount table, lock table, path and inode: the flock holders of that inode on the device of the deepest covering mount; each of the three errors has its one cause |
| `FlockProtocol.RunKeepsInv` | src/flock.rs:879-924 | in every state of every run locks are exclusive and owned, and each nap cost a full poll interval before the deadline |
| `FlockProtocol.ProtocolSafe` | src/flock.rs:879-924 | an exclusive holder is alone, a descriptor is returned only while it holds the lock, everyone else holds nothing, a timeout comes at or past the deadline, and tries are at most ceil(timeout / 100ms) + 1 |
| `FlockProtocol.TimeoutFollowsRefusal` | src/flock.rs:895-919 | a process that timed out did so in the same call as, and with no other try after, a try refused because of a conflicting holder |
| `FlockProtocol.Host.TryFlock` | src/flock.rs:295-315 | one attempt: a held descriptor, a conflict, or an error that leaves nothing held |
| `FlockProtocol.Host.AcquireWithTimeout` | src/flock.rs:879-924 | the polling loop, also after an earlier timeout or error, follows the protocol and terminates: success holds the lock (alone if exclusive), failure holds nothing, the number of tries is bounded |
| `Latch.RunKeepsInv` | src/sync.rs:33-80 | in every reachable state the mutex is exclusive, a thread is parked with the flag set only between store and notification, and every return is honest |
| `Latch.FlagStays` | src/sync.rs:33-37 | the flag never reverts |
| `Latch.ReturnTellsTheFlag` | src/sync.rs:40-80 | an operation returns holding the mutex with the flag it saw; `wait` only when set, a false `wait_timeout` only when unset and past its deadline |
| `Latch.NobodySleepsThroughSet` | src/sync.rs:33-80 | from the first notification on, no thread is parked in any later state of any run |
| `Latch.SettledNeverStuck` | src/sync.rs:33-80 | once set and notified, some pending operation can always step: no deadlock |
| `Latch.FinishesSoon` | src/sync.rs:33-80 | after a notification and without new calls, at most four steps per thread are taken in all |
| `LatchObject.SharedLatch.Set` | src/sync.rs:33-37 | among any other threads, afterwards the flag is set and nobody is parked |
| `LatchObject.SharedLatch.Wait` | src/sync.rs:40-45 | returns only when the flag is set; still waiting only if it was unset at the call |
| `LatchObject.SharedLatch.IsSet` | src/sync.rs:55-57 | true only if set by now, and true if it was set before the call |
| `LatchObject.SharedLatch.WaitTimeout` | src/sync.rs:64-80 | true only if set by now; false only when unset at the call and the timeout has passed; terminates despite spurious wakeups |
| `LatchObject.OthersRely` | src/sync.rs:33-80 | what a thread may rely on across any step of the others: nobody takes its mutex or changes the flag under it |
| `CgroupNames.ValidateCgroupName` | src/cgroup.rs:192-238 | accepted exactly when there is no NUL and every component is non-empty and not dot-leading; which refusal is reported |
| `CgroupNames.StaysBelow` | src/cgroup.rs:192-238 | an accepted name resolves strictly below the managed parent, one level a component |
| `Teardown.Cgroupfs.CleanupAll` | src/cgroup.rs:1223-1235 | whatever fails: the parent and everything outside survive, every live task is in one existing cgroup (its own, or the root), rmdirs go children first, and a directory is left only if something failed or forked in its subtree or a directory on the way was unread |
| `Teardown.Cgroupfs.CleanupRecursive` | src/cgroup.rs:1479-1532 | the same for one subtree, with its own rmdir attempted |
| `Teardown.Cgroupfs.ForEachChildDir` | src/cgroup.rs:1453-1477 | children are visited in any order; each is tried or its entry was unreadable, and what is left below is to blame |
| `Teardown.Cgroupfs.RemoveVisited` | src/cgroup.rs:1509-1531 | unfreeze, drain and rmdir after the children: if the directory is left, it has a failure or a blamed child |
| `Teardown.Cgroupfs.DrainPidsToRoot` | src/cgroup.rs:1396-1434 | afterwards no task is left in the cgroup unless a read, a write or a fork is recorded there; only its tasks moved, to the root |
| `Teardown.PidLine` | src/cgroup.rs:1410-1427 | a line of `cgroup.procs` is read back as the pid it prints |
| `Teardown.VisitedChild` | src/cgroup.rs:1453-1477 | cleaning one child leaves the subtrees of its siblings intact |
| `RemovalGate.CounterIsMaxSuffix` | src/cgroup.rs:627-643 | the counter is the maximum over all suffixes of the attempted removals of failures minus successes |
| `RemovalGate.RunKeepsInv` | src/cgroup.rs:613-645 | with relaxed, possibly stale loads, the counter exceeds the cap by at most the number of callers that have seen it since |
| `RemovalGate.GateBound` | src/cgroup.rs:613-645 | with N concurrent callers the counter never exceeds 10 + N |
| `RemovalGate.GateBoundReached` | src/cgroup.rs:613-645 | for every N some run reaches 10 + N |
| `RemovalGate.SequentialGate` | src/cgroup.rs:348 | with one caller the counter stays at most 11, 11 is never left, and zero is reachable exactly from at most 10 |
| `RemovalGate.ConcurrentRecovery` | src/cgroup.rs:613-645 | with any number of callers and stale loads, zero is reachable exactly when the counter exceeds the cap by at most the number of callers that have not seen it there |
| `RemovalGate.Manager.RemoveCgroup` | src/cgroup.rs:613-645 | only attempted removals count, none is attempted above the cap, and the counter stays the function of its history |
| `TopDown.Hierarchy.SetupUnderRoot` | src/cgroup.rs:436-488 | every write is legal and goes level by level from the root; an unavailable controller stops setup before any write; on success every level enables every requested controller |
| `TopDown.Hierarchy.EnableLevels` | src/cgroup.rs:466-486 | the writes of the walk are legal one after another, up to the first that fails |
| `TopDown.Hierarchy.EnableSubtreeCpuset` | src/cgroup.rs:708-730 | one write for each ancestor of a nested leaf from the managed parent down, going on after failures |
| `TopDown.Hierarchy.CreateCgroup` | src/cgroup.rs:524-532 | each `+cpuset` write is legal exactly when the level above offered cpuset before or its write succeeded; if all succeed every ancestor enables cpuset |
| `TopDown.LegalAt` | src/cgroup.rs:708-730 | that characterisation for one write of the walk |
| `TopDown.LegalUntilFailure` | src/cgroup.rs:708-730 | with cpuset offered at the parent every write up to the first failed one is legal |
| `TopDown.Hierarchy.SetupAndCreate` | src/cgroup.rs:436-532 | after a successful setup with cpuset, creating a nested cgroup writes legally until a write fails |
| `Shell.ShellQuote` | src/export.rs:751-772 | the loop computes the quoted form |
| `Shell.JoinArguments` | src/export.rs:349-354 | the loops compute the quoted arguments joined by spaces |
| `Shell.RunArgument` | src/export.rs:751-772 | reading one quoted argument yields one word with exactly its text, or is refused when it has a NUL |
| `Shell.RoundTrip` | src/export.rs:349-354 | tokenising the joined arguments gives exactly the list, empty arguments included, and fails exactly when one has a NUL |
| `Shell.SchedulerLine` | src/export.rs:349-354 | the same in front of the ampersand and any following text of the preamble |
| `Base64.RoundTrip` | src/export.rs:790 | decoding the encoding of any bytes gives the bytes back (section 4 of RFC 4648) |
| `Runfile.WriteRunfile` | src/export.rs:777-797 | the loop writes preamble, marker line and wrapped encoding |
| `Runfile.WrappedAt` | src/export.rs:791-796 | newlines stand exactly after each 76 characters and at the end |
| `Runfile.AfterPreamble` | src/export.rs:665-666 | what the extraction sees behind any preamble: the text after a marker line of its own, after the real marker, or no marker |
| `Runfile.ExtractionExact` | src/export.rs:665-666 | extraction returns the archive exactly when no complete preamble line is the marker and the preamble ends its last line (or the archive is empty) |
| `ExportedArguments.JoinedContains` | src/export.rs:349-354 | a text that quoting leaves alone stands in the joined arguments exactly when it stands in one of them |
| `ExportedArguments.PreambleMarker` | src/export.rs:349-376 | a preamble line is the marker exactly when a line of the fixed text is, or an argument contains the marker between two newlines |
| `ExportedArguments.ArgumentsExact` | src/export.rs:665-666 | with the arguments in the preamble, extraction returns the archive exactly when the fixed text has no marker line and ends its last line (or the archive is empty) and no argument contains the marker between two newlines |
| `ReleaseCache.RunKeepsInv` | src/fetch.rs:228-274 | in every state of every run the slot is genuine and every call is where its routing allows |
| `ReleaseCache.SlotWrittenOnce` | src/fetch.rs:228-274 | the slot holds a successful production fetch by the shared client and never changes once set |
| `ReleaseCache.OnlyEligibleCallsWrite` | src/fetch.rs:228-274 | a write comes only from a successful fetch by the shared client for the production URL: never a failure or a bypass |
| `ReleaseCache.LateCallsSkipTheNetwork` | src/fetch.rs:265-267 | an eligible call begun after the slot was set never fetches and returns the cached value |
| `ReleaseCache.OnlyRacersDisagree` | src/fetch.rs:268-273 | a caller that returns something else began before the slot was set, fetched itself, and the server gave two answers |
| `ReleaseCache.RacersMayDisagree` | src/fetch.rs:268-273 | for any two answers there is a run in which two eligible callers return them |
| `ReleaseCache.AgreementExact` | src/fetch.rs:228-274 | over a set of server answers, eligible callers return what the cache holds in every reachable state if and only if the set has at most one element |
| `ReleaseCache.Process.CachedReleasesWithUrl` | src/fetch.rs:228-274 | the function among other callers: cached value without a fetch if set at the start, panic exactly on a wrong URL in debug, slot set after success |
| `Funify.CategoriesCollideExactly` | src/fun.rs:150-158 | two categories can share a hash input exactly when they are equal or one goes on after the other with a NUL |
| `Funify.BufferInjective` | src/fun.rs:150-158 | hash inputs of distinct (category, payload) pairs differ when categories have no NUL |
| `Funify.NulCollides` | src/fun.rs:150-158 | a concrete pair of categories, one with a NUL, that share an input |
| `Funify.NumbersKeptApart` | src/fun.rs:201-207 | distinct (category, number) pairs are hashed from distinct inputs |
| `Funify.PetnameExact` | src/fun.rs:175-182 | with at least 256 distinct dash-free words a list, two names are equal exactly when the low 16 hash bits are |
| `Funify.NumericIdI64` | src/fun.rs:214-222 | the result fits i64, never crosses zero and zero stays zero |
| `Funify.NumericIdI32` | src/fun.rs:233-248 | the result fits i32, and the minimum comes only from the minimum |
| `Funify.NumericIdU32` | src/fun.rs:276-287 | the result fits u32 |
| `Funify.NarrowFits` | src/fun.rs:684-736 | under 32-bit keys results fit u32 or i32, except the 64-bit sentinel, which passes through; out-of-range input clamps to the sentinels |
| `Funify.SignSurvivesExactly` | src/fun.rs:214-248 | a negative identifier stays negative under every hash exactly for 32-bit keys at or below the 32-bit minimum |
| `Funify.SignLost` | src/fun.rs:214-248 | everywhere else a hash of zero turns it into zero |
| `Funify.FunifyJson` | src/fun.rs:621-746 | the walker, inserting into an output map, computes the structural definition |
| `Funify.PathWise` | src/fun.rs:612-746 | the output has the same paths, keys, lengths and kinds, and each leaf is one function of the nearest object key and the input leaf |
| `Funify.EqualLeavesStayEqual` | src/fun.rs:612-746 | equal leaves under equal keys become equal, in one dump or across dumps |
| `Funify.PassesThrough` | src/fun.rs:612-746 | what sits under a metric key or at the root without object keys is unchanged |
| `CpuLists.ParseCpuList` | src/cpu_util.rs:67-110 | the strictly ascending union of the named ranges; nothing exactly for blank input or a malformed, reversed or over-wide token; the empty list exactly for commas and white space with at least one comma |
| `CpuLists.Expand` | src/cpu_util.rs:81-105 | one token yields exactly the numbers it names, or nothing when malformed |
| `CpuLists.ParsePrinted` | src/cpu_util.rs:67-110 | parsing the kernel's printed form of any ranges gives exactly their CPUs |
| `CpuLists.SeparatorsOnly` | src/cpu_util.rs:73-84 | the text of two commas gives the empty list, not a rejection |
| `Affinity.ExtractCpus` | src/cpu_util.rs:270-287 | exactly the set bits of the written words, ascending, converted to u32, which loses nothing up to 2^26 words; nothing exactly when there are none |
| `Affinity.ReadAffinity` | src/cpu_util.rs:160-209 | at most six calls; a result exactly when the CPU count is at most 262144, access is allowed and the mask is not empty, and then it is the mask's set |
| `Affinity.ZeroedBuffer` | src/cpu_util.rs:252-256 | the buffer holds at least the requested bits, exactly those for whole words |

## Left out

- f64 rounding, infinities and NaN in costs and budgets: real numbers are used; production costs are whole seconds.
- LatchObject.SharedLatch.Wait: the loop is observed for a given number of wakeups, because nothing forces anyone to set the latch.
- LatchObject.SharedLatch.WaitTimeout: every blocking takes at least one tick of the clock, which is why the loop ends.
- Latch.FinishesSoon: counts steps and does not say that the scheduler takes them.
- Teardown.Cgroupfs.CleanupAll: directories created and tasks migrated into the subtree by others during the teardown, and reuse of a pid between listing and write, are not modelled; forks are recorded as causes.
- Teardown.Cgroupfs.ForEachChildDir: entries that are not directories are not listed, since the loop skips them; the listing is taken once, not streamed.
- Affinity.ReadAffinity: affinity changes between two calls of the loop are not modelled.
- TopDown.Hierarchy.SetupUnderRoot: below the root either every directory has control files or none has; other mounts inside the tree are not modelled.
- RemovalGate.Manager.RemoveCgroup: the outcome of unfreeze, drain and rmdir is a parameter; the counter's own width is not modelled, since the bound keeps it far below.
- MountTable.UnescapeField: escapes above `\177` give one character instead of a byte of a lossy UTF-8 decoding; the kernel does not print them.
- MountSpaces.WrongDevice: a table of two mounts, the child directly below its parent; `MountExact.WrongPath` covers every table but does not say which device is returned.
- Holders.ReadHolders: the mount table is given, as in the batch form; the command line of each holder is left out.
- Shell.RoundTrip: characters with expansion, pattern or comment meaning are refused outside quotes instead of being expanded; quoting never leaves one there.
- Budget.Select: the `tracing` output and the public test-case types are not part of this model.
- Funify.FunifyJson: the metric and 32-bit key vocabularies and the word lists are parameters; SipHash and SHA-256 are an uninterpreted function.
- Runfile.WriteRunfile: file modes, sync and I/O errors are not modelled.
- Moving tasks with bounded retries (src/cgroup.rs:1109-1144) is not modelled.
- The single-knob cgroup setters: one write each.
- Version parsing and selection, download streaming and cache keys in src/fetch.rs; HTTP, JSON and archive decoding.
- The rest of the generated preamble, attach polling and topology probing in src/export.rs.
- Host context and heap snapshots, ELF stripping, reports and build scripts.
