# go-healthcheck, modelled in Dafny

A Dafny model of the deterministic core of `go-healthcheck`, a Go library
that answers "is this service healthy?" by running a set of named probes
(checkers) concurrently, bounding each with a timeout, and reducing their
results to one HTTP status code (200 or 503) plus a map from probe name to
failure message. Fatal checkers (`WithChecker`) make the service unavailable
when they fail; observers (`WithObserver`) are only reported.

The model is sequential:

- `Options` (option.dfy): the builder options as data, and the timeout
  wrapper `TimeoutChecker.Check` as a choice over an abstract race outcome
  (`Race(inner, deadlineFirst)`): the inner checker's result verbatim when it
  finished first, the fixed failure `"max check time exceeded"` otherwise.
- `Builder` (builder.dfy): the `health` struct as a value (`Config`), what
  each option does to it (`ApplyOption`), and `Build`, the fold of the
  options over the initial state (empty maps, 30 s). Lemmas prove that
  options are last-wins per name and bucket, and for the timeout.
- `Verdict` (verdict.dfy): the reduction inside `CheckHealth` as a fold
  (`Reduce`) over a completion order. Each completion carries the name, the
  bucket (fatal or observer), the wrapped checker and its race outcome.
  Lemmas characterise the result: which codes occur and when, which keys,
  which messages. They also cover order (in)dependence.
- `Health` (health.dfy): the class `Health` with the struct's fields. The
  constructor `NewService` loops over the options. `Apply` performs one
  option in place. `CheckHealth` is a loop over a caller-chosen completion
  order, proved equal to `Reduce` and to the properties above.
- `DiskSpace` (checkers/diskspace.dfy): the disk-space probe. Its two
  system calls are inputs. Its block arithmetic is `uint64` and wraps modulo
  2^64, written out. The threshold test is strict.
- `Checker` (checker.dfy): the outcome of a probe, success or a failure
  message.

A name may be registered both as a fatal checker and as an observer: the
source keeps them in two separate maps and does not forbid it. Both then
write into the same key of the result map, and the message kept is that of
whichever finished last. The model keeps this behaviour. Full order
independence is proved only for disjoint name sets, and a lemma exhibits the
order dependence otherwise.

## Model

| member | source | states |
|---|---|---|
| `Options.TimeoutChecker.Check` | option.go:37-48 | If the inner checker finished first, its result (success or its error) is returned verbatim; if the deadline fired first, the result is the failure "max check time exceeded" |
| `Options.CheckPassesOnlyInTime` | option.go:42-47 | The wrapper reports success exactly when the inner checker succeeded and beat the deadline; a late success is a failure |
| `Options.DeadlineIgnoresInner` | option.go:45-46 | Once the deadline has won, the observed result is the same whatever the inner checker returns, and its message is exactly "max check time exceeded" |
| `Builder.NoOptionsDefaults` | health.go:30-34 | With no options the service has no fatal checkers, no observers and a 30-second timeout |
| `Builder.CheckerLastWins` | option.go:13-17 | A name is a fatal checker iff some `WithChecker` registered it, and it maps to the timeout-wrapped checker of the last such registration |
| `Builder.ObserverLastWins` | option.go:20-24 | A name is an observer iff some `WithObserver` registered it, and it maps to the timeout-wrapped checker of the last such registration |
| `Builder.TimeoutLastWins` | option.go:27-31 | The timeout is that of the last `WithTimeout`, and 30 seconds when there is none |
| `Health.Health.NewService` | health.go:29-39 | Starting from empty maps and 30 s, each option is applied once, in argument order, to the same state: the result is the fold `Build(opts)` |
| `Health.Health.Apply` | option.go:13-31 | `WithChecker` overwrites one entry of `checkers` with the wrapped checker and leaves `observers` and `timeout` unchanged; `WithObserver` likewise for `observers`; `WithTimeout` sets only the timeout |
| `Health.Health.CheckHealth` | health.go:63-104 | For any order in which the registered checks finish: the result is the fold of the completions; the code is 200 or 503, and 503 iff a fatal checker failed; the keys are exactly the failed names, fatal and observer alike, all registered; no registrations give (200, empty map); with disjoint name sets every failed checker's own message is reported, and a checker that lost the race to the deadline is reported as "max check time exceeded" |
| `Health.Health.DisjointScheduleHasUniqueNames` | health.go:79-99 | When no name is both a checker and an observer, each name finishes at most once in a run |
| `Health.Health.CheckHealthOrderIndependent` | health.go:79-101 | Two completion orders of the same run give the same code and keys, and the same messages when the two name sets are disjoint |
| `Verdict.ReduceCode` | health.go:66-95 | The code starts at 200 and ends at 200 or 503, at 503 exactly when some fatal checker failed; observer failures never change it |
| `Verdict.ReduceKeys` | health.go:81-95 | A name is a key of the error map iff a checker or observer registered under it failed |
| `Verdict.ReduceLastWrite` | health.go:83-94 | A failed name maps to the message of the last failure recorded under it, so a name shared by both buckets keeps the later write |
| `Verdict.ReduceUniqueName` | health.go:81-95 | With unique names each failed checker's name maps to its own error message |
| `Verdict.ReduceReportsEachFailure` | health.go:79-99 | With unique names every failed checker is reported under its name with its own message, and every checker that lost the race to the deadline with "max check time exceeded" |
| `Verdict.CodeNeverRecovers` | health.go:84 | Once 503 has been set by a prefix of the completions, the final code is 503: the code never moves back |
| `Verdict.CodeAndKeysOrderIndependent` | health.go:79-101 | Any two completion orders of the same checks give the same code and the same set of keys |
| `Verdict.OrderIndependentWhenNamesUnique` | health.go:79-101 | When no name is shared, any two completion orders give the same code and the same map, messages included |
| `Verdict.SharedNameDependsOnOrder` | health.go:83-94 | A name that is both a fatal checker and an observer, both failing with different messages, reports different messages in the two completion orders |
| `DiskSpace.SyscallErrorsExitEarly` | checkers/diskspace.go:20-29 | A failed stat fails with "filesystem not found: ..." whatever statfs would return; a failed statfs fails with "error looking for <dir> filesystem stats: ..." |
| `DiskSpace.ThresholdIsStrict` | checkers/diskspace.go:35-39 | With both calls successful, the probe fails iff the used percentage is strictly above the threshold; exactly at the threshold it passes |
| `DiskSpace.BreachMessageDeterminesFields` | checkers/diskspace.go:36 | The breach message embeds the used percentage, the threshold and the directory so that each can be read back: equal messages mean equal fields |
| `DiskSpace.DecimalRoundTrip` | checkers/diskspace.go:36 | The `%d` rendering of a number reads back as that number |
| `DiskSpace.PercentageOfUsedBlocks` | checkers/diskspace.go:31-34 | When 100 times the size in bytes fits in 64 bits, the percentage is floor(100 * used blocks / blocks) whatever the block size, and at most 100 |
| `DiskSpace.PercentageWrapsOnHugeFilesystems` | checkers/diskspace.go:31-34 | Beyond that size `100 * used` wraps modulo 2^64: a full 2^58-byte filesystem reports 36% |
| `DiskSpace.ZeroBlockFilesystemDividesByZero` | checkers/diskspace.go:34 | Statistics with zero blocks pass both system calls and reach the division with a zero total |
| `DiskSpace.CheckGuarded` | checkers/diskspace.go:20-40 | The probe with a zero total reported as a failure: defined on every input and equal to the source's `Check` wherever that is defined |

`DiskSpace.Check` itself is the as-written probe; its properties are the
lemmas above. The `DiskSpace(dir, threshold)` constructor is the datatype
constructor `DiskSpace.DiskSpace`, which stores both values unchanged. Its
injectable `statfs` dependency is the `StatfsResult` parameter of `Check`.

## Findings

| source | as written | input that shows it | evidently intended | confidence | as-written member | corrected member |
|---|---|---|---|---|---|---|
| checkers/diskspace.go:34 | `100 * used / total` divides by `total` without a guard; a zero total is an integer division by zero, which panics and aborts the process | statfs reporting `Blocks = 0` (as pseudo filesystems do) or `Bsize = 0` | a probe reports problems as returned errors and never takes the process down, so a zero total should be a failure | medium (not executed) | `DiskSpace.ZeroBlockFilesystemDividesByZero` | `DiskSpace.CheckGuarded` |

## Left out

- Goroutines, `sync.WaitGroup`, `sync.Mutex` and the `select` race are concurrency. They are replaced by a caller-chosen completion order for `CheckHealth` and by the `deadlineFirst` flag of `Race`.
- The abandoned inner goroutine of the timeout wrapper is not modelled. When the deadline wins, it stays blocked on its unbuffered channel; the model has no notion of running tasks.
- `context.WithTimeout`, deadlines and the `timeout > 0` test in `CheckHealth` are real time. The timeout is an opaque `Duration`; whether a deadline fired is the race input. A non-positive timeout means only the caller's context can expire.
- `ServeHTTP`, `Handler`, `HandlerFunc`, the `Service` interface and JSON encoding are HTTP and serialization I/O.
- `os.Stat` and `unix.Statfs` are system calls; their results (success or an error message, and the block counts) are inputs.
- `fmt.Errorf` with `%w`: a wrapped error's message is modelled as the prefix text followed by the cause's message; the error chain itself is not.
- The `Checker` interface and the `CheckerFunc` adapter have no logic. A probe's result is an `Outcome`, and the wrapped probe is an opaque value of a type parameter.
- The capacity hint of `make(map[string]string, nCheckers)` has no observable effect and is not modelled.
- DiskSpace.Check: requires a non-zero total when both system calls succeed, because the source divides by zero there (see Findings).
