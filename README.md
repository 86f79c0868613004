# standard: systemd notification, watchdog, fan-out writer, environment and build version

This project models the core of the Go module `dansage/standard`:

- **Notification** (`systemd/notify_unix.go`, `systemd/notify.go`). `Notify(state)` reads `NOTIFY_SOCKET`. When the variable is unset or empty, it does nothing and succeeds. Otherwise it dials the socket as a datagram endpoint. When the dial succeeds, it writes `state` as one datagram and closes the connection (a deferred close, so this happens on the failed-write path too). It returns an error that wraps the dial or write failure. `Notifyf` formats first. `NotifyReady`, `NotifyReloading`, `NotifyStatus`, `NotifyStopping` and `NotifyWatchdog` send the sd_notify(3) messages `READY=1`, `RELOADING=1\nMONOTONIC_USEC=<µs>`, `STATUS=<text>`, `STOPPING=1` and `WATCHDOG=1`.
- **Watchdog** (`systemd/watchdog_unix.go`). `WatchdogInterval` parses `WATCHDOG_USEC` as a base-10 uint64 count of microseconds. It returns -1 when the variable is unset, and -1 with an error when the value is malformed. `Watchdog(healthy)` returns that error, or returns nil for an interval that is not positive. Otherwise it loops: sleep half the interval, ask the predicate, and send `WATCHDOG=1` after a healthy answer. It stops with an error on an unhealthy answer or when a pulse fails.
- **MultiWriter** (`util/writer.go`). This is an ordered list of writer identities. `Register` appends a writer only when it is absent, and `Unregister` splices out the first match. `Write` sends the same bytes to every writer in order and stops at the first error.
- **Environment** (`env/env.go`). `DetectEnvironment` lower-cases `ENV`. It maps `dev`/`development`/`local` to development, `test`/`testing` to testing, and everything else (including unset) to production. `init` stores the result in `Current`.
- **Build version** (`build/build.go`). `detectVersion` starts both versions as `unknown`. Without build information it stops there, even when a static version was injected. With build information, `GoVersion` is the Go version recorded in it. `DetectedVersion` is then the static version when one was injected. Otherwise it is the first ten characters of the last `vcs.revision` setting (or `dev`), with `-dirty` appended when the last `vcs.modified` setting is `true`.

How the model is built:

- **Environment.** It is a `map<string, string>` parameter.
- **Host class.** `SystemdHost.Host` stands for the operating system. It holds an event log (dials, writes, closes, sleeps, predicate calls), the datagrams delivered so far, and scripted outcomes for dials and writes. An unscripted outcome succeeds. The health predicate's answers are also scripted.
- **Effect functions.** Each state-changing operation is a method on the host. It is proved equal to a function on a `World` value: `NotifyEffect` or `WatchdogEffect`. The stated properties are proved about those functions.
- **Watchdog horizon.** The source's loop runs forever while the service stays healthy. The model follows it until the scripted answers run out and reports that as `Running`.
- **Duration overflow.** `time.Duration(u) * time.Microsecond` is modelled with Go's int64 wrap-around (`Watchdog.Int64`). The interval is the nanosecond count modulo 2^64, read as an int64 (`Watchdog.Duration`). A count in [2^63, 2^64) therefore yields a negative interval, and the watchdog returns nil at once (`Watchdog.LargeIntervalsWrap`). A larger count can wrap back to a small positive interval: `WATCHDOG_USEC=18446744073709552` gives 384 ns, and the watchdog polls every 192 ns (`Watchdog.HugeIntervalsWrapPositive`, `Watchdog.HugeIntervalExample`).
- **Signed clock readings.** `NotifyReloading` formats the clock reading with `%d`, so a negative reading is rendered with a leading `-` (`NotifyMessages.ReloadingMessage`).

## Model

| member | source | states |
|---|---|---|
| Decimal.FormatUint | systemd/notify.go:22 | `%d` of a natural number is a canonical digit string (no leading zero) whose value is that number |
| Decimal.FormatInt | systemd/notify.go:22 | `%d` of a non-negative number is its canonical decimal form; a negative one is `-` followed by the magnitude |
| Decimal.ParseUint | systemd/watchdog_unix.go:59 | a string is accepted exactly when it is a non-empty run of digits whose value fits a uint64 (leading zeros allowed), and that value is returned; an empty string, a leading sign or other non-digit, and a value above 2^64 - 1 are rejected |
| Decimal.LeadingZerosAccepted | systemd/watchdog_unix.go:59 | every uint64 written with any number of leading zeros parses to itself (`007` is 7, `00` is 0) |
| Decimal.FormatThenParse | systemd/watchdog_unix.go:59 | `ParseUint(…, 10, 64)` gives back every uint64 that `%d` renders, and rejects every negative rendering (no sign accepted) |
| Decimal.ParseThenFormat | systemd/watchdog_unix.go:59 | a canonical digit string that parses renders back to itself |
| Format.Matches | systemd/notify_unix.go:38-39 | the format's verbs line up with the arguments, each argument taking a two-character verb |
| Format.Sprintf | systemd/notify_unix.go:39 | a format without `%` is printed verbatim |
| Format.LiteralPrefix | systemd/notify_unix.go:39 | `Sprintf` copies a verb-free prefix of the format unchanged, with the arguments left for the rest |
| Format.StringVerb | systemd/notify.go:30 | `Sprintf(p + "%s", s)` is `p` followed by `s` verbatim |
| Format.IntVerb | systemd/notify.go:22 | `Sprintf(p + "%d", i)` is `p` followed by the decimal form of `i` |
| SystemdHost.Host.Dial | systemd/notify_unix.go:24 | one dial: logged, consumes one scripted outcome, nothing else changes |
| SystemdHost.Host.Write | systemd/notify_unix.go:31 | one write: logged; the datagram is delivered to the connection's address only on success |
| SystemdHost.Host.Close | systemd/notify_unix.go:28 | one close is logged and nothing else changes |
| SystemdHost.Host.Sleep | systemd/watchdog_unix.go:34 | one sleep of the given duration is logged and nothing else changes |
| SystemdHost.Host.Ask | systemd/watchdog_unix.go:37 | one predicate call: returns the next scripted answer and logs it |
| Notify.SocketAddress | systemd/notify_unix.go:18-21 | notification is enabled exactly when `NOTIFY_SOCKET` holds a non-empty address, which is used as set |
| Notify.NotifyEffect | systemd/notify_unix.go:16-35 | unset/empty socket: success, no I/O at all; otherwise one dial to the address, then a write and a close only after a successful dial; success iff dial and write succeed; on success `state` is delivered once, verbatim; each error wraps its cause |
| Notify.ConnectionClosedOnce | systemd/notify_unix.go:24-33 | a connection that opened is closed exactly once, on the failed-write path too; exactly one datagram, `state`, is written per opened connection, and none otherwise |
| Notify.ReliableTransport | systemd/notify_unix.go:24-34 | on a transport that never fails an enabled call delivers `state` to the address and returns nil; a disabled one changes nothing |
| Notify.Notify | systemd/notify_unix.go:16-35 | the method's return value and effect on the host are exactly `NotifyEffect` |
| Notify.Notifyf | systemd/notify_unix.go:38-40 | `Notifyf(format, args)` is `Notify(Sprintf(format, args))` |
| NotifyMessages.StatusMessage | systemd/notify.go:29-31 | the status message is `STATUS=` followed by the text verbatim |
| NotifyMessages.ReloadingMessage | systemd/notify.go:21-23 | the reload message is the fixed prefix plus a number that parses back to the clock reading when non-negative; a negative reading is rendered with a sign |
| NotifyMessages.NotifyReady | systemd/notify.go:12-14 | sends exactly `READY=1` through `Notify` and returns its result |
| NotifyMessages.NotifyReloading | systemd/notify.go:21-23 | sends exactly the reload message for the clock reading and returns `Notify`'s result |
| NotifyMessages.NotifyStatus | systemd/notify.go:29-31 | sends exactly the status message and returns `Notify`'s result |
| NotifyMessages.NotifyStopping | systemd/notify.go:37-39 | sends exactly `STOPPING=1` through `Notify` and returns its result |
| NotifyMessages.NotifyWatchdog | systemd/notify.go:44-46 | sends exactly `WATCHDOG=1` through `Notify` and returns its result |
| Watchdog.Int64 | systemd/watchdog_unix.go:63 | Go's int64 conversion: the value in [-2^63, 2^63) congruent modulo 2^64, the identity on that range |
| Watchdog.Duration | systemd/watchdog_unix.go:63 | the uint64-to-int64 conversion and the wrapping multiplication compose into one wrap: the nanosecond count modulo 2^64 as an int64, exact when it fits |
| Watchdog.WatchdogInterval | systemd/watchdog_unix.go:51-64 | unset gives (-1, nil); a set value that `ParseUint` rejects gives -1 and an error naming the value; an accepted value gives its nanosecond count read as an int64 (exact when it fits, wrapped otherwise) and no error; an error always comes with -1 |
| Watchdog.Step | systemd/watchdog_unix.go:32-45 | one iteration uses one answer; unhealthy ends the loop right after the sleep and the question; after a healthy answer the loop ends exactly when the pulse fails, with PulseFailed wrapping Notify's own error, and a failed pulse delivers nothing |
| Watchdog.StepIsIteration | systemd/watchdog_unix.go:32-45 | one step appends exactly one iteration to the log: a sleep of half the interval, one question, then at most one pulse session and only after a healthy answer |
| Watchdog.GoesOnAfterFullBeat | systemd/watchdog_unix.go:34-44 | the loop goes on only after a complete iteration whose pulse session opened, wrote and closed, delivering `WATCHDOG=1` when the socket is set |
| Watchdog.Pulses | systemd/watchdog_unix.go:32-46 | the loop never returns nil: it ends unhealthy, on a failed pulse, or is still running, and still running only if every answer was healthy |
| Watchdog.RunningMeansEveryPulseSucceeded | systemd/watchdog_unix.go:32-45 | still running only if every pulse succeeded: each answer got a full iteration with its pulse session and its `WATCHDOG=1` delivery |
| Watchdog.UnhealthyIsLast | systemd/watchdog_unix.go:37-39 | after an unhealthy answer nothing more happens: the last logged event is that answer |
| Watchdog.WatchdogEffect | systemd/watchdog_unix.go:20-46 | a configuration error is returned unchanged with no effect; a non-positive interval returns nil with no sleep, call or datagram; and this is the only way nil is returned |
| Watchdog.HealthyStep | systemd/watchdog_unix.go:33-44 | a healthy answer while the next dial and write succeed adds one sleep, one question and one pulse session, delivers one `WATCHDOG=1`, uses up one dial and one write when the socket is set, and the loop goes on from there |
| Watchdog.FailedPulseStep | systemd/watchdog_unix.go:42-44 | a healthy answer followed by a failed dial or write ends the loop at once with PulseFailed wrapping OpenFailed or WriteFailed and the transport's cause; the log ends with the failed session and nothing is delivered |
| Watchdog.HealthyBeats | systemd/watchdog_unix.go:32-45 | k healthy answers whose pulses succeed are k full iterations, after which the loop goes on with k beats logged and delivered |
| Watchdog.HealthyThenPulseFails | systemd/watchdog_unix.go:32-45 | k successful pulses then a failed one give k full iterations, the sleep, the question and the failed session, and PulseFailed with the failing dial's or write's cause; nothing is logged after it |
| Watchdog.UnhealthyStep | systemd/watchdog_unix.go:37-39 | an unhealthy answer returns the unhealthy error after one sleep and the question, delivering nothing |
| Watchdog.HealthyThenUnhealthy | systemd/watchdog_unix.go:32-45 | k healthy answers then an unhealthy one give exactly k iterations of sleep, question and pulse, then a sleep and the question, and the unhealthy error; exactly k pulses are delivered |
| Watchdog.RunShape | systemd/watchdog_unix.go:32-45 | every run, whatever the transport does, is a sequence of iterations in fixed order, the i-th driven by the i-th answer: a sleep of half the interval, one question, then at most one pulse and only after a healthy answer |
| Watchdog.Watchdog | systemd/watchdog_unix.go:20-46 | the method's return value and effect on the host are exactly `WatchdogEffect` |
| Watchdog.ThirtySeconds | systemd/watchdog_test.go:111-123 | `WATCHDOG_USEC=30000000` is 30 s without error |
| Watchdog.RejectedIntervals | systemd/watchdog_test.go:125-134 | `invalid`, `-1` and the empty string are errors with the -1 sentinel |
| Watchdog.LargeIntervalsWrap | systemd/watchdog_unix.go:63 | a uint64 whose nanosecond count lies in [2^63, 2^64) wraps to a negative interval, and the watchdog then returns nil at once with no effect |
| Watchdog.HugeIntervalsWrapPositive | systemd/watchdog_unix.go:63 | a uint64 whose nanosecond count lies in (2^64, 2^64 + 2^63) wraps back to a small positive interval, and the watchdog polls with it |
| Watchdog.HugeIntervalExample | systemd/watchdog_unix.go:59-63 | `WATCHDOG_USEC=18446744073709552` gives a 384 ns interval without error, and the watchdog polls with it |
| Watchdog.TwoSecondConfig | systemd/watchdog_test.go:34-47 | `WATCHDOG_USEC=2000000` is 2 s, and the socket variable is used as set |
| Watchdog.TwoSecondScenario | systemd/watchdog_test.go:50-87 | with a 2 s interval, a healthy answer is followed by one `WATCHDOG=1` to the socket after a 1 s sleep, and the next unhealthy answer ends the watchdog with an error and no further datagram |
| Writers.SinkWrite | util/writer.go:72 | one writer call: an accepting writer takes all of p; a failing one reports its (n, err) and keeps its buffer |
| Writers.FanOut | util/writer.go:64-78 | writers are called in list order, stopping early only on an error; on success every writer was called and len(p) is returned |
| Writers.FanOutFrame | util/writer.go:70-75 | writers that are not registered are never touched, writers the fan-out did not reach (those after a failing one) keep their buffers, and no writer changes how it answers |
| Writers.FanOutSucceedsIff | util/writer.go:70-77 | the write succeeds exactly when every registered writer accepts |
| Writers.FanOutStopsAtFirstFault | util/writer.go:72-74 | on an error the last writer called is the first failing one, all earlier ones accepted, and its (n, err) is returned |
| Writers.FanOutAsWritten | util/writer.go:64-77 | as written, a successful write returns n = 0; errors and buffers are as in the corrected fan-out |
| Writers.AsWrittenReportsZero | util/writer.go:64-77 | as written, two bytes written to one healthy writer succeed but report 0 bytes |
| Writers.ShortWriteIsError | util/writer.go:63-77 | with the corrected count, a count other than len(p) always comes with an error, and the corrected and as-written counts differ only on a successful non-empty write |
| Writers.CalledWritersGetP | util/writer.go:70-75 | with no writer registered twice, every writer the fan-out called holds its old buffer plus p if it accepts and its old buffer if it fails, so an error keeps the writes made before it |
| Writers.EveryWriterGetsP | util/writer.go:70-75 | when all writers accept and none is registered twice, each buffer grows by exactly p |
| Writers.Registered | util/writer.go:35-43 | the writer is present afterwards, earlier writers keep their places, nothing else is added, and the list is unchanged exactly when the writer was already there |
| Writers.Unregistered | util/writer.go:53-60 | unregistering shortens the list by one exactly when the writer was present, and adds no writer |
| Writers.RegisterIdempotent | util/writer.go:35-43 | registering twice is registering once; the writer is present afterwards, earlier writers keep their places, and a duplicate-free list stays duplicate-free |
| Writers.UnregisterSplices | util/writer.go:53-60 | the first occurrence is removed and the rest keep their order; an absent writer leaves the list unchanged |
| Writers.UnregisterRemovesOne | util/writer.go:53-60 | exactly one copy of the writer is removed and nothing else |
| Writers.UnregisterKeepsNoDuplicates | util/writer.go:53-60 | on a duplicate-free list the writer is gone afterwards and no duplicate appears |
| Writers.UnregisterUndoesRegister | util/writer.go:29-60 | unregistering a writer just registered gives the original list back |
| Writers.UnregisteredIsSilent | util/writer_test.go:78-99 | after unregistering a writer, writes leave its buffer untouched |
| Writers.MultiWriter.constructor | util/writer.go:22-26 | the new writer holds exactly the given list, in order, duplicates kept |
| Writers.MultiWriter.Register | util/writer.go:29-44 | the list becomes the registered list |
| Writers.MultiWriter.Unregister | util/writer.go:47-61 | the list becomes the unregistered list |
| Writers.MultiWriter.Write | util/writer.go:64-78 | the loop's result is the corrected fan-out |
| Environment.LowerChar | env/env.go:35 | ASCII upper-case letters move to lower case, all other characters are kept |
| Environment.ToLower | env/env.go:35 | lower-casing keeps the length and works character by character |
| Environment.ToLowerNormalizes | env/env.go:35 | lower-casing leaves no upper-case letter, is idempotent, and fixes lower-case text |
| Environment.Lookup | env/env.go:32 | the value of `ENV` as set, and the empty string when it is unset |
| Environment.DetectEnvironment | env/env.go:30-48 | development iff the lower-cased value is `dev`, `development` or `local`; testing iff it is `test` or `testing`; production iff neither |
| Environment.CaseInsensitive | env/env.go:32-35 | values equal up to case are classified alike; unset behaves as empty and is production |
| Environment.NameRoundTrip | env/env.go:18-27 | each type's own string value is detected as that type |
| Environment.KnownValues | env/env_test.go:50-176 | `DEV` and `Local` are development, `TeSt` is testing, `unknown` and `Production` are production |
| Environment.Package.constructor | env/env.go:50-53 | `Current` is the environment detected at initialisation |
| Build.LastValueIsLast | build/build.go:47-61 | the looked-up value is that of a setting with the key that no later setting overrides; none iff no setting has the key |
| Build.Modified | build/build.go:44-61 | the tree is dirty exactly when the last `vcs.modified` setting is exactly `true` |
| Build.Revision | build/build.go:43-56 | `dev` without a revision setting; otherwise ten characters that prefix the last revision value |
| Build.Versions | build/build.go:22-78 | no build information gives `unknown` twice; otherwise the Go version is reported; an injected static version wins; else the revision, with `-dirty` exactly when modified |
| Build.DerivedVersionShape | build/build.go:65-77 | a derived version ends in `-dirty` iff the last `vcs.modified` is `true`, and its base is `dev` iff there is no revision setting |
| Build.StaticIgnoresSettings | build/build.go:37-41 | with a static version the settings are not consulted |
| Build.Package.constructor | build/build.go:80-83 | `init` leaves the versions `detectVersion` derives |
| Build.Package.DetectVersion | build/build.go:22-78 | the loop over the settings leaves exactly the derived versions and keeps the static version; the result does not depend on the previous values |

## Left out

- Sockets, the clock, sleeping and the environment are not real. The environment is a map parameter. The clock reading for `NotifyReloading` is a parameter. Dials, writes, closes, sleeps and predicate calls are events on `SystemdHost.Host`, with scripted outcomes.
- Watchdog.Pulses: the source loops forever while the service stays healthy; the model stops when the scripted answers run out and reports `Running`.
- The text of error messages (`fmt.Errorf` wrapping) is not modelled. Errors are datatypes that carry the cause or the rejected value.
- Goroutines and the `sync.RWMutex` in util/writer.go are left out. Each operation is treated as atomic.
- Format.Sprintf: only `%s`, `%d` and `%%` with matching arguments are modelled; Go's `%!verb(…)` output for mismatched arguments is not.
- Environment.ToLower: only ASCII letters are lower-cased; Unicode case mappings of `strings.ToLower` are not modelled.
- Watchdog.Watchdog: the environment is read once for the whole run. The source reads `NOTIFY_SOCKET` again before every pulse, so a socket changed while the watchdog runs is not modelled; every pulse goes to the address set at the start.
- Build.Revision: `RevisionsSliceable` counts characters, while Go's `[:10]` counts bytes, so a revision value with multi-byte characters is sliced differently in the source.
- Build.Package.DetectVersion: requires every `vcs.revision` value to have at least ten characters, because the source's `[:10]` slice panics on shorter ones.
- Writers.SinkWrite: a failing writer is modelled as accepting nothing; partial writes before an error are not modelled.
- Slice aliasing is not modelled: `NewMultiWriter` keeps the caller's variadic slice, and the `Unregister` splice shares its backing array. The writer list is a value.
- Bytes are not modelled: notification payloads are strings (`seq<char>`) and are not converted to bytes.
- systemd/notify_other.go and systemd/watchdog_other.go are not part of this model. They are the non-Unix stubs that return nil, and -1 with nil.
- `debug.ReadBuildInfo` is an `Option` parameter, and only the Go version and settings of the build information are modelled.

## Findings

| source | as written | input that shows it | evidently intended | confidence | as-written member | corrected member |
|---|---|---|---|---|---|---|
| util/writer.go:64-77 | on success `Write` returns the named result `n`, which is never assigned (the `n` at line 72 is a new variable), so 0 | one healthy writer, `p = [1, 2]`: returns `(0, nil)` | `(len(p), nil)`, since `io.Writer` requires an error whenever n < len(p) | not executed | Writers.AsWrittenReportsZero | Writers.FanOut |
