# Health checks and HAproxy config projection, in Dafny

This project models the two sequential cores of a service sidecar:

- **Health checking** (`healthy.dfy`, module `Healthy`). A `Check` is a class
  whose `status` and `count` fields are changed in place by `UpdateStatus`.
  `UpdateStatus` is a hysteresis counter over the integer codes
  HEALTHY=0, SICKLY=1, FAILED=2 and UNKNOWN=3.
  A `Monitor` is a class holding the registry `checks: map<string, Check>`.
  `AddCheck` and `RemoveCheck` reassign that map. `Healthy` and `Unhealthy` build lists in a loop.
  `Run` drives the ticks. Within a tick, every registered check runs its checker once and feeds the
  result to `UpdateStatus`. The source does this in parallel goroutines that touch
  disjoint checks; the model does it as a sequential pass over the registry.
  The pure functions `Step`, `Replay`, `Apply`, `Tick` and `Ticks` specify these methods.
  The lemmas about them carry the properties.
- **HAproxy config data** (`haproxy.dfy`, module `Haproxy`). It covers:
  - the name sanitizer;
  - the grouping of services with ports by service name;
  - the per-name set of TCP ports as base-10 strings;
  - the `getPorts` template function;
  - the change detector of the `Watch` loop.
  The cluster state's sorted enumeration becomes an input sequence of
  `Entry(name, Service(id, ports))` records. The watcher's polls become an input sequence of
  snapshots, each holding a `LastChanged` timestamp and its entries.

`wrappers.dfy` holds the `Option` type used for Go's nil-or-value errors.

Checkers other than the built-in placeholder run code that is not part of this model.
Their results are a parameter `probe` of `Run`. It is a function from (registry key of the check, checker name, arguments, tick number) to
(code, error). Each check owns its checker, so two checks with the same checker and arguments can still get different results. The built-in `HttpCheck` always returns (HEALTHY, nil).

Where the code and its comments disagree, the model follows the code:

- The comment on `Watch` (haproxy/haproxy.go:126-129) says the new file is verified
  and the proxy reloaded. The code only writes the file, and so does the model.
- A threshold "before we declare that it failed" (healthy/healthy.go:41) suggests that
  FAILED means `Count >= MaxCount`. In the code, a checker that returns the raw code FAILED without
  an error also yields status FAILED below the threshold. So `Step` states FAILED as
  implied by `Count >= MaxCount`, and states the raw code (or UNKNOWN) below the threshold. It does not state an if-and-only-if.

`sanitizeName` (haproxy/haproxy.go:65-66) replaces every match of `[^a-z0-9-]` with `-`.
It does not lower-case first, so `My_Service!` becomes `-y--ervice-`.

## Model

| member | source | states |
|---|---|---|
| `Healthy.Execute` | healthy/healthy.go:174-178 | the built-in HTTP placeholder checker always returns (HEALTHY, nil); any other checker's result comes from `probe` for that particular check, tick and arguments |
| `Healthy.Step` | healthy/healthy.go:68-86 | a raw HEALTHY result resets the count to 0, and the status is HEALTHY, or UNKNOWN when there is an error; any other raw result adds exactly 1 to the count, error or not; a count at or above MaxCount forces FAILED; below it the status is the raw code, or UNKNOWN when there is an error; a HEALTHY status always comes with count 0 |
| `Healthy.Check.UpdateStatus` | healthy/healthy.go:68-86 | the new (status, count) is `Step` of the old one; ID, threshold, kind, arguments and checker are unchanged |
| `Healthy.ConsecutiveFailures` | healthy/healthy.go:76-85 | after N >= 1 consecutive non-healthy results without error, the count has grown by N; the status is FAILED when the count reached MaxCount and the last raw code otherwise |
| `Healthy.SicklyRunFails` | healthy/healthy.go:76-85 | from a fresh state, N SICKLY results give count N, and FAILED iff N >= MaxCount, SICKLY iff N < MaxCount |
| `Healthy.HealthyHasZeroCount` | healthy/healthy.go:68-86 | after any non-empty sequence of results, status HEALTHY implies count 0 |
| `Healthy.WebScenario` | healthy/healthy.go:68-86 | with MaxCount 2, the results SICKLY, SICKLY, HEALTHY give (SICKLY, 1), (FAILED, 2), (HEALTHY, 0) |
| `Healthy.Check.constructor` | healthy/healthy.go:58-66 | NewCheck: count 0, MaxCount 1, kind "http", the placeholder checker, status HEALTHY (Go's zero value) |
| `Healthy.FreshCheckFailsAtOnce` | healthy/healthy.go:58-86 | a fresh check goes straight to FAILED with count 1 on its first non-HEALTHY result, with or without an error |
| `Healthy.Monitor.constructor` | healthy/healthy.go:88-94 | NewMonitor: an empty registry and a 3-second interval (a `time.Duration` in nanoseconds) |
| `Healthy.Monitor.AddCheck` | healthy/healthy.go:125-130 | upsert: the registry maps the check's ID to the check, and every other key is unchanged; a registry keyed by ID stays keyed by ID |
| `Healthy.Monitor.RemoveCheck` | healthy/healthy.go:132-136 | only that key is removed; nothing changes when it is absent |
| `Healthy.Monitor.KeyedByIdIsDistinct` | healthy/healthy.go:125-130 | in a registry keyed by ID, no check object sits under two keys |
| `Healthy.Monitor.Healthy` | healthy/healthy.go:111-123 | returns exactly one entry per key with a HEALTHY check: the ghost `keys` lists those keys without repeats, and each entry is the check under its key; so only and every registered HEALTHY check is returned, once per key, and with no repeats when no object is under two keys |
| `Healthy.Monitor.Unhealthy` | healthy/healthy.go:96-109 | the same as `Healthy`, for the checks whose status is not HEALTHY |
| `Healthy.Monitor.CollectWhere` | healthy/healthy.go:98-123 | the loop shared by the two filters, with the contract above parameterised by the wanted side |
| `Healthy.Monitor.Partition` | healthy/healthy.go:98-123 | the keys that `Healthy` and `Unhealthy` report are disjoint and together make up the registry, so their sizes sum to the registry size |
| `Healthy.Apply` | healthy/healthy.go:151-156 | one check's share of a tick runs the checker of the check under that registry key once; it leaves the check's identity and configuration alone, and a HEALTHY status comes with count 0 |
| `Healthy.Tick` | healthy/healthy.go:146-163 | a tick updates exactly the registered keys, each once |
| `Healthy.Monitor.RunTick` | healthy/healthy.go:146-163 | after the tick, each registered check is its old state run once through its checker and `UpdateStatus` (`Tick`) |
| `Healthy.TickTarget` | healthy/healthy.go:164-170 | for a count other than -1, the number of ticks is the count when it is at least 1, and exactly one otherwise |
| `Healthy.Monitor.Run` | healthy/healthy.go:140-171 | with an interval of zero or less there is no ticker, so no tick happens and the loop never returns; with -1 the loop never returns within any horizon; otherwise it returns after exactly `TickTarget(count)` ticks; the registry is the initial one after that many ticks |
| `Healthy.TicksKeepRegistry` | healthy/healthy.go:140-171 | ticks keep the set of keys and each check's identity and configuration; after at least one tick, every HEALTHY check has count 0 |
| `Healthy.PlaceholderKeepsHealthy` | healthy/healthy.go:140-178 | when every check uses the placeholder checker, every check is (HEALTHY, 0) after one or more ticks |
| `Haproxy.SanitizeName` | haproxy/haproxy.go:64-67 | the length is kept; characters in [a-z0-9-] stay in place; every other character, upper-case letters included, becomes '-'; every output character is in [a-z0-9-] |
| `Haproxy.SanitizeNameFixes` | haproxy/haproxy.go:64-67 | a name is unchanged iff it is already made only of [a-z0-9-] |
| `Haproxy.SanitizeNameIdempotent` | haproxy/haproxy.go:64-67 | sanitizing twice equals sanitizing once |
| `Haproxy.SanitizeNameExample` | haproxy/haproxy.go:64-67 | "My_Service!" becomes "-y--ervice-" |
| `Haproxy.Digits` | haproxy/haproxy.go:54 | base-10 digits: non-empty, only digits, and no leading zero except for 0 |
| `Haproxy.FormatInt` | haproxy/haproxy.go:54 | strconv.FormatInt base 10: non-empty, starting with '-' iff the number is negative |
| `Haproxy.DigitsRoundTrip` | haproxy/haproxy.go:54 | parsing the digits of n gives n back |
| `Haproxy.FormatIntRoundTrip` | haproxy/haproxy.go:54 | parsing the formatted number gives it back |
| `Haproxy.FormatIntInjective` | haproxy/haproxy.go:54 | two numbers format to the same string iff they are equal |
| `Haproxy.ServicesWithPorts` | haproxy/haproxy.go:148-165 | a name is a key iff some service of that name has at least one port; its list holds that name's services with ports, in enumeration order (`Kept`) |
| `Haproxy.KeptMembers` | haproxy/haproxy.go:151-161 | a service is listed under a name iff it is enumerated under that name with a port; the list is empty iff no service of that name has a port |
| `Haproxy.ServiceMapNonEmpty` | haproxy/haproxy.go:153-160 | no name maps to an empty list, and every listed service has a port |
| `Haproxy.MakePortmap` | haproxy/haproxy.go:43-61 | exactly one key per service name of the input, each holding `TcpPorts` of that name's services |
| `Haproxy.TcpPortsOfMembers` | haproxy/haproxy.go:52-56 | a string is in a binding list's set iff it is the decimal form of one of its TCP ports |
| `Haproxy.TcpPortsMembers` | haproxy/haproxy.go:51-57 | a string is in a name's set iff it is the decimal form of a TCP port of one of its services; ports of other protocols are not added, and a port bound twice is listed once |
| `Haproxy.TcpPortNumbers` | haproxy/haproxy.go:51-57 | a port number's decimal form is in the set iff some service binds that number over TCP |
| `Haproxy.PortmapEmptySet` | haproxy/haproxy.go:46-49 | a name whose services bind no TCP port maps to the empty set, and only such a name does |
| `Haproxy.GetPorts` | haproxy/haproxy.go:83-89 | lists every element of the name's set exactly once, with no repeats; an unknown name lists nothing |
| `Haproxy.WriteConfigData` | haproxy/haproxy.go:71-73 | the template data is the service map of the state and the portmap built from it |
| `Haproxy.LastSeenIsLatest` | haproxy/haproxy.go:131-135 | lastChange is at least the epoch and at least every LastChanged seen, and it is the epoch or one of them |
| `Haproxy.LastSeenMonotone` | haproxy/haproxy.go:134-135 | lastChange never decreases from one poll to a later one |
| `Haproxy.TriggersWhenNewest` | haproxy/haproxy.go:131-141 | a poll writes iff its LastChanged is after the epoch and after every earlier poll's; so the first post-epoch state writes |
| `Haproxy.Watch` | haproxy/haproxy.go:130-144 | the final lastChange is `LastSeen` of the polls; there is exactly one write per poll whose LastChanged is after the current lastChange, in poll order; each write carries the data projected from that poll's state |

## Left out

- Goroutines, `sync.WaitGroup`, the monitor's `sync.RWMutex`, `time.Tick` and `time.Sleep` are left out. A tick is a sequential pass over the registry, and the watcher is a loop over a finite sequence of polls.
- Healthy.Monitor.Run: no clock is modelled, so the interval's length does not matter. Only its sign does: a non-positive interval makes `time.Tick` return a nil channel, and `Run` then makes no tick and never returns.
- Healthy.Monitor.Run: the ticker never ends, so the model observes at most `horizon` ticks. With count -1 the loop is still running when the horizon is reached, which stands for "never returns".
- Healthy.Monitor.Run: requires that no check object is registered under two keys. In the source such a check would be updated by two goroutines at once, which is a data race. A registry keyed by ID never has this (`KeyedByIdIsDistinct`).
- The unlocked read of the registry at the start of each tick is a data-race concern. It is not modelled.
- Healthy.Check.UpdateStatus: Go's `int` (64 bits on 64-bit targets, 32 on 32-bit ones) is unbounded here, so the counter's wrap-around after 2^63 (or 2^31) failures is not modelled.
- Nil-pointer panics are not modelled, because the model's `Check` references are non-null and `Checker` is a total datatype. These panics are:
  - `AddCheck(nil)` (healthy/healthy.go:129);
  - a `Check` built without `NewCheck`, whose nil `Command` panics in its goroutine (healthy/healthy.go:153) and ends the process;
  - a zero-value `Monitor`, whose nil `Checks` map makes `AddCheck` panic.
- The unused `FOREVER = 0` constant is left out. `Run` uses -1 as its sentinel.
- `log.Printf` calls are left out.
- Checkers other than the built-in placeholder run code outside this model. Their results come from the `probe` parameter, which is given the check's registry key, so each check can get its own result.
- Go map iteration order is not modelled. `Healthy`, `Unhealthy` and `GetPorts` pick keys in an unspecified order, and their contracts hold for every order.
- Template parsing and execution, the `now`, `bindIP` and `sanitizeName` template bindings, and `os.Create` with the file write are left out. `WriteConfigData` keeps only the data handed to the template.
- An `os.Create` error is logged and the write goes ahead. The model records the write's data either way.
- `Verify`, `Reload` and `run` start external `/bin/bash` processes, so they are left out. `New` only sets the two command strings and the template path, so it is left out too. `Watch` never calls them.
- The service and cluster-state packages are not part of this model. `EachServiceSorted` and `ServiceName` become the input sequence of `Entry` records, and a service keeps only an identifier and its ports.
- Haproxy.FormatInt: port numbers are unbounded integers, so the int64 range is not enforced.
- Haproxy.SanitizeName: works on characters (code points). The source replaces each rune of a UTF-8 string, and it treats each invalid byte as one rune. So the model keeps the length in characters, not in bytes.
