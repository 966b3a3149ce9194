# Round-robin load balancer: a Dafny model

This project models the core of a small reverse-proxy load balancer written
in Go (`load-balancer.go`). The balancer keeps a fixed list of backend
records. Each record has an address and a liveness flag. A health check
probes every backend and rewrites its flag. On each request the selector
adds one to a 64-bit cursor. It then scans the backends cyclically from
`cursor % N` and picks the first live one. The request handler answers
503 "Service unavailable" when nothing is picked; otherwise it forwards the
request to the chosen backend.

Modules:

- `Selection` (selection.dfy): the cursor as a `uint64` with wrap-around,
  the start index, and the cyclic scan as a function `Select` on the
  liveness flags. The lemmas show that the result is exactly the first live
  backend in cyclic order from the start, and none exactly when every
  backend is dead.
- `Fairness` (fairness.dfy): the results of a run of consecutive calls
  while the flags stay fixed. It covers liveness of every pick,
  round-robin order, floor/ceiling fairness when all backends are alive,
  the repeated and skipped turns at the 2^64 wrap, and the three-backend scenario with the
  middle one down.
- `Dispatch` (dispatch.dfy): the `ServeHTTP` decision as a `Response`
  datatype, either `Unavailable(503, "Service unavailable")` or
  `Forward(i)`.
- `Balancer` (balancer.dfy): the state. `Backend` is a class with a mutable
  `isAlive`. `LoadBalancer` is a class with a constant sequence of backends
  and a `current` cursor. Its methods `NextBackend`, `HealthCheck` and
  `ServeHTTP` are proved against the `Selection` and `Dispatch` functions.
- `Arith` (arith.dfy): remainder and quotient facts that the cursor
  arithmetic needs.

Three places where a reader might expect one behaviour and the code does
another. The model follows the code:

- An empty backend list. One might expect the selector to return none.
  The code computes `% uint64(len(lb.backends))`, which panics in Go when
  the list is empty (load-balancer.go:55). `NextBackend` and `ServeHTTP`
  therefore require at least one backend. No lemma claims that an empty
  set yields none.
- Three backends with the second one down. One might expect the picks to
  alternate between the first and the third. The code's fallback scan gives
  the dead backend's turn to its successor. Over one rotation of the cursor
  the picks are backend 0, 2, 2, not an alternation
  (`Fairness.MiddleDownRotation`). What does hold is that backend 1 is
  never picked (`Fairness.MiddleDownSkips`).
- Cursor wrap-around. One might expect that only the cursor's value modulo
  N matters, so that wrapping is harmless. When N does not divide 2^64,
  the wrap restarts the rotation at backend 0, which can repeat a backend
  or skip some. With three live backends, the calls from cursor values
  2^64 - 2 and 2^64 - 1 both pick backend 0 (`Fairness.WrapRepeatsBackend`).
  With six, the same two calls pick backends 3 and 0, so backends 4 and 5
  lose their turn (`Fairness.WrapSkipsBackends`). The round-robin and fairness lemmas
  therefore assume that the cursor does not wrap during the run they
  describe.

Go's `NextBackend` returns a `*Backend`. The model returns that backend's
index in `backends`. The records are pairwise distinct (`Valid()`), so the
index and the pointer determine each other.

## Model

| member | source | states |
|---|---|---|
| `Selection.Increment` | load-balancer.go:55 | the new cursor is the old one plus one, except that 2^64 - 1 wraps to 0 (`atomic.AddUint64` on a `uint64`) |
| `Selection.Start` | load-balancer.go:55 | the scan's starting index `current % N` is a valid index into the backend list |
| `Selection.Cyclic` | load-balancer.go:59 | the index `(next + i) % N` visited at step `i` is a valid index |
| `Selection.Scan` | load-balancer.go:58-65 | whatever the scan returns is an index into the backend list whose backend is alive |
| `Selection.Select` | load-balancer.go:55-65 | the selected index is a live backend, and when the start index is itself alive it is the one selected |
| `Selection.ScanFinds` | load-balancer.go:58-63 | a backend returned by the scan from step `k` is alive and is reached at step `k` or later, and every index visited before it is dead |
| `Selection.ScanNone` | load-balancer.go:58-65 | the scan from step `k` returns none exactly when every index it visits from step `k` to step N-1 is dead |
| `Selection.SelectIsFirstLive` | load-balancer.go:55-63 | a selected backend is alive, and every index between the start and it, in cyclic order, is dead |
| `Selection.FirstLiveIsSelected` | load-balancer.go:55-63 | conversely, the first live backend in cyclic order from the start is the one selected |
| `Selection.SelectNoneIffAllDead` | load-balancer.go:58-65 | the selector returns none if and only if every backend is dead |
| `Selection.SelectSomeLive` | load-balancer.go:58-63 | if any backend is alive, a backend is selected and it is a live one |
| `Selection.SelectOnlyLive` | load-balancer.go:55-63 | with exactly one live backend, that backend is selected whatever the start index |
| `Selection.SelectAllAlive` | load-balancer.go:55-61 | with every backend alive, the selected backend is the start index itself |
| `Fairness.Advance` | load-balancer.go:55 | `k` increments of the cursor from `c` leave it at `(c + k)` modulo 2^64 |
| `Fairness.AdvanceStep` | load-balancer.go:55 | one more increment after `k` increments is `k + 1` increments |
| `Fairness.Calls` | load-balancer.go:53-66 | a run of `m` consecutive calls yields `m` results, the first being the selection from the start index of the incremented cursor |
| `Fairness.AdvanceNoWrap` | load-balancer.go:55 | away from the 2^64 boundary, `k` increments move the cursor by exactly `k` |
| `Fairness.CallsAt` | load-balancer.go:53-66 | the `t`-th of a run of consecutive calls scans from the cursor value after `t + 1` increments |
| `Fairness.CallsLive` | load-balancer.go:53-66 | while at least one backend is alive, every call of a run returns a live backend, never none |
| `Fairness.CallsAllDead` | load-balancer.go:53-66 | while every backend is dead, every call of a run returns none |
| `Fairness.AllAliveCalls` | load-balancer.go:55-61 | with every backend alive, call `t` from cursor `c` returns backend `(c + 1 + t) % N`, so consecutive calls return consecutive indices |
| `Fairness.AllAliveNoRepeat` | load-balancer.go:55-61 | with every backend alive, no backend is picked twice within N consecutive calls |
| `Fairness.AllAliveCovers` | load-balancer.go:55-61 | with every backend alive, every backend is picked within any N consecutive calls |
| `Fairness.CountAppend` | load-balancer.go:53-66 | the number of times a backend is picked adds up over two runs of calls |
| `Fairness.CallsSplit` | load-balancer.go:53-66 | a run of calls is its first `k` calls followed by the calls from the cursor they leave behind |
| `Fairness.AllAlivePartialRound` | load-balancer.go:55-61 | with every backend alive, the first `p <= N` calls pick backend `j` once if it lies fewer than `p` steps past the first start, and never otherwise |
| `Fairness.AllAliveFullRound` | load-balancer.go:55-61 | with every backend alive, N consecutive calls pick each backend exactly once |
| `Fairness.AllAliveFair` | load-balancer.go:55-61 | with every backend alive, `m` consecutive calls pick each backend between floor(m / N) and ceil(m / N) times |
| `Fairness.WrapRepeatsBackend` | load-balancer.go:55 | with three live backends, the two calls across the 2^64 wrap both pick backend 0 |
| `Fairness.WrapSkipsBackends` | load-balancer.go:55 | with six live backends, the two calls across the 2^64 wrap pick backends 3 and 0, skipping 4 and 5 |
| `Fairness.MiddleDownSkips` | load-balancer.go:55-63 | with three backends and the middle one dead, every call picks the first or the last |
| `Fairness.MiddleDownRotation` | load-balancer.go:55-63 | with three backends and the middle one dead, one rotation of the cursor picks backends 0, 2, 2 |
| `Dispatch.Respond` | load-balancer.go:91-97 | the answer is 503 "Service unavailable" exactly when nothing was selected; otherwise the request is forwarded to the selected backend |
| `Dispatch.RespondUnavailableIffAllDead` | load-balancer.go:90-98 | the response is 503 "Service unavailable" exactly when every backend is dead; otherwise it forwards to the first live backend in cyclic order from the start |
| `Balancer.Backend.constructor` | load-balancer.go:123-127 | a configured backend keeps its address and starts out alive |
| `Balancer.Backend.SetAlive` | load-balancer.go:23-27 | the record's flag becomes the given value and no other object changes |
| `Balancer.Backend.IsAlive` | load-balancer.go:29-34 | returns the record's current flag and changes nothing |
| `Balancer.NextBackendRun` | load-balancer.go:53-66 | `m` consecutive `NextBackend` calls return exactly `Calls` of the flags and the starting cursor, leave the cursor at `Advance(c, m)` and change no flag, so the `Fairness` lemmas apply to the balancer's own calls |
| `Balancer.SetAliveThenIsAlive` | load-balancer.go:23-34 | after `SetAlive(v)` on backend `i`, `IsAlive()` on `i` returns `v`; every other flag and the cursor are unchanged |
| `Balancer.LoadBalancer.constructor` | load-balancer.go:110-129 | one fresh, distinct record per configured address, in order, all alive, and the cursor at zero |
| `Balancer.LoadBalancer.NextBackend` | load-balancer.go:53-66 | the cursor goes up by one modulo 2^64 and no flag changes. The result is the first live backend in cyclic order from the new cursor `% N`, the new cursor being `(old cursor + 1)` modulo 2^64, found after that many `IsAlive` calls, or none after N calls exactly when all are dead |
| `Balancer.LoadBalancer.HealthCheck` | load-balancer.go:68-78 | the flags become exactly the probe answers, backend by backend, including those after a failed probe; the cursor is unchanged; the new flags depend on the probe answers alone, so repeating the check with the same answers changes nothing |
| `Balancer.LoadBalancer.HealthCheckRounds` | load-balancer.go:80-88 | after a finite run of periodic checks the flags are the last check's probe answers, and with no tick they are unchanged |
| `Balancer.LoadBalancer.ServeHTTP` | load-balancer.go:90-98 | one selection step. The response is 503 "Service unavailable" exactly when every backend is dead; otherwise it forwards to the backend `NextBackend` selected |

## Left out

- Locking and atomics (`sync.RWMutex`, `atomic.AddUint64`): each operation is one sequential step. Interleavings of concurrent requests and of the health monitor are not modelled. The claim that no two concurrent callers see the same cursor value is not stated.
- `isBackendAlive` (load-balancer.go:36-46): the TCP dial with its 2-second timeout is network I/O. Each check takes its answers as the parameter `probe: seq<bool>`, one answer per backend in list order. Go dials only the URL's host (load-balancer.go:38), and two backends could share a host yet get different answers at their two dials; a per-backend answer covers that case too.
- `HealthCheckPeriodically` (load-balancer.go:80-88): the ticker loop never ends. `HealthCheckRounds` runs a finite number of ticks, each with its own probe answers. The timer interval is not modelled.
- Forwarding through `httputil.ReverseProxy` and its `ErrorHandler` (load-balancer.go:97, 117-121): a foreign library. The model stops at `Forward(i)`, so a 503 written after a failed forward is not modelled.
- `http.Error` writes its headers and a trailing newline after the message. The model records only the status and the message.
- `main` (load-balancer.go:100-144): the flag parsing, `url.Parse` with `log.Fatal`, the startup health check and the server loop are process plumbing. Only the assembly of the backend list is modelled, by `LoadBalancer.constructor`.
- Every `log.Printf` line: observational only.
- backend.go is not part of this model: it is a demo backend server with no balancing logic.
- Fairness.AllAliveCalls: assumes the cursor does not wrap at 2^64 during the run, because at the wrap the rotation can repeat or skip backends (`Fairness.WrapRepeatsBackend`, `Fairness.WrapSkipsBackends`).
- Fairness.AllAliveNoRepeat: assumes the cursor does not wrap at 2^64 during the run, because at the wrap the rotation can repeat or skip backends (`Fairness.WrapRepeatsBackend`, `Fairness.WrapSkipsBackends`).
- Fairness.AllAliveCovers: assumes the cursor does not wrap at 2^64 during the run, because at the wrap the rotation can repeat or skip backends (`Fairness.WrapRepeatsBackend`, `Fairness.WrapSkipsBackends`).
- Fairness.AllAlivePartialRound: assumes the cursor does not wrap at 2^64 during the run, because at the wrap the rotation can repeat or skip backends (`Fairness.WrapRepeatsBackend`, `Fairness.WrapSkipsBackends`).
- Fairness.AllAliveFullRound: assumes the cursor does not wrap at 2^64 during the run, because at the wrap the rotation can repeat or skip backends (`Fairness.WrapRepeatsBackend`, `Fairness.WrapSkipsBackends`).
- Fairness.AllAliveFair: assumes the cursor does not wrap at 2^64 during the run, because at the wrap the rotation can repeat or skip backends (`Fairness.WrapRepeatsBackend`, `Fairness.WrapSkipsBackends`).
