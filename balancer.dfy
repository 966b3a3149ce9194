/** The load balancer's state and operations: backend records with their
    liveness flags, the round-robin selector over them, the health check that
    rewrites the flags, and the per-request dispatch. Each operation runs as
    one sequential step; locking and the atomic increment are not modelled. */
module Balancer {
  import opened Selection
  import opened Dispatch
  import opened Fairness

  /** One backend: its address, fixed at construction, and whether it was
      reachable at the last health check. */
  class Backend {
    const url: string
    var isAlive: bool

    /** A configured backend starts out alive (`isAlive: true` in `main`). */
    constructor (url: string)
      ensures this.url == url && isAlive
    {
      this.url := url;
      isAlive := true;
    }

    method SetAlive(alive: bool)
      modifies this
      ensures isAlive == alive
    {
      isAlive := alive;
    }

    method IsAlive() returns (alive: bool)
      ensures alive == isAlive
    {
      alive := isAlive;
    }
  }

  class LoadBalancer {
    /** The backend list: built once at start-up and never resized, so
        every index names the same record for the balancer's lifetime. */
    const backends: seq<Backend>
    /** The selection cursor, a Go `uint64`. */
    var current: Uint64

    /** Each index holds its own record, so writing one backend's flag
        leaves every other backend's flag alone. */
    ghost predicate Valid() {
      forall i, j :: 0 <= i < j < |backends| ==> backends[i] != backends[j]
    }

    /** The liveness flags, in backend order. */
    ghost function Flags(): (flags: seq<bool>)
      reads backends
      ensures |flags| == |backends|
      ensures forall i :: 0 <= i < |backends| ==> flags[i] == backends[i].isAlive
    {
      seq(|backends|, i requires 0 <= i < |backends| reads backends => backends[i].isAlive)
    }

    /** The balancer `main` assembles: one fresh record per configured
        address, in order, all alive, and the cursor at zero. */
    constructor (urls: seq<string>)
      ensures Valid() && current == 0
      ensures |backends| == |urls|
      ensures forall i :: 0 <= i < |urls| ==> fresh(backends[i]) && backends[i].url == urls[i]
      ensures forall i :: 0 <= i < |urls| ==> Flags()[i]
    {
      var records: seq<Backend> := [];
      for i := 0 to |urls|
        invariant |records| == i
        invariant forall k :: 0 <= k < i ==>
          fresh(records[k]) && records[k].url == urls[k] && records[k].isAlive
        invariant forall k, l :: 0 <= k < l < i ==> records[k] != records[l]
      {
        var b := new Backend(urls[i]);
        records := records + [b];
      }
      backends := records;
      current := 0;
    }

    /** Advances the cursor by one (wrapping at 2^64) and scans the backends
        cyclically from `current % N`, returning the index of the first live
        one, or none after all N were found dead. `probes` counts the
        `IsAlive` calls made. The Go code divides by `len(backends)`, so an
        empty backend list is a caller error (a panic), not a "none". */
    method NextBackend() returns (selected: Option<nat>, ghost probes: nat)
      requires |backends| > 0
      modifies this
      ensures current == Increment(old(current))
      ensures Flags() == old(Flags())
      ensures selected == Select(Flags(), Start(current, |backends|))
      ensures selected.Some? ==> FirstLiveFrom(Flags(), Start(current, |backends|), selected.value)
      ensures selected.None? <==> AllDead(Flags())
      ensures probes == if selected.Some?
        then Offset(Start(current, |backends|), selected.value, |backends|) + 1
        else |backends|
    {
      current := Increment(current);
      var n := |backends|;
      var next := Start(current, n);
      ghost var flags := Flags();
      SelectNoneIffAllDead(flags, next);
      for i := 0 to n
        invariant current == Increment(old(current))
        invariant Select(flags, next) == Scan(flags, next, i)
      {
        var index := Cyclic(next, i, n);
        var alive := backends[index].IsAlive();
        if alive {
          assert Scan(flags, next, i) == Some(index);
          SelectIsFirstLive(flags, next);
          OffsetOfStep(next, i, n);
          return Some(index), i + 1;
        }
      }
      return None, n;
    }

    /** Probes every backend in order and stores each answer as its flag,
        whatever the earlier answers were; the cursor is untouched.
        `probe[i]` is what `isBackendAlive` answers for backend `i` when its
        turn comes. The new flags depend on the answers alone, so a second
        check with the same answers leaves them as they are. */
    method HealthCheck(probe: seq<bool>)
      requires Valid() && |probe| == |backends|
      modifies backends
      ensures Flags() == probe
      ensures current == old(current)
    {
      for i := 0 to |backends|
        invariant forall k :: 0 <= k < i ==> backends[k].isAlive == probe[k]
        invariant forall k :: i <= k < |backends| ==> backends[k].isAlive == old(backends[k].isAlive)
      {
        var b := backends[i];
        var status := probe[i];
        b.SetAlive(status);
      }
    }

    /** `HealthCheckPeriodically` cut down to finitely many ticks: one health
        check per tick, the tick's probe answers given by `ticks`. */
    method HealthCheckRounds(ticks: seq<seq<bool>>)
      requires Valid()
      requires forall t :: 0 <= t < |ticks| ==> |ticks[t]| == |backends|
      modifies backends
      ensures Flags() == if ticks == [] then old(Flags()) else ticks[|ticks| - 1]
      ensures current == old(current)
    {
      for t := 0 to |ticks|
        invariant Flags() == if t == 0 then old(Flags()) else ticks[t - 1]
        invariant current == old(current)
      {
        HealthCheck(ticks[t]);
      }
    }

    /** The request path: one selection, then either the 503 "Service
        unavailable" answer or forwarding to the chosen backend. */
    method ServeHTTP() returns (response: Response)
      requires |backends| > 0
      modifies this
      ensures current == Increment(old(current))
      ensures Flags() == old(Flags())
      ensures response == Respond(Select(Flags(), Start(current, |backends|)))
      ensures (response == Unavailable(STATUS_SERVICE_UNAVAILABLE, UNAVAILABLE_MESSAGE)) <==>
        AllDead(Flags())
      ensures response.Forward? ==>
        FirstLiveFrom(Flags(), Start(current, |backends|), response.backend)
    {
      var selected: Option<nat>;
      ghost var probes: nat;
      selected, probes := NextBackend();
      if selected.None? {
        response := Unavailable(STATUS_SERVICE_UNAVAILABLE, UNAVAILABLE_MESSAGE);
        return;
      }
      response := Forward(selected.value);
    }
  }

  /** Setting a backend's flag and reading it back: the reader sees the value
      written, and no other backend's flag and not the cursor has moved. */
  method SetAliveThenIsAlive(lb: LoadBalancer, i: nat, alive: bool) returns (seen: bool)
    requires lb.Valid() && i < |lb.backends|
    modifies lb.backends[i]
    ensures seen == alive
    ensures lb.Flags() == old(lb.Flags())[i := alive]
    ensures lb.current == old(lb.current)
  {
    lb.backends[i].SetAlive(alive);
    seen := lb.backends[i].IsAlive();
  }

  /** `m` requests' worth of `NextBackend` calls with no health check in
      between: the results are `Calls` of the flags and the starting cursor,
      so the lemmas about `Calls` are about the balancer itself. */
  method NextBackendRun(lb: LoadBalancer, m: nat) returns (results: seq<Option<nat>>)
    requires |lb.backends| > 0
    modifies lb
    ensures results == Calls(old(lb.Flags()), old(lb.current), m)
    ensures lb.current == Advance(old(lb.current), m)
    ensures lb.Flags() == old(lb.Flags())
  {
    ghost var flags, c := lb.Flags(), lb.current;
    results := [];
    for t := 0 to m
      invariant lb.Flags() == flags
      invariant lb.current == Advance(c, t)
      invariant results == Calls(flags, c, t)
    {
      var selected: Option<nat>;
      ghost var probes: nat;
      selected, probes := lb.NextBackend();
      CallsSplit(flags, c, t, t + 1);
      AdvanceStep(c, t);
      results := results + [selected];
    }
  }
}
