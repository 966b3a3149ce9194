/** The round-robin selector of the load balancer, on values: the 64-bit
    selection cursor, the starting index derived from it, and the cyclic scan
    over the liveness flags that picks the first live backend. */
module Selection {

  datatype Option<T> = None | Some(value: T)

  /** 2^64: the selection cursor is a Go `uint64`. */
  const WORD: nat := 0x1_0000_0000_0000_0000

  type Uint64 = x: int | 0 <= x < WORD

  /** `atomic.AddUint64(&current, 1)`: the new cursor, wrapping at 2^64. */
  function Increment(c: Uint64): (r: Uint64)
    ensures r == 0 <==> c == WORD - 1
    ensures r != 0 ==> r == c + 1
  {
    (c + 1) % WORD
  }

  /** The index the scan starts at for cursor value `c` over `n` backends
      (`current % uint64(len(backends))`). */
  function Start(c: Uint64, n: nat): (s: nat)
    requires n > 0
    ensures s < n
  {
    c % n
  }

  /** How many steps the cyclic scan from `start` takes to reach index `j`. */
  function Offset(start: int, j: int, n: nat): (d: nat)
    requires n > 0
    ensures d < n
  {
    (j - start) % n
  }

  /** The index visited at step `d` of a scan that starts at `start`
      (`(next + i) % numberOfBackends`). */
  function Cyclic(start: nat, d: nat, n: nat): (i: nat)
    requires n > 0
    ensures i < n
  {
    (start + d) % n
  }

  /** Within one round, the cyclic index wraps at most once. */
  lemma CyclicCases(start: nat, d: nat, n: nat)
    requires start < n && d < n
    ensures Cyclic(start, d, n) == if start + d < n then start + d else start + d - n
  {
  }

  /** The distance from `start` forward to `j`, without `%`. */
  lemma OffsetCases(start: nat, j: nat, n: nat)
    requires start < n && j < n
    ensures Offset(start, j, n) == if start <= j then j - start else j - start + n
  {
  }

  /** The loop of `NextBackend` from iteration `k` on: the first index
      visited at a step `d` with `k <= d < n` whose backend is alive. */
  function Scan(alive: seq<bool>, start: nat, k: nat): (r: Option<nat>)
    requires start < |alive| && k <= |alive|
    ensures r.Some? ==> r.value < |alive| && alive[r.value]
    decreases |alive| - k
  {
    if k == |alive| then None
    else
      var index := Cyclic(start, k, |alive|);
      if alive[index] then Some(index) else Scan(alive, start, k + 1)
  }

  /** The backend `NextBackend` selects for the flags `alive` when the scan
      starts at `start`. */
  function Select(alive: seq<bool>, start: nat): (r: Option<nat>)
    requires start < |alive|
    ensures r.Some? ==> r.value < |alive| && alive[r.value]
    ensures alive[start] ==> r == Some(start)
  {
    Scan(alive, start, 0)
  }

  ghost predicate AllDead(alive: seq<bool>) {
    forall j :: 0 <= j < |alive| ==> !alive[j]
  }

  /** `j` is the first live index met when walking cyclically from `start`. */
  ghost predicate FirstLiveFrom(alive: seq<bool>, start: nat, j: nat)
    requires 0 < |alive|
  {
    j < |alive| && alive[j] &&
    forall d :: 0 <= d < Offset(start, j, |alive|) ==> !alive[Cyclic(start, d, |alive|)]
  }

  /** Walking `k` steps from `start` and then measuring the distance back
      gives `k`. */
  lemma OffsetOfStep(start: nat, k: nat, n: nat)
    requires start < n && k < n
    ensures Offset(start, Cyclic(start, k, n), n) == k
  {
    CyclicCases(start, k, n);
    OffsetCases(start, Cyclic(start, k, n), n);
  }

  /** Walking `Offset(start, j, n)` steps from `start` lands on `j`. */
  lemma StepOfOffset(start: nat, j: nat, n: nat)
    requires start < n && j < n
    ensures Cyclic(start, Offset(start, j, n), n) == j
  {
    OffsetCases(start, j, n);
    CyclicCases(start, Offset(start, j, n), n);
  }

  /** What the scan from iteration `k` returns is a live backend, reached
      at step `k` or later, and every index passed before it is dead. */
  lemma {:induction false} ScanFinds(alive: seq<bool>, start: nat, k: nat)
    requires start < |alive| && k <= |alive|
    requires Scan(alive, start, k).Some?
    ensures var j := Scan(alive, start, k).value;
      alive[j] && k <= Offset(start, j, |alive|) &&
      forall d :: k <= d < Offset(start, j, |alive|) ==> !alive[Cyclic(start, d, |alive|)]
    decreases |alive| - k
  {
    var n := |alive|;
    OffsetOfStep(start, k, n);
    if !alive[Cyclic(start, k, n)] {
      ScanFinds(alive, start, k + 1);
    }
  }

  /** The scan from iteration `k` finds nothing exactly when the indices
      visited from step `k` to the end of the round are all dead. */
  lemma {:induction false} ScanNone(alive: seq<bool>, start: nat, k: nat)
    requires start < |alive| && k <= |alive|
    ensures Scan(alive, start, k).None? <==>
      forall d :: k <= d < |alive| ==> !alive[Cyclic(start, d, |alive|)]
    decreases |alive| - k
  {
    if k < |alive| {
      ScanNone(alive, start, k + 1);
    }
  }

  /** The selected backend is the first live one in cyclic order from `start`. */
  lemma SelectIsFirstLive(alive: seq<bool>, start: nat)
    requires start < |alive|
    requires Select(alive, start).Some?
    ensures FirstLiveFrom(alive, start, Select(alive, start).value)
  {
    ScanFinds(alive, start, 0);
  }

  /** Any backend that is the first live one from `start` is the one selected:
      together with SelectIsFirstLive this characterises the selection. */
  lemma FirstLiveIsSelected(alive: seq<bool>, start: nat, j: nat)
    requires start < |alive|
    requires FirstLiveFrom(alive, start, j)
    ensures Select(alive, start) == Some(j)
  {
    var n := |alive|;
    StepOfOffset(start, j, n);
    ScanNone(alive, start, 0);
    ScanFinds(alive, start, 0);
    var i := Select(alive, start).value;
    var di, dj := Offset(start, i, n), Offset(start, j, n);
    StepOfOffset(start, i, n);
    // neither can come strictly before the other, so they are the same step
    assert di == dj;
  }

  /** Nothing is selected exactly when every backend is dead. */
  lemma SelectNoneIffAllDead(alive: seq<bool>, start: nat)
    requires start < |alive|
    ensures Select(alive, start).None? <==> AllDead(alive)
  {
    var n := |alive|;
    ScanNone(alive, start, 0);
    if Select(alive, start).None? {
      forall j | 0 <= j < n
        ensures !alive[j]
      {
        StepOfOffset(start, j, n);
      }
    }
  }

  /** Some backend is alive, so one is selected, and it is alive. */
  lemma SelectSomeLive(alive: seq<bool>, start: nat, j: nat)
    requires start < |alive| && j < |alive| && alive[j]
    ensures Select(alive, start).Some?
    ensures alive[Select(alive, start).value]
  {
    SelectNoneIffAllDead(alive, start);
    SelectIsFirstLive(alive, start);
  }

  /** With exactly one live backend, it is selected whatever the start. */
  lemma SelectOnlyLive(alive: seq<bool>, start: nat, j: nat)
    requires start < |alive| && j < |alive| && alive[j]
    requires forall i :: 0 <= i < |alive| && i != j ==> !alive[i]
    ensures Select(alive, start) == Some(j)
  {
    SelectSomeLive(alive, start, j);
  }

  /** With every backend alive the scan stops at once, on `start`. */
  lemma SelectAllAlive(alive: seq<bool>, start: nat)
    requires start < |alive|
    requires forall i :: 0 <= i < |alive| ==> alive[i]
    ensures Select(alive, start) == Some(start)
  {
  }
}
