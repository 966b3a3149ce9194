/** Consecutive selections: what a run of `NextBackend` calls returns while
    the liveness flags stay the same, and the round-robin fairness that
    follows when every backend is alive. */
module Fairness {
  import opened Selection
  import opened Arith

  /** The cursor after `k` increments from `c`: `c + k` modulo 2^64. */
  function Advance(c: Uint64, k: nat): (r: Uint64)
    ensures r == (c + k) % WORD
    decreases k
  {
    if k == 0 then c
    else
      var r := Advance(Increment(c), k - 1);
      ModAdd(c + 1, k - 1, WORD);
      r
  }

  /** The results of `m` consecutive `NextBackend` calls made from cursor
      value `c` while the flags stay `alive`. */
  function Calls(alive: seq<bool>, c: Uint64, m: nat): (r: seq<Option<nat>>)
    requires |alive| > 0
    ensures |r| == m
    ensures m > 0 ==> r[0] == Select(alive, Start(Increment(c), |alive|))
    decreases m
  {
    if m == 0 then []
    else
      var next := Increment(c);
      [Select(alive, Start(next, |alive|))] + Calls(alive, next, m - 1)
  }

  /** How many of the `calls` chose backend `j`. */
  function Count(calls: seq<Option<nat>>, j: nat): nat {
    if calls == [] then 0
    else (if calls[0] == Some(j) then 1 else 0) + Count(calls[1..], j)
  }

  /** Away from the 2^64 boundary the cursor simply counts. */
  lemma AdvanceNoWrap(c: Uint64, k: nat)
    requires c + k < WORD
    ensures Advance(c, k) == c + k
  {
  }

  /** One more increment after `k` increments is `k + 1` increments. */
  lemma AdvanceStep(c: Uint64, k: nat)
    ensures Advance(c, k + 1) == Increment(Advance(c, k))
  {
  }

  /** Call number `t` scans from the cursor value after `t + 1` increments. */
  lemma {:induction false} CallsAt(alive: seq<bool>, c: Uint64, m: nat, t: nat)
    requires |alive| > 0 && t < m
    ensures Calls(alive, c, m)[t] == Select(alive, Start(Advance(c, t + 1), |alive|))
    decreases t
  {
    if t > 0 {
      CallsAt(alive, Increment(c), m - 1, t - 1);
    }
  }

  /** While some backend is alive, every call returns a live backend. */
  lemma CallsLive(alive: seq<bool>, c: Uint64, m: nat, t: nat, j: nat)
    requires |alive| > 0 && t < m && j < |alive| && alive[j]
    ensures Calls(alive, c, m)[t].Some?
    ensures Calls(alive, c, m)[t].value < |alive| && alive[Calls(alive, c, m)[t].value]
  {
    CallsAt(alive, c, m, t);
    SelectSomeLive(alive, Start(Advance(c, t + 1), |alive|), j);
  }

  /** While every backend is dead, every call returns none. */
  lemma CallsAllDead(alive: seq<bool>, c: Uint64, m: nat, t: nat)
    requires |alive| > 0 && t < m && AllDead(alive)
    ensures Calls(alive, c, m)[t] == None
  {
    CallsAt(alive, c, m, t);
    SelectNoneIffAllDead(alive, Start(Advance(c, t + 1), |alive|));
  }

  /** With every backend alive and no wrap-around, call `t` returns
      backend `(c + 1 + t) % N`: consecutive calls walk the backends in order. */
  lemma AllAliveCalls(alive: seq<bool>, c: Uint64, m: nat, t: nat)
    requires |alive| > 0 && (forall i :: 0 <= i < |alive| ==> alive[i])
    requires c + m < WORD && t < m
    ensures Calls(alive, c, m)[t] == Some((c + 1 + t) % |alive|)
  {
    CallsAt(alive, c, m, t);
    AdvanceNoWrap(c, t + 1);
    SelectAllAlive(alive, Start(c + 1 + t, |alive|));
  }

  /** Round-robin: with every backend alive, no backend is chosen twice
      within any `N` consecutive calls. */
  lemma AllAliveNoRepeat(alive: seq<bool>, c: Uint64, m: nat, t: nat, u: nat)
    requires |alive| > 0 && (forall i :: 0 <= i < |alive| ==> alive[i])
    requires c + m < WORD && t < u < m && u - t < |alive|
    ensures Calls(alive, c, m)[t] != Calls(alive, c, m)[u]
  {
    var n := |alive|;
    AllAliveCalls(alive, c, m, t);
    AllAliveCalls(alive, c, m, u);
    ModAdd(c + 1 + t, u - t, n);
    CyclicCases((c + 1 + t) % n, u - t, n);
  }

  /** Round-robin: with every backend alive, each backend is chosen within
      any `N` consecutive calls. */
  lemma AllAliveCovers(alive: seq<bool>, c: Uint64, m: nat, t: nat, j: nat)
    requires |alive| > 0 && (forall i :: 0 <= i < |alive| ==> alive[i])
    requires c + m < WORD && t + |alive| <= m && j < |alive|
    ensures exists u :: t <= u < t + |alive| && Calls(alive, c, m)[u] == Some(j)
  {
    var n := |alive|;
    var s := (c + 1 + t) % n;
    var d := Offset(s, j, n);
    AllAliveCalls(alive, c, m, t + d);
    ModAdd(c + 1 + t, d, n);
    StepOfOffset(s, j, n);
    assert Calls(alive, c, m)[t + d] == Some(j);
  }

  lemma {:induction false} CountAppend(a: seq<Option<nat>>, b: seq<Option<nat>>, j: nat)
    ensures Count(a + b, j) == Count(a, j) + Count(b, j)
  {
    if a == [] {
      assert a + b == b;
    } else {
      assert (a + b)[1..] == a[1..] + b;
      CountAppend(a[1..], b, j);
    }
  }

  /** A run of calls splits into its first `k` calls and the rest. */
  lemma {:induction false} CallsSplit(alive: seq<bool>, c: Uint64, k: nat, m: nat)
    requires |alive| > 0 && k <= m
    ensures Calls(alive, c, m) == Calls(alive, c, k) + Calls(alive, Advance(c, k), m - k)
    decreases k
  {
    if k > 0 {
      CallsSplit(alive, Increment(c), k - 1, m - 1);
    }
  }

  /** Moving the start one step forward shortens the distance to `j` by
      one, unless the start was `j` itself, which is then a full round away. */
  lemma OffsetNext(x: nat, j: nat, n: nat)
    requires j < n
    ensures Offset((x + 1) % n, j, n) ==
      if x % n == j then n - 1 else Offset(x % n, j, n) - 1
  {
    ModAdd(x, 1, n);
    OffsetCases(x % n, j, n);
    if n > 1 {
      CyclicCases(x % n, 1, n);
      OffsetCases((x + 1) % n, j, n);
    }
  }

  lemma CountCons(x: Option<nat>, rest: seq<Option<nat>>, j: nat)
    ensures Count([x] + rest, j) == (if x == Some(j) then 1 else 0) + Count(rest, j)
  {
  }

  /** With every backend alive, the first `p <= N` calls from `c` choose
      backend `j` once if it lies fewer than `p` steps past the first start, and
      otherwise never. */
  lemma {:induction false} AllAlivePartialRound(alive: seq<bool>, c: Uint64, p: nat, j: nat)
    requires |alive| > 0 && (forall i :: 0 <= i < |alive| ==> alive[i])
    requires c + p < WORD && p <= |alive| && j < |alive|
    ensures Count(Calls(alive, c, p), j) ==
      if Offset((c + 1) % |alive|, j, |alive|) < p then 1 else 0
    decreases p
  {
    var n := |alive|;
    if p > 0 {
      var x := (c + 1) % n;
      var rest := Calls(alive, c + 1, p - 1);
      SelectAllAlive(alive, x);
      assert Calls(alive, c, p) == [Some(x)] + rest;
      CountCons(Some(x), rest, j);
      AllAlivePartialRound(alive, c + 1, p - 1, j);
      assert c + 1 + 1 == c + 2;
      OffsetNext(c + 1, j, n);
      OffsetCases(x, j, n);
    }
  }

  /** With every backend alive, `N` consecutive calls choose each backend
      exactly once. */
  lemma AllAliveFullRound(alive: seq<bool>, c: Uint64, j: nat)
    requires |alive| > 0 && (forall i :: 0 <= i < |alive| ==> alive[i])
    requires c + |alive| < WORD && j < |alive|
    ensures Count(Calls(alive, c, |alive|), j) == 1
  {
    AllAlivePartialRound(alive, c, |alive|, j);
  }

  /** Fairness: with every backend alive and no wrap-around, `m` consecutive
      calls choose each backend between floor(m / N) and ceil(m / N) times. */
  lemma {:induction false} AllAliveFair(alive: seq<bool>, c: Uint64, m: nat, j: nat)
    requires |alive| > 0 && (forall i :: 0 <= i < |alive| ==> alive[i])
    requires c + m < WORD && j < |alive|
    ensures m / |alive| <= Count(Calls(alive, c, m), j) <= (m + |alive| - 1) / |alive|
    decreases m
  {
    var n := |alive|;
    if m < n {
      AllAlivePartialRound(alive, c, m, j);
      FloorCeilSmall(m, n);
    } else {
      CallsSplit(alive, c, n, m);
      AdvanceNoWrap(c, n);
      CountAppend(Calls(alive, c, n), Calls(alive, c + n, m - n), j);
      AllAliveFullRound(alive, c, j);
      AllAliveFair(alive, c + n, m - n, j);
      FloorCeilBlock(m, n);
    }
  }

  /** Near the 2^64 boundary the rotation stutters: with three live
      backends, the call that moves the cursor to 2^64 - 1 and the next one,
      which wraps it to 0, both choose backend 0, because 2^64 is not a
      multiple of 3. */
  lemma WrapRepeatsBackend()
    ensures Calls([true, true, true], WORD - 2, 2) == [Some(0), Some(0)]
  {
  }

  /** With six live backends the wrap skips instead: the calls that move
      the cursor to 2^64 - 1 and 0 choose backends 3 and 0, so backends 4
      and 5 lose their turn. */
  lemma WrapSkipsBackends()
    ensures Calls([true, true, true, true, true, true], WORD - 2, 2) == [Some(3), Some(0)]
  {
  }

  /** Three backends with the middle one down: the calls only ever choose
      the first or the last backend. */
  lemma MiddleDownSkips(c: Uint64, m: nat, t: nat)
    requires t < m
    ensures Calls([true, false, true], c, m)[t] in {Some(0), Some(2)}
  {
    CallsLive([true, false, true], c, m, t, 0);
  }

  /** Three backends with the middle one down: over one rotation of the
      cursor the last backend is chosen twice, so the two live backends do
      not alternate. */
  lemma MiddleDownRotation(c: Uint64)
    requires c % 3 == 2 && c + 3 < WORD
    ensures Calls([true, false, true], c, 3) == [Some(0), Some(2), Some(2)]
  {
  }
}
