/** The load generator's host side: the output-buffer ring, the `Run` loop as
    a state machine over halt-flag reads, the throughput counters, and the
    MFLOPS read. The kernel dispatch itself is an opaque step that records
    which ring buffer it was given. */
module MatMulRunner {
  import Arith

  /** Work-group edge and `sizeof(float)`. */
  const BlockSize: nat := 16
  const FloatSize: nat := 4
  /** The counters are `ulong`; the ring length is an `int`. */
  const U64: nat := 0x1_0000_0000_0000_0000
  const U32: nat := 0x1_0000_0000
  const I32Max: nat := 0x7FFF_FFFF

  function Wrap64(x: int): (r: nat)
    ensures r < U64
  {
    x % U64
  }

  /** The unchecked `(int)` cast of a `long`: the low 32 bits as a signed
      value. */
  function ToInt32(x: int): (r: int)
    ensures -(I32Max as int) - 1 <= r <= I32Max
    ensures 0 <= x <= I32Max ==> r == x
    ensures r % U32 == x % U32
  {
    var low := x % U32;
    if low > I32Max then low - U32 else low
  }

  // ---------------------------------------------------------------------
  // Ring sizing

  /** `(int)(MaxMemoryAllocationSize / n / n / sizeof(float))`: as many
      N x N float buffers as one allocation may hold. There is no clamp: a
      budget below one buffer gives an empty ring. */
  function RingLength(maxAlloc: nat, n: int): (len: int)
    requires n > 0
    ensures -(I32Max as int) - 1 <= len <= I32Max
    ensures len % U32 == (maxAlloc / n / n / FloatSize) % U32
    ensures maxAlloc / n / n / FloatSize <= I32Max ==> len == maxAlloc / n / n / FloatSize
  {
    ToInt32(maxAlloc / n / n / FloatSize)
  }

  /** The bytes of one N x N float buffer. */
  function BufferBytes(n: nat): (b: nat)
    ensures n > 0 ==> b >= 1
  {
    if n > 0 then
      Arith.MulAtLeastOne(n, n);
      n * n * FloatSize
    else 0
  }

  /** Within the `int` range, the ring length is the number of whole
      N x N float buffers that fit the allocation budget, and the ring is
      non-empty exactly when at least one buffer fits. */
  lemma RingLengthFitsBudget(maxAlloc: nat, n: nat)
    requires n > 0
    requires maxAlloc / BufferBytes(n) <= I32Max
    ensures var len := RingLength(maxAlloc, n);
            && len == maxAlloc / BufferBytes(n)
            && len * BufferBytes(n) <= maxAlloc < (len + 1) * BufferBytes(n)
            && (len >= 1 <==> maxAlloc >= BufferBytes(n))
  {
    var nn := n * n;
    Arith.MulAtLeastOne(n, n);
    Arith.NestedDivision(maxAlloc, n, n);
    Arith.NestedDivision(maxAlloc, nn, FloatSize);
    var b := BufferBytes(n);
    assert b == nn * FloatSize;
    var len := maxAlloc / b;
    assert RingLength(maxAlloc, n) == len;
    Arith.FloorDivision(maxAlloc, b);
    if len >= 1 {
      Arith.MulAtLeastOne(b, len);
    }
  }

  // ---------------------------------------------------------------------
  // Runner state and the Run loop

  datatype Runner = Runner(
    n: nat,
    ringLength: int,
    haltRequested: bool,
    operations: nat,
    completions: nat,
    startTime: int)

  /** The constructor's outcome: a runner, or the overflow exception that
      allocating the ring array raises for a negative length. */
  datatype Construction = Built(runner: Runner) | ArrayOverflow

  /** The state the constructor leaves behind: a ring of `RingLength`
      buffers, halt cleared, counters and start time zero. A negative
      length (the unchecked cast wrapped) makes the array allocation
      throw. */
  function Construct(maxAlloc: nat, n: nat): (r: Construction)
    requires n > 0
    ensures r.ArrayOverflow? <==> RingLength(maxAlloc, n) < 0
    ensures r.Built? ==> r.runner.ringLength == RingLength(maxAlloc, n) && r.runner.ringLength >= 0
    ensures r.Built? ==> !r.runner.haltRequested && r.runner.operations == 0 && r.runner.completions == 0
                         && r.runner.startTime == 0 && r.runner.n == n
  {
    var len := RingLength(maxAlloc, n);
    if len < 0 then ArrayOverflow else Built(Runner(n, len, false, 0, 0, 0))
  }

  /** When the buffer count fits an `int`, construction succeeds, and the
      ring is non-empty, as `Run` needs, exactly when one buffer fits the
      allocation budget. */
  lemma ConstructedRingRunnable(maxAlloc: nat, n: nat)
    requires n > 0
    requires maxAlloc / BufferBytes(n) <= I32Max
    ensures Construct(maxAlloc, n).Built?
    ensures Construct(maxAlloc, n).runner.ringLength >= 1 <==> maxAlloc >= BufferBytes(n)
  {
    RingLengthFitsBudget(maxAlloc, n);
    var len := RingLength(maxAlloc, n);
    var b := BufferBytes(n);
    assert b >= 1;
    assert len == maxAlloc / b;
    Arith.DivNonNegative(maxAlloc, b);
    assert Construct(maxAlloc, n) == Built(Runner(n, len, false, 0, 0, 0));
  }

  /** What `Run` does before its loop: stamp the start time, clear the halt
      flag and zero both counters. */
  function Enter(r: Runner, now: int): (s: Runner)
    ensures !s.haltRequested && s.operations == 0 && s.completions == 0 && s.startTime == now
    ensures s.n == r.n && s.ringLength == r.ringLength
  {
    r.(startTime := now, haltRequested := false, operations := 0, completions := 0)
  }

  /** A halt requested before `Run` starts is discarded: the entered state is
      the same whatever the flag was. */
  lemma HaltBeforeRunIsDiscarded(r: Runner, now: int)
    ensures Enter(r.(haltRequested := true), now) == Enter(r.(haltRequested := false), now)
  {
  }

  /** N^3, kept as one term so that products with it stay small. */
  function Cube(n: nat): nat
  {
    n * n * n
  }

  /** `2 * _n * _n * _n` in `ulong` arithmetic. */
  function OpsPerDispatch(n: nat): nat
  {
    Wrap64(2 * Cube(n))
  }

  datatype Counters = Counters(operations: nat, completions: nat)

  /** The counters after k completed dispatches of an N x N product, in
      closed form. */
  function CountersAfter(n: nat, k: nat): Counters
  {
    Counters(Wrap64(2 * k * Cube(n)), Wrap64(k))
  }

  /** The counters as `Run` builds them: one wrapped addition per completed
      dispatch. */
  function Accumulated(n: nat, k: nat): Counters
  {
    if k == 0 then Counters(0, 0)
    else
      var p := Accumulated(n, k - 1);
      Counters(Wrap64(p.operations + OpsPerDispatch(n)), Wrap64(p.completions + 1))
  }

  lemma ModAdd(a: int, b: int)
    ensures Wrap64(Wrap64(a) + Wrap64(b)) == Wrap64(a + b)
  {
  }

  lemma CountersStep(n: nat, k: nat)
    ensures CountersAfter(n, k + 1) ==
            Counters(Wrap64(CountersAfter(n, k).operations + OpsPerDispatch(n)),
                     Wrap64(CountersAfter(n, k).completions + 1))
  {
    var m := Cube(n);
    assert 2 * (k + 1) * m == 2 * k * m + 2 * m;
    ModAdd(2 * k * m, 2 * m);
    ModAdd(k, 1);
  }

  /** Adding 2 * N^3 once per completion, with wrap-around each time, gives
      2 * k * N^3 modulo 2^64 after k completions. */
  lemma {:induction false} AccumulatedClosedForm(n: nat, k: nat)
    ensures Accumulated(n, k) == CountersAfter(n, k)
  {
    if k > 0 {
      AccumulatedClosedForm(n, k - 1);
      CountersStep(n, k - 1);
    }
  }

  /** `Run`, from entry to return. `checkpoints` holds the values the halt
      flag is read as, in order: before each dispatch and after each
      completion (another thread may set it at any time). The run is
      assumed to end, i.e. some read is true. Returns the final state, the
      ring index handed to each dispatch, the counters right after each
      completion, and how many reads were made. */
  method Run(r: Runner, now: int, checkpoints: seq<bool>)
      returns (final: Runner, dispatched: seq<nat>, observed: seq<Counters>, haltReads: nat)
    requires r.ringLength >= 1
    requires exists j :: 0 <= j < |checkpoints| && checkpoints[j]
    ensures 1 <= haltReads <= |checkpoints| && checkpoints[haltReads - 1]
    ensures forall c :: 0 <= c < haltReads - 1 ==> !checkpoints[c]
    ensures |dispatched| == haltReads / 2
    ensures forall t :: 0 <= t < |dispatched| ==> dispatched[t] == t % r.ringLength
    ensures |observed| == |dispatched|
    ensures forall t :: 0 <= t < |observed| ==> observed[t] == CountersAfter(r.n, t + 1)
    ensures final == Enter(r, now).(haltRequested := true)
  {
    var s := Enter(r, now);
    ghost var j :| 0 <= j < |checkpoints| && checkpoints[j];
    var i := 0;
    var c := 0;
    dispatched := [];
    observed := [];
    while true
      invariant c == 2 * |dispatched| && c <= j
      invariant forall c' :: 0 <= c' < c ==> !checkpoints[c']
      invariant 0 <= i < r.ringLength && i == |dispatched| % r.ringLength
      invariant forall t :: 0 <= t < |dispatched| ==> dispatched[t] == t % r.ringLength
      invariant |observed| == |dispatched|
      invariant forall t :: 0 <= t < |observed| ==> observed[t] == Accumulated(r.n, t + 1)
      invariant s.n == r.n && s.ringLength == r.ringLength && s.startTime == now && !s.haltRequested
      invariant Counters(s.operations, s.completions) == Accumulated(r.n, |dispatched|)
      decreases |checkpoints| - c
    {
      if checkpoints[c] {
        haltReads := c + 1;
        break;
      }
      // dispatch on ring[i] and wait for completion
      dispatched := dispatched + [i];
      s := s.(operations := Wrap64(s.operations + OpsPerDispatch(s.n)),
              completions := Wrap64(s.completions + 1));
      observed := observed + [Counters(s.operations, s.completions)];
      if checkpoints[c + 1] {
        haltReads := c + 2;
        break;
      }
      Arith.ModStep(|dispatched| - 1, r.ringLength);
      i := (i + 1) % r.ringLength;
      c := c + 2;
    }
    final := s.(haltRequested := true, operations := 0, completions := 0);
    forall t | 0 <= t < |observed|
      ensures observed[t] == CountersAfter(r.n, t + 1)
    {
      AccumulatedClosedForm(r.n, t + 1);
    }
  }

  /** The ring index advanced by `(i + 1) % len` from 0, t times. */
  function RingIndex(len: nat, t: nat): nat
    requires len >= 1
  {
    if t == 0 then 0 else (RingIndex(len, t - 1) + 1) % len
  }

  /** The ring index after t steps is t mod len: it stays in range and
      repeats with period exactly len, never earlier. */
  lemma RingIndexCycles(len: nat, t: nat)
    requires len >= 1
    ensures RingIndex(len, t) == t % len < len
    ensures RingIndex(len, t + len) == RingIndex(len, t)
    ensures forall q :: t < q < t + len ==> RingIndex(len, q) != RingIndex(len, t)
  {
    RingIndexIsMod(len, t);
    RingIndexIsMod(len, t + len);
    Arith.ModPeriod(len, t);
    forall q | t < q < t + len ensures RingIndex(len, q) != RingIndex(len, t) {
      RingIndexIsMod(len, q);
      Arith.ModDistinct(len, t, q - t);
    }
  }

  lemma {:induction false} RingIndexIsMod(len: nat, t: nat)
    requires len >= 1
    ensures RingIndex(len, t) == t % len
    decreases t
  {
    if t > 0 {
      RingIndexIsMod(len, t - 1);
      Arith.ModStep(t - 1, len);
    }
  }

  /** While neither counter has wrapped, neither decreases from one
      completion to a later one. */
  lemma CountersNonDecreasing(n: nat, k1: nat, k2: nat)
    requires k1 <= k2 < U64
    requires 2 * k2 * Cube(n) < U64
    ensures CountersAfter(n, k1).operations <= CountersAfter(n, k2).operations
    ensures CountersAfter(n, k1).completions <= CountersAfter(n, k2).completions
  {
    var m := Cube(n);
    Arith.MulNonNegative(2 * k1, m);
    Arith.MulMonotone(2 * k1, 2 * k2, m);
  }

  /** N = 1024, a ring of four buffers, and halt seen right after the third
      completion: the operation counter reads 3 * 2 * 1024^3 just before
      `Run` returns, and 0 once it has. */
  method ThreeDispatchScenario() returns (midRun: nat, afterRun: nat, dispatches: nat)
    ensures midRun == 3 * 2 * 1024 * 1024 * 1024
    ensures afterRun == 0
    ensures dispatches == 3
  {
    var r := Runner(1024, 4, false, 0, 0, 0);
    var checkpoints := [false, false, false, false, false, true];
    assert checkpoints[5];
    var final, dispatched, observed, haltReads := Run(r, 0, checkpoints);
    assert haltReads == 6;
    midRun := observed[2].operations;
    afterRun := final.operations;
    dispatches := |dispatched|;
  }

  // ---------------------------------------------------------------------
  // MFLOPS

  /** The `MFLOPS` getter: `operations / 1e6 * frequency / elapsedTicks` in
      `ulong` arithmetic once a dispatch has completed, else 0. The source
      divides by the elapsed ticks only in the first case, so those must
      then be non-zero. */
  function Mflops(r: Runner, now: int, frequency: int): (m: nat)
    requires r.completions > 0 ==> Wrap64(now - r.startTime) != 0
    ensures r.completions == 0 ==> m == 0
    ensures r.completions > 0 && 0 < now - r.startTime < U64 && 0 <= frequency &&
            (r.operations / 1000000) * frequency < U64 ==>
              m * (now - r.startTime) <= (r.operations / 1000000) * frequency < (m + 1) * (now - r.startTime)
  {
    if r.completions > 0 then
      MflopsQuotient(r.operations / 1000000, frequency, now - r.startTime);
      Wrap64((r.operations / 1000000) * Wrap64(frequency)) / Wrap64(now - r.startTime)
    else 0
  }

  /** When nothing overflows, the `ulong` quotient is the floor of the
      mathematical one. */
  lemma MflopsQuotient(w: nat, f: int, e: int)
    requires Wrap64(e) != 0
    ensures var m := Wrap64(w * Wrap64(f)) / Wrap64(e);
            0 < e < U64 && 0 <= f && w * f < U64 ==> m * e <= w * f < (m + 1) * e
  {
    if 0 < e < U64 && 0 <= f && w * f < U64 {
      var wf := w * f;
      assert Wrap64(e) == e;
      if w == 0 {
        assert w * Wrap64(f) == 0;
      } else {
        Arith.MulAtLeastOne(f, w);
        assert f <= wf < U64;
        assert Wrap64(f) == f;
        assert w * Wrap64(f) == wf;
        assert Wrap64(wf) == wf;
        Arith.FloorDivision(wf, e);
      }
    }
  }
}
