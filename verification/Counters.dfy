/** Reads of the two free-running 64-bit counters, mtime and mcycle, which move between any two accesses. */
module Counters {
  import opened Arith

  /** What the counters have reached at one bus or CSR access, unbounded. */
  datatype Sample = Sample(mtime: nat, cycle: nat)

  function Low(x: int): nat { x % 0x1_0000_0000 }
  function High(x: nat): nat { x / 0x1_0000_0000 % 0x1_0000_0000 }
  function Word64(x: nat): nat { x % 0x1_0000_0000_0000_0000 }

  /** 32-bit subtraction. */
  function Sub32(a: int, b: int): nat { (a - b) % 0x1_0000_0000 }

  /** Counters do not run backwards, and pass every value in time. */
  ghost predicate Running(env: nat -> Sample) {
    && (forall t: nat, u: nat :: t <= u ==> env(t).mtime <= env(u).mtime && env(t).cycle <= env(u).cycle)
    && (forall T: nat :: Reaches(env, T))
  }

  ghost predicate Reaches(env: nat -> Sample, T: nat) { exists u: nat :: env(u).mtime >= T }

  lemma BeforeReach(env: nat -> Sample, t: nat, u: nat, T: nat)
    requires Running(env) && env(t).mtime < T <= env(u).mtime
    ensures t < u
  {
  }

  /** The next turn of the low word of mtime, and an access at which it has begun. */
  lemma NextTurn(env: nat -> Sample, t: nat) returns (T: nat, u: nat)
    requires Running(env)
    ensures Low(T) == 0 && env(t).mtime < T <= env(u).mtime
  {
    T := (env(t).mtime / 0x1_0000_0000 + 1) * 0x1_0000_0000;
    assert Reaches(env, T);
    u :| env(u).mtime >= T;
  }

  // ---------- tearing ----------

  /** The 64-bit value v was held by a counter that went from a to c. */
  ghost predicate Held(v: nat, a: nat, c: nat) {
    exists x: nat :: a <= x <= c && Word64(x) == v
  }

  lemma Halves(x: nat)
    ensures Word64(x) == High(x) * 0x1_0000_0000 + Low(x)
  {
  }

  /** High half, low half and high half again, read while the counter goes a <= b <= c: if the two high
      halves agree and the counter advanced by at most 2^64 - 2^32, nothing is torn. */
  lemma NotTorn(a: nat, b: nat, c: nat)
    requires a <= b <= c <= a + 0xFFFF_FFFF_0000_0000 && High(a) == High(c)
    ensures High(a) * 0x1_0000_0000 + Low(b) == Word64(b)
  {
    var ha, hb, hc := a / 0x1_0000_0000, b / 0x1_0000_0000, c / 0x1_0000_0000;
    assert ha <= hb <= hc <= ha + 0xFFFF_FFFF;
    assert ha % 0x1_0000_0000 == hc % 0x1_0000_0000;
    assert ha == hc;
    Halves(b);
  }

  /** The bound is exact: from 2^64 - 2^32 + 1 on, the high half can come round to the same value. */
  lemma TearingBound(B: nat)
    ensures B <= 0xFFFF_FFFF_0000_0000 <==>
      forall a: nat, b: nat, c: nat :: a <= b <= c <= a + B && High(a) == High(c) ==>
        Held(High(a) * 0x1_0000_0000 + Low(b), a, c)
  {
    if B <= 0xFFFF_FFFF_0000_0000 {
      forall a: nat, b: nat, c: nat | a <= b <= c <= a + B && High(a) == High(c)
        ensures Held(High(a) * 0x1_0000_0000 + Low(b), a, c)
      {
        NotTorn(a, b, c);
        assert a <= b <= c && Word64(b) == High(a) * 0x1_0000_0000 + Low(b);
      }
    } else {
      var a, b, c := 0xFFFF_FFFF, 0x1_0000_0005, 0x1_0000_0000_0000_0000;
      assert High(a) == High(c) == 0 && Low(b) == 5;
      assert !Held(5, a, c);
    }
  }

  /** Attempt k from access t on takes three accesses; its first and last see the same high half. */
  predicate Quiet(counter: nat -> nat, t: nat, k: nat) {
    High(counter(t + 3 * k)) == High(counter(t + 3 * k + 2))
  }

  ghost predicate QuietAfter(counter: nat -> nat, t: nat) { exists k: nat :: Quiet(counter, t, k) }

  ghost predicate Monotone(counter: nat -> nat) {
    forall i: nat, j: nat :: i <= j ==> counter(i) <= counter(j)
  }

  /** How far the counter moves from the first to the last access of attempt k. */
  function Advance(counter: nat -> nat, t: nat, k: nat): int { counter(t + 3 * k + 2) - counter(t + 3 * k) }

  /** The word put together by attempt k. */
  function Composed(counter: nat -> nat, t: nat, k: nat): nat {
    High(counter(t + 3 * k)) * 0x1_0000_0000 + Low(counter(t + 3 * k + 1))
  }

  /** The retry loop of `get_timer_value` and of `rdmcycle`, from access t on: it ends with the first attempt
      that sees no change of the high half, and then returns what the counter held at that attempt's middle. */
  method ReadWide(counter: nat -> nat, t: nat) returns (v: nat, k: nat)
    requires QuietAfter(counter, t) && Monotone(counter)
    ensures Quiet(counter, t, k) && forall i: nat :: i < k ==> !Quiet(counter, t, i)
    ensures Advance(counter, t, k) <= 0xFFFF_FFFF_0000_0000 ==> v == Word64(counter(t + 3 * k + 1))
  {
    k, v := FirstQuiet(counter, t);
    QuietNotTorn(counter, t, k);
  }

  method FirstQuiet(counter: nat -> nat, t: nat) returns (k: nat, v: nat)
    requires QuietAfter(counter, t)
    ensures Quiet(counter, t, k) && forall i: nat :: i < k ==> !Quiet(counter, t, i)
    ensures v == Composed(counter, t, k)
  {
    ghost var last: nat :| Quiet(counter, t, last);
    k := 0;
    while true
      invariant k <= last
      invariant forall i: nat :: i < k ==> !Quiet(counter, t, i)
      decreases last - k
    {
      var hi := High(counter(t + 3 * k));
      var lo := Low(counter(t + 3 * k + 1));
      if hi == High(counter(t + 3 * k + 2)) {
        return k, hi * 0x1_0000_0000 + lo;
      }
      assert !Quiet(counter, t, k);
      k := k + 1;
    }
  }

  lemma QuietNotTorn(counter: nat -> nat, t: nat, k: nat)
    requires Monotone(counter) && Quiet(counter, t, k)
    ensures Advance(counter, t, k) <= 0xFFFF_FFFF_0000_0000 ==>
              Composed(counter, t, k) == Word64(counter(t + 3 * k + 1))
  {
    if Advance(counter, t, k) <= 0xFFFF_FFFF_0000_0000 {
      NotTorn(counter(t + 3 * k), counter(t + 3 * k + 1), counter(t + 3 * k + 2));
    }
  }

  /** While the counter advances by less than 2^32 the high half changes at most once, so the second attempt
      is quiet if the first is not. */
  lemma TwoAttempts(counter: nat -> nat, t: nat)
    requires Monotone(counter) && counter(t + 5) < counter(t) + 0x1_0000_0000
    ensures Quiet(counter, t, 0) || Quiet(counter, t, 1)
  {
    var a, b, c, d := counter(t), counter(t + 2), counter(t + 3), counter(t + 5);
    assert a <= b <= c <= d;
    assert a / 0x1_0000_0000 <= b / 0x1_0000_0000 <= c / 0x1_0000_0000 <= d / 0x1_0000_0000 <= a / 0x1_0000_0000 + 1;
  }

  // ---------- measuring a frequency ----------

  /** mcycle does not run backwards, and advances by less than 2^32 over six accesses, the length of two attempts
      at reading it. */
  ghost predicate CyclesPaced(env: nat -> Sample) {
    && (forall t: nat, u: nat :: t <= u ==> env(t).cycle <= env(u).cycle)
    && forall t: nat, u: nat :: t <= u <= t + 5 ==> env(u).cycle < env(t).cycle + 0x1_0000_0000
  }

  function CycleCounter(env: nat -> Sample): nat -> nat { u => env(u).cycle }

  lemma CyclesQuiet(env: nat -> Sample, counter: nat -> nat, t: nat)
    requires CyclesPaced(env) && counter == CycleCounter(env)
    ensures Monotone(counter) && QuietAfter(counter, t)
    ensures Quiet(counter, t, 0) || Quiet(counter, t, 1)
    ensures Advance(counter, t, 0) < 0x1_0000_0000 && Advance(counter, t, 1) < 0x1_0000_0000
  {
    assert forall u: nat :: counter(u) == env(u).cycle;
    TwoAttempts(counter, t);
  }

  method ReadCycle(env: nat -> Sample, t: nat) returns (v: nat, k: nat)
    requires CyclesPaced(env)
    ensures k <= 1 && v == Word64(env(t + 3 * k + 1).cycle)
  {
    CyclesQuiet(env, CycleCounter(env), t);
    v, k := ReadWide(CycleCounter(env), t);
  }

  /** Consecutive reads of mtime see it advance by at most one tick, also with a read of mcycle and its retry
      between them. */
  ghost predicate TickByTick(env: nat -> Sample) {
    Running(env) && CyclesPaced(env) && forall t: nat, u: nat :: t <= u <= t + 7 ==> env(u).mtime <= env(t).mtime + 1
  }

  /** Consecutive reads of mtime, with at most one other access between them, are less than g ticks apart. */
  ghost predicate PollsWithin(env: nat -> Sample, g: int) {
    Running(env) && forall t: nat, u: nat :: t <= u <= t + 2 ==> env(u).mtime - env(t).mtime < g
  }

  lemma NoWrap(start: nat, ticks: nat)
    requires start < 0x1_0000_0000 && ticks + 1 < 0x1_0000_0000
    ensures Sub32(start + ticks + 1, 0) >= start <==> start + ticks + 1 < 0x1_0000_0000
    ensures start + ticks + 1 < 0x1_0000_0000 ==> Sub32(start + ticks + 1, 0) == start + ticks + 1
  {
  }

  lemma LowFrom(base: nat, x: nat)
    requires Low(base) == 0 && base <= x < base + 0x1_0000_0000
    ensures Low(x) == x - base
  {
  }

  lemma LowShift(x: int, k: int)
    ensures Low(x - k * 0x1_0000_0000) == Low(x)
  {
  }

  lemma LowBase(x: nat)
    ensures Low(x) <= x && Low(x - Low(x)) == 0
  {
  }

  lemma CycleDifference(a: nat, b: nat)
    ensures Sub32(Word64(b), Word64(a)) == Sub32(b, a)
  {
    var qa, qb := a / 0x1_0000_0000_0000_0000, b / 0x1_0000_0000_0000_0000;
    LowShift(b - a, (qb - qa) * 0x1_0000_0000);
  }

  lemma SameLow(a: nat, b: nat)
    requires a <= b < a + 0x1_0000_0000
    ensures Low(a) == Low(b) <==> a == b
  {
  }

  /** Access a holds the value of a read of mcycle begun right after access s, retried at most once. */
  predicate ReadAfter(s: int, a: int) { a == s + 2 || a == s + 5 }

  /** mtime ticked at access s, stood `ticks` ticks higher at e, and lower at the read of mtime before e; mcycle
      was read at a, right after s, and at b, right after e. */
  ghost predicate Measured(env: nat -> Sample, s: nat, a: nat, e: nat, b: nat, ticks: nat) {
    && 0 < s && ReadAfter(s, a) && a + 2 <= e && ReadAfter(e, b)
    && env(s).mtime == env(s - 1).mtime + 1
    && env(e).mtime == env(s).mtime + ticks
    && env(if e == a + 2 then s else e - 1).mtime < env(e).mtime
  }

  /** mtime ticked at access s and had advanced by at least n, and less than 2^32, at e; mcycle was read right
      after each of the two. */
  ghost predicate Counted(env: nat -> Sample, s: nat, e: nat, n: nat) {
    && 0 < s && s + 1 < e
    && env(s - 1).mtime < env(s).mtime
    && n <= env(e).mtime - env(s).mtime < 0x1_0000_0000
  }

  /** What `measure_cpu_freq` makes of `cycles` counted over `ticks`, and when that is the exact quotient: when the
      product of the remainder and the result fit 32 bits, and so whenever ticks * 32768 is at most 2^32 and the
      result fits. */
  ghost predicate Quotient(cycles: int, ticks: nat, f: nat)
    requires 0 < ticks
  {
    && f == CpuFreq(Low(cycles), ticks, 32768)
    && (0 <= cycles < 0x1_0000_0000 ==>
          && (f == cycles * 32768 / ticks <==>
                cycles % ticks * 32768 < 0x1_0000_0000 && cycles * 32768 / ticks < 0x1_0000_0000)
          && (ticks <= 0x2_0000 && cycles * 32768 / ticks < 0x1_0000_0000 ==> f == cycles * 32768 / ticks))
  }

  /** The result of the measurement between accesses s and e. */
  ghost predicate FrequencyOf(env: nat -> Sample, s: nat, e: nat, f: nat)
    requires Counted(env, s, e, 1)
  {
    Quotient(env(e + 1).cycle - env(s + 1).cycle, env(e).mtime - env(s).mtime, f)
  }

  /** A 32-bit sum of one product and the quotient of another. */
  function Rejoined(a: int, b: int, ticks: nat): nat
    requires 0 < ticks
  {
    Low(Low(a) + Low(b) / ticks)
  }

  /** The return expression of `measure_cpu_freq` in 32-bit arithmetic. */
  function CpuFreq(cycles: nat, ticks: nat, freq: nat): nat
    requires 0 < ticks
  {
    Rejoined(cycles / ticks * freq, cycles % ticks * freq, ticks)
  }

  class Clock {
    const env: nat -> Sample
    var now: nat
    var cpuFreq: nat  // the static cache of `get_cpu_freq`

    constructor (env: nat -> Sample)
      ensures this.env == env && now == 0 && cpuFreq == 0
    {
      this.env, now, cpuFreq := env, 0, 0;
    }

    /** A read of the low word of mtime. */
    method MtimeLow() returns (v: nat)
      modifies this`now
      ensures v == Low(env(old(now)).mtime) && now == old(now) + 1
    {
      v := Low(env(now).mtime);
      now := now + 1;
    }

    /** `rdmcycle`: one or two attempts of three accesses each; the value was held at the last access but one. */
    method Mcycle() returns (v: nat)
      requires CyclesPaced(env)
      modifies this`now
      ensures old(now) + 3 <= now && v == Word64(env(now - 2).cycle) && ReadAfter(old(now) - 1, now - 2)
    {
      var k;
      v, k := ReadCycle(env, now);
      now := now + 3 * k + 3;
    }

    /** The low 32 bits of mcycle, in one access. */
    method McycleLow() returns (v: nat)
      modifies this`now
      ensures v == Low(env(old(now)).cycle) && now == old(now) + 1
    {
      v := Low(env(now).cycle);
      now := now + 1;
    }

    /** A read of mtime and the end value for it: below the read if it wraps, which cannot be after a read of 0. */
    method ReadForEnd(ticks: nat) returns (start: nat, end: nat)
      requires ticks + 1 < 0x1_0000_0000
      modifies this`now
      ensures now == old(now) + 1 && start == Low(env(old(now)).mtime)
      ensures end >= start ==> end == start + ticks + 1 < 0x1_0000_0000
      ensures end < start ==> start != 0
    {
      start := MtimeLow();
      NoWrap(start, ticks);
      end := Sub32(start + ticks + 1, 0);
    }

    /** Read mtime until `ticks + 1` more ticks cannot wrap its low word. */
    method AwaitRoom(ticks: nat) returns (start: nat, end: nat)
      requires TickByTick(env) && ticks + 1 < 0x1_0000_0000
      modifies this`now
      ensures old(now) < now && start == Low(env(now - 1).mtime)
      ensures end == start + ticks + 1 < 0x1_0000_0000
    {
      ghost var T, u := NextTurn(env, now);
      start, end := ReadForEnd(ticks);
      while end < start
        invariant old(now) < now && start == Low(env(now - 1).mtime)
        invariant end >= start ==> end == start + ticks + 1 < 0x1_0000_0000
        invariant end < start ==> start != 0
        invariant env(now - 1).mtime <= T
        decreases u - now
      {
        BeforeReach(env, now - 1, u, T);
        start, end := ReadForEnd(ticks);
      }
    }

    /** Wait until mtime, last read as `tmp`, has changed. */
    method AwaitEdge(tmp: nat) returns (start: nat)
      requires PollsWithin(env, 0x1_0000_0000) && 0 < now && tmp == Low(env(now - 1).mtime)
      modifies this`now
      ensures old(now) < now && start == Low(env(now - 1).mtime)
      ensures env(old(now) - 1).mtime == env(now - 2).mtime < env(now - 1).mtime
    {
      ghost var M := env(now - 1).mtime;
      assert Reaches(env, M + 1);
      ghost var u: nat :| env(u).mtime >= M + 1;
      start := MtimeLow();
      SameLow(M, env(now - 1).mtime);
      while start == tmp
        invariant old(now) < now && start == Low(env(now - 1).mtime)
        invariant env(now - 2).mtime == M <= env(now - 1).mtime && (start == tmp <==> env(now - 1).mtime == M)
        decreases u - now
      {
        BeforeReach(env, now - 1, u, M + 1);
        start := MtimeLow();
        SameLow(M, env(now - 1).mtime);
      }
    }

    /** One poll of that wait, after one at access p that was short of the end. */
    method PollEnd(end: nat, ghost base: nat, ghost p: nat) returns (t: nat)
      requires TickByTick(env) && p < now <= p + 7 && end < 0x1_0000_0000
      requires Low(base) == 0 && base <= env(p).mtime < base + end
      modifies this`now
      ensures now == old(now) + 1 && t == env(now - 1).mtime - base <= end
    {
      t := MtimeLow();
      LowFrom(base, env(now - 1).mtime);
    }

    /** Wait until mtime has reached `end` in its present turn; access p was the last read of it. */
    method AwaitEnd(end: nat, ghost base: nat, ghost p: nat)
      requires TickByTick(env) && p < now <= p + 7 && end < 0x1_0000_0000
      requires Low(base) == 0 && base <= env(p).mtime < base + end
      modifies this`now
      ensures old(now) < now && env(now - 1).mtime == base + end
      ensures env(if now == old(now) + 1 then p else now - 2).mtime < base + end
    {
      assert Reaches(env, base + end);
      ghost var u: nat :| env(u).mtime >= base + end;
      ghost var q := p;
      var t := PollEnd(end, base, q);
      while t < end
        invariant old(now) < now && t == env(now - 1).mtime - base <= end
        invariant q == (if now == old(now) + 1 then p else now - 2) && env(q).mtime < base + end
        decreases u - now
      {
        BeforeReach(env, now - 1, u, base + end);
        q := now - 1;
        t := PollEnd(end, base, q);
      }
    }

    /** Up to the tick the measurement starts from: `end` is `ticks` above it in the same turn of the low word. */
    method AwaitStart(ticks: nat) returns (end: nat, ghost base: nat)
      requires TickByTick(env) && ticks + 1 < 0x1_0000_0000
      modifies this`now
      ensures old(now) < now - 1 && env(now - 1).mtime == env(now - 2).mtime + 1
      ensures end < 0x1_0000_0000 && Low(base) == 0 && env(now - 1).mtime + ticks == base + end
      ensures base <= env(now - 1).mtime
    {
      var start;
      start, end := AwaitRoom(ticks);
      LowBase(env(now - 1).mtime);
      base := env(now - 1).mtime - start;
      start := AwaitEdge(start);
    }

    /** The reads of the measurement: mcycle right after mtime was seen to tick, and right after it was seen
        to have advanced by `ticks` from there. */
    method CountCycles(ticks: nat) returns (c0: nat, c1: nat, ghost s: nat, ghost a: nat, ghost e: nat, ghost b: nat)
      requires TickByTick(env) && 0 < ticks && ticks + 1 < 0x1_0000_0000
      modifies this`now
      ensures old(now) < s && b + 2 == now && Measured(env, s, a, e, b, ticks)
      ensures c0 == Word64(env(a).cycle) && c1 == Word64(env(b).cycle)
    {
      var end;
      ghost var base;
      end, base := AwaitStart(ticks);
      s := now - 1;
      c0 := Mcycle();
      a := now - 2;
      AwaitEnd(end, base, s);
      e := now - 1;
      c1 := Mcycle();
      b := now - 2;
    }

    /** `PRCI_measure_mcycle_freq`.  Access s is the read of mtime that saw the tick, access e the one that
        ended the wait, exactly `ticks` ticks later; the read of mtime before each was still short of it. */
    method MeasureMcycleFreq(ticks: nat, freq: nat)
      returns (f: nat, ghost s: nat, ghost a: nat, ghost e: nat, ghost b: nat)
      requires TickByTick(env) && 0 < ticks && ticks + 1 < 0x1_0000_0000 && freq < 0x1_0000_0000
      modifies this`now
      ensures old(now) < s && b + 2 == now && Measured(env, s, a, e, b, ticks)
      ensures f == Sub32(Sub32(env(b).cycle, env(a).cycle) * freq / ticks, 0)
    {
      var c0, c1;
      c0, c1, s, a, e, b := CountCycles(ticks);
      f := Sub32(Sub32(c1, c0) * freq / ticks, 0);
      CycleDifference(env(a).cycle, env(b).cycle);
    }

    // ---------- measure_cpu_freq ----------

    /** Wait until mtime has advanced by n, in 32-bit arithmetic, since access s two accesses ago. */
    method AwaitDelta(start: nat, n: nat, ghost s: nat) returns (delta: nat)
      requires PollsWithin(env, 0x1_0000_0000 - n) && 0 < n < 0x1_0000_0000
      requires now == s + 2 && start == Low(env(s).mtime)
      modifies this`now
      ensures old(now) < now && n <= delta == env(now - 1).mtime - env(s).mtime < 0x1_0000_0000
    {
      ghost var M := env(s).mtime + n;
      assert Reaches(env, M);
      ghost var u: nat :| env(u).mtime >= M;
      var t := MtimeLow();
      delta := Sub32(t, start);
      LowDelta(env(s).mtime, env(now - 1).mtime);
      while delta < n
        invariant old(now) < now && delta == env(now - 1).mtime - env(s).mtime < 0x1_0000_0000
        decreases u - now
      {
        BeforeReach(env, now - 1, u, M);
        t := MtimeLow();
        delta := Sub32(t, start);
        LowDelta(env(s).mtime, env(now - 1).mtime);
      }
    }

    /** Up to the first read of mcycle, right after mtime was seen to change. */
    method AwaitTick() returns (start: nat, c0: nat)
      requires PollsWithin(env, 0x1_0000_0000)
      modifies this`now
      ensures old(now) + 2 < now && start == Low(env(now - 2).mtime) && c0 == Low(env(now - 1).cycle)
      ensures env(now - 3).mtime < env(now - 2).mtime
    {
      var tmp := MtimeLow();
      start := AwaitEdge(tmp);
      c0 := McycleLow();
    }

    /** The reads of the measurement: both counters at the tick seen at access s, and again at e. */
    method CountTicks(n: nat) returns (c0: nat, c1: nat, delta: nat, ghost s: nat, ghost e: nat)
      requires 0 < n < 0x1_0000_0000 && PollsWithin(env, 0x1_0000_0000 - n)
      modifies this`now
      ensures old(now) < s && now == e + 2 && Counted(env, s, e, n) && delta == env(e).mtime - env(s).mtime
      ensures c0 == Low(env(s + 1).cycle) && c1 == Low(env(e + 1).cycle)
    {
      var start;
      start, c0 := AwaitTick();
      s := now - 2;
      delta := AwaitDelta(start, n, s);
      e := now - 1;
      c1 := McycleLow();
    }

    /** `measure_cpu_freq`: access s saw the tick, access e ended the wait at least n ticks later; the result is
        taken over the ticks that really passed. */
    method MeasureCpuFreq(n: nat) returns (f: nat, ghost s: nat, ghost e: nat)
      requires 0 < n < 0x1_0000_0000 && PollsWithin(env, 0x1_0000_0000 - n)
      modifies this`now
      ensures old(now) < s && now == e + 2 && Counted(env, s, e, n) && FrequencyOf(env, s, e, f)
    {
      var c0, c1, delta;
      c0, c1, delta, s, e := CountTicks(n);
      f := CpuFreq(Sub32(c1, c0), delta, 32768);
      FrequencyIsExact(env(s + 1).cycle, env(e + 1).cycle, delta);
    }

    /** `get_cpu_freq`: measured over at least 10 ticks once, after a warm-up, then served from the cache. */
    method GetCpuFreq() returns (f: nat)
      requires PollsWithin(env, 0x1_0000_0000 - 10)
      modifies this
      ensures f == cpuFreq
      ensures old(cpuFreq) != 0 ==> f == old(cpuFreq) && now == old(now)
      ensures old(cpuFreq) == 0 ==> exists s0: nat, e0: nat, s: nat, e: nat ::
                && old(now) < s0 && Counted(env, s0, e0, 1) && e0 + 2 < s && now == e + 2
                && Counted(env, s, e, 10) && FrequencyOf(env, s, e, f)
    {
      if cpuFreq == 0 {
        ghost var s0, e0, s, e;
        var warm;
        warm, s0, e0 := MeasureCpuFreq(1);
        cpuFreq, s, e := MeasureCpuFreq(10);
      }
      f := cpuFreq;
    }
  }

  lemma FrequencyIsExact(c0: nat, c1: nat, ticks: nat)
    requires 0 < ticks < 0x1_0000_0000
    ensures Quotient(c1 - c0, ticks, CpuFreq(Sub32(Low(c1), Low(c0)), ticks, 32768))
  {
    LowDifference(c0, c1);
    if 0 <= c1 - c0 < 0x1_0000_0000 { QuotientIsExact(c1 - c0, ticks); }
  }

  lemma QuotientIsExact(cycles: nat, ticks: nat)
    requires 0 < ticks < 0x1_0000_0000 && cycles < 0x1_0000_0000
    ensures Quotient(cycles, ticks, CpuFreq(cycles, ticks, 32768))
  {
    assert Low(cycles) == cycles;
    CpuFreqExact(cycles, ticks, 32768);
    if ticks <= 0x2_0000 && cycles * 32768 / ticks < 0x1_0000_0000 { CpuFreqShortRun(cycles, ticks, 32768); }
  }

  lemma LowDelta(a: nat, b: nat)
    requires a <= b < a + 0x1_0000_0000
    ensures Sub32(Low(b), Low(a)) == b - a
  {
  }

  lemma LowDifference(a: nat, b: nat)
    ensures Sub32(Low(b), Low(a)) == Sub32(b - a, 0)
  {
    LowShift(b - a, b / 0x1_0000_0000 - a / 0x1_0000_0000);
  }

  /** The 64-bit product of the measurement does not overflow. */
  lemma ProductFits(difference: nat, freq: nat)
    requires difference < 0x1_0000_0000 && freq < 0x1_0000_0000
    ensures difference * freq < 0x1_0000_0000_0000_0000
  {
    MulMono(difference, 0xFFFF_FFFF, freq);
  }

  // ---------- how good the measurement is ----------

  /** `edge(T)` is the true cycle count at which mtime becomes T. */
  ghost predicate Edges(env: nat -> Sample, edge: nat -> nat) {
    forall t: nat :: edge(env(t).mtime) <= env(t).cycle < edge(env(t).mtime + 1)
  }

  ghost predicate Rising(edge: nat -> nat) {
    forall T: nat, U: nat :: T <= U ==> edge(T) <= edge(U)
  }

  /** A poll, a read of mcycle, a poll and another read of mcycle, retries included, take at most L cycles. */
  ghost predicate Latency(env: nat -> Sample, L: nat) {
    forall t: nat, u: nat :: t <= u <= t + 12 ==> env(u).cycle <= env(t).cycle + L
  }

  /** One cycle an access and eight cycles a tick. */
  function EightPerTick(t: nat): Sample { Sample(t / 8, t) }

  /** These assumptions hold together, of that clock for example. */
  lemma SteadyClock()
    ensures TickByTick(EightPerTick) && PollsWithin(EightPerTick, 2) && Latency(EightPerTick, 12)
    ensures Edges(EightPerTick, T => 8 * T) && Rising(T => 8 * T)
  {
    forall T: nat ensures Reaches(EightPerTick, T) { assert EightPerTick(8 * T).mtime >= T; }
  }

  /** The counted cycles miss the true count between the two ticks by at most the poll latency. */
  lemma CountError(env: nat -> Sample, edge: nat -> nat, L: nat, s: nat, a: nat, e: nat, b: nat, ticks: nat)
    requires Running(env) && Edges(env, edge) && Rising(edge) && Latency(env, L) && Measured(env, s, a, e, b, ticks)
    ensures var exact := edge(env(s).mtime + ticks) - edge(env(s).mtime);
            exact - L <= env(b).cycle - env(a).cycle <= exact + L
  {
    var p := if e == a + 2 then s else e - 1;
    var T, U := env(s).mtime, env(e).mtime;
    assert env(s - 1).cycle < edge(T) <= env(s).cycle <= env(a).cycle <= env(s - 1).cycle + L;
    assert edge(env(p).mtime + 1) <= edge(U);
    assert env(p).cycle < edge(U) <= env(e).cycle <= env(b).cycle <= env(p).cycle + L;
  }

  /** From cycles to hertz: an error of L cycles costs at most L * freq / ticks + 1. */
  lemma FrequencyError(counted: nat, exact: nat, L: nat, freq: nat, ticks: nat)
    requires 0 < ticks && exact <= counted + L && counted <= exact + L
    ensures var f, g, slack := counted * freq / ticks, exact * freq / ticks, L * freq / ticks + 1;
            g <= f + slack && f <= g + slack
  {
    QuotientError(counted, exact, L, freq, ticks);
    QuotientError(exact, counted, L, freq, ticks);
  }

  /** The frequency the driver returns is off by at most the poll latency, converted to hertz, plus 1,
      when the cycle count and the frequency fit 32 bits. */
  lemma MeasurementAccuracy(env: nat -> Sample, edge: nat -> nat, L: nat, s: nat, a: nat, e: nat, b: nat,
                            ticks: nat, freq: nat)
    requires Running(env) && Edges(env, edge) && Rising(edge) && Latency(env, L)
    requires 0 < ticks && Measured(env, s, a, e, b, ticks)
    ensures var counted := env(b).cycle - env(a).cycle;
            var f := Sub32(Sub32(env(b).cycle, env(a).cycle) * freq / ticks, 0);
            var exact := (edge(env(s).mtime + ticks) - edge(env(s).mtime)) * freq / ticks;
            counted < 0x1_0000_0000 && counted * freq / ticks < 0x1_0000_0000 ==>
              exact <= f + L * freq / ticks + 1 && f <= exact + L * freq / ticks + 1
  {
    var counted := env(b).cycle - env(a).cycle;
    var exact := edge(env(s).mtime + ticks) - edge(env(s).mtime);
    assert env(a).cycle <= env(b).cycle && edge(env(s).mtime) <= edge(env(s).mtime + ticks);
    CountError(env, edge, L, s, a, e, b, ticks);
    FrequencyError(counted, exact, L, freq, ticks);
    if counted < 0x1_0000_0000 && counted * freq / ticks < 0x1_0000_0000 {
      NothingCut(counted, freq, ticks);
    }
  }

  lemma NothingCut(counted: nat, freq: nat, ticks: nat)
    requires 0 < ticks && counted < 0x1_0000_0000 && counted * freq / ticks < 0x1_0000_0000
    ensures Sub32(Sub32(counted, 0) * freq / ticks, 0) == counted * freq / ticks
  {
    assert Sub32(counted, 0) == counted;
    QuotientPositive(counted * freq, ticks);
  }

  lemma QuotientError(a: nat, b: nat, L: nat, freq: nat, ticks: nat)
    requires 0 < ticks && a <= b + L
    ensures a * freq / ticks <= b * freq / ticks + L * freq / ticks + 1
  {
    var x, y, z := a * freq, b * freq, L * freq;
    assert x <= y + z by {
      assert (b + L) * freq == y + z;
      assert a * freq <= (b + L) * freq;
    }
    DivSum(x, y, z, ticks);
  }

  // ---------- the division formula ----------

  /** The quotient and the remainder, scaled apart, give the scaled quotient. */
  lemma SplitProduct(cycles: nat, ticks: nat, freq: nat)
    requires 0 < ticks
    ensures cycles * freq / ticks == cycles / ticks * freq + cycles % ticks * freq / ticks
  {
    var q, r := cycles / ticks, cycles % ticks;
    assert cycles * freq == q * freq * ticks + r * freq by {
      assert cycles == q * ticks + r;
    }
    DivShift(q * freq, r * freq, ticks);
  }

  lemma LowAdd(a: nat, b: nat)
    ensures Low(Low(a) + b) == Low(a + b)
  {
    LowShift(a + b, a / 0x1_0000_0000);
  }

  /** `measure_cpu_freq` returns floor(cycles * freq / ticks) without forming that product, exactly when the
      product of the remainder fits 32 bits and so does the result. */
  lemma CpuFreqExact(cycles: nat, ticks: nat, freq: nat)
    requires 0 < ticks < 0x1_0000_0000
    ensures CpuFreq(cycles, ticks, freq) == cycles * freq / ticks
            <==> cycles % ticks * freq < 0x1_0000_0000 && cycles * freq / ticks < 0x1_0000_0000
  {
    SplitProduct(cycles, ticks, freq);
    MulMono(0, cycles % ticks, freq);
    QuotientPositive(cycles, ticks);
    MulMono(0, cycles / ticks, freq);
    RejoinExact(cycles / ticks * freq, cycles % ticks * freq, ticks);
  }

  lemma RejoinExact(a: int, b: nat, ticks: nat)
    requires 0 <= a && 0 < ticks < 0x1_0000_0000
    ensures Rejoined(a, b, ticks) == a + b / ticks <==> b < 0x1_0000_0000 && a + b / ticks < 0x1_0000_0000
  {
    LowQuotient(b, ticks);
    LowSum(a, Low(b) / ticks, b / ticks, b < 0x1_0000_0000);
  }

  lemma LowQuotient(b: nat, ticks: nat)
    requires 0 < ticks < 0x1_0000_0000
    ensures 0 <= Low(b) / ticks
    ensures if b < 0x1_0000_0000 then Low(b) == b else Low(b) / ticks < b / ticks
  {
    QuotientPositive(Low(b), ticks);
    if b >= 0x1_0000_0000 {
      assert Low(b) + 0x1_0000_0000 <= b;
      DivLess(Low(b), b, ticks);
    }
  }

  lemma LowSum(a: nat, u: nat, v: int, small: bool)
    requires if small then u == v else u < v
    ensures Low(Low(a) + u) == a + v <==> small && a + v < 0x1_0000_0000
  {
    LowAdd(a, u);
  }

  /** In particular whenever ticks * freq is at most 2^32, as with 32768 Hz and the 10 ticks of `get_cpu_freq`. */
  lemma CpuFreqShortRun(cycles: nat, ticks: nat, freq: nat)
    requires 0 < ticks < 0x1_0000_0000 && ticks * freq <= 0x1_0000_0000 && cycles * freq / ticks < 0x1_0000_0000
    ensures CpuFreq(cycles, ticks, freq) == cycles * freq / ticks
  {
    MulMono(cycles % ticks + 1, ticks, freq);
    if freq == 0 { assert cycles % ticks * freq == 0; }
    CpuFreqExact(cycles, ticks, freq);
  }

  /** The divisor the start-up code stores for a wanted baud rate. */
  function UartDivisor(freq: nat, baud: nat): nat
    requires 0 < baud
  {
    Sub32(freq / baud, 1)
  }

  /** The divisor is the right one exactly when the clock is at least as fast as the baud rate; otherwise it wraps. */
  lemma UartDivisorFits(freq: nat, baud: nat)
    requires 0 < baud && freq < 0x1_0000_0000
    ensures var div := UartDivisor(freq, baud);
            && ((div + 1) * baud <= freq < (div + 2) * baud <==> baud <= freq)
            && (freq < baud ==> div == 0xFFFF_FFFF)
  {
    var q := freq / baud;
    QuotientPositive(freq, baud);
    QuotientBounds(freq, baud);
    if baud <= freq {
      QuotientAtLeastOne(freq, baud);
      assert Sub32(q, 1) == q - 1;
    } else {
      QuotientIs(freq, baud, 0, freq);
      assert Sub32(0, 1) == 0xFFFF_FFFF;
      MulMono(1, baud, 0x1_0000_0000);
    }
  }
}
