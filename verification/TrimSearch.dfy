/** `PRCI_set_hfrosctrim_for_f_cpu`: a search over the oscillator's trim for a wanted CPU frequency. */
module TrimSearch {
  import opened Prci
  import Counters

  datatype Target = Overshoot | Closest | Undershoot

  /** The least trim from t on that measures at or above d, or 32. */
  function FirstAtLeast(osc: nat -> nat, d: nat, t: nat): (k: nat)
    requires t <= 32
    ensures t <= k <= 32 && (k < 32 ==> osc(k) >= d)
    ensures forall i :: t <= i < k ==> osc(i) < d
    decreases 32 - t
  {
    if t == 32 || osc(t) >= d then t else FirstAtLeast(osc, d, t + 1)
  }

  /** The trim the branches choose.  When even trim 31 is too slow that is the one before it. */
  function Choice(osc: nat -> nat, d: nat, target: Target): (trim: nat)
    ensures trim < 32
  {
    var k := FirstAtLeast(osc, d, 0);
    if k == 32 then 30
    else if k == 0 then 0
    else match target
         case Overshoot => k
         case Closest => if d - osc(k - 1) < osc(k) - d then k - 1 else k
         case Undershoot => k - 1
  }

  // ---------- measuring on the controller's own accesses ----------

  /** What the counters show at the controller's accesses, from access n on. */
  function CountersFrom(env: nat -> Sample, n: nat): nat -> Counters.Sample {
    (t: nat) => Counters.Sample(env(t + n).mtime, env(t + n).cycle)
  }

  /** The counters move slowly enough for the driver's way of measuring. */
  ghost predicate Paced(env: nat -> Sample) { Counters.TickByTick(CountersFrom(env, 0)) }

  lemma PacedFrom(env: nat -> Sample, n: nat)
    requires Paced(env)
    ensures Counters.TickByTick(CountersFrom(env, n))
  {
    assert forall t: nat :: CountersFrom(env, n)(t) == CountersFrom(env, 0)(t + n);
    LaterPaced(CountersFrom(env, 0), CountersFrom(env, n), n);
  }

  lemma LaterReaches(whole: nat -> Counters.Sample, part: nat -> Counters.Sample, n: nat, T: nat)
    requires Counters.Running(whole) && forall t: nat :: part(t) == whole(t + n)
    ensures Counters.Reaches(part, T)
  {
    assert Counters.Reaches(whole, T);
    var u: nat :| whole(u).mtime >= T;
    assert whole(u).mtime <= whole(u + n).mtime == part(u).mtime;
  }

  lemma LaterRunning(whole: nat -> Counters.Sample, part: nat -> Counters.Sample, n: nat)
    requires Counters.Running(whole) && forall t: nat :: part(t) == whole(t + n)
    ensures Counters.Running(part)
  {
    forall T: nat ensures Counters.Reaches(part, T) { LaterReaches(whole, part, n, T); }
  }

  lemma LaterPaced(whole: nat -> Counters.Sample, part: nat -> Counters.Sample, n: nat)
    requires Counters.TickByTick(whole) && forall t: nat :: part(t) == whole(t + n)
    ensures Counters.TickByTick(part)
  {
    LaterRunning(whole, part, n);
    forall t: nat, u: nat | t <= u <= t + 7 ensures part(u).mtime <= part(t).mtime + 1 {
      assert whole(u + n).mtime <= whole(t + n).mtime + 1;
    }
  }

  /** What the measuring routine makes of these reads of the counters. */
  ghost predicate Counted(counters: nat -> Counters.Sample, ticks: nat, rtc: nat, f: nat,
                          s: nat, a: nat, e: nat, b: nat)
    requires 0 < ticks
  {
    && Counters.Measured(counters, s, a, e, b, ticks)
    && f == Counters.Sub32(Counters.Sub32(counters(b).cycle, counters(a).cycle) * rtc / ticks, 0)
  }

  /** f was measured over `ticks` ticks with the registers at r throughout: ticks and cycles are those between the
      accesses s, a, e and b. */
  ghost predicate MeasuredAt(env: nat -> Sample, h: History, r: Regs, ticks: nat, rtc: nat, f: nat,
                             s: nat, a: nat, e: nat, b: nat)
    requires 0 < ticks
  {
    && Formed(h) && 0 < s && b < |h.log| && Counted(CountersFrom(env, 0), ticks, rtc, f, s, a, e, b)
    && forall v | s - 1 <= v <= b :: h.trace[v] == r
  }

  /** Such a measurement, begun after access `from` and over before access `to`. */
  ghost predicate Reading(env: nat -> Sample, h: History, from: nat, to: nat, r: Regs, ticks: nat, rtc: nat, f: nat)
    requires 0 < ticks
  {
    exists s: nat, a: nat, e: nat, b: nat :: from < s && b < to && MeasuredAt(env, h, r, ticks, rtc, f, s, a, e, b)
  }

  lemma ReadingKept(env: nat -> Sample, h: History, k: History, from: nat, to: nat, to': nat,
                    r: Regs, ticks: nat, rtc: nat, f: nat)
    requires 0 < ticks && Formed(k) && Prefix(h, k) && to <= to' && Reading(env, h, from, to, r, ticks, rtc, f)
    ensures Reading(env, k, from, to', r, ticks, rtc, f)
  {
    var s: nat, a: nat, e: nat, b: nat :|
      from < s && b < to && MeasuredAt(env, h, r, ticks, rtc, f, s, a, e, b);
    assert forall v | s - 1 <= v <= b :: k.trace[v] == h.trace[v];
    assert MeasuredAt(env, k, r, ticks, rtc, f, s, a, e, b);
  }

  /** Begun later is begun after an earlier access as well. */
  lemma LaterReading(env: nat -> Sample, h: History, n: nat, m: nat, to: nat, r: Regs, ticks: nat, rtc: nat, f: nat)
    requires 0 < ticks && n <= m && Reading(env, h, m, to, r, ticks, rtc, f)
    ensures Reading(env, h, n, to, r, ticks, rtc, f)
  {
    var s: nat, a: nat, e: nat, b: nat :| m < s && b < to && MeasuredAt(env, h, r, ticks, rtc, f, s, a, e, b);
    assert n < s;
  }

  lemma CountedFrom(env: nat -> Sample, n: nat, ticks: nat, rtc: nat, f: nat, s: nat, a: nat, e: nat, b: nat)
    requires 0 < ticks && Counted(CountersFrom(env, n), ticks, rtc, f, s, a, e, b)
    ensures Counted(CountersFrom(env, 0), ticks, rtc, f, s + n, a + n, e + n, b + n)
  {
    assert forall t: nat :: CountersFrom(env, n)(t) == CountersFrom(env, 0)(t + n);
  }

  /** The measuring routine from access n on; it takes k accesses. */
  method MeasureFrom(env: nat -> Sample, n: nat, ticks: nat, rtc: nat)
    returns (f: nat, k: nat, ghost s: nat, ghost a: nat, ghost e: nat, ghost b: nat)
    requires Paced(env) && 0 < ticks && ticks + 1 < W32 && rtc < W32
    ensures n < s && b + 2 == n + k && Counted(CountersFrom(env, 0), ticks, rtc, f, s, a, e, b)
  {
    PacedFrom(env, n);
    var clock := new Counters.Clock(CountersFrom(env, n));
    f, s, a, e, b := clock.MeasureMcycleFreq(ticks, rtc);
    CountedFrom(env, n, ticks, rtc, f, s, a, e, b);
    k, s, a, e, b := clock.now, s + n, a + n, e + n, b + n;
  }

  /** From h at access n with registers r on to k: the history is kept, and so is the CPU clock. */
  ghost predicate Went(h: History, r: Regs, n: nat, k: History, m: nat) {
    Prefix(h, k) && PoweredIf(r, k, n) && n <= m
  }

  lemma WentOn(h: History, r: Regs, n: nat, h1: History, r1: Regs, n1: nat, k: History, m: nat)
    requires Formed(h1) && n1 == |h1.log| && h1.trace[n1] == r1
    requires Went(h, r, n, h1, n1) && Went(h1, r1, n1, k, m)
    ensures Went(h, r, n, k, m)
  {
    if Powered(r) { PoweredChain(h1, k, n, n1); }
  }

  lemma SteadyWent(h: History, r: Regs, n: nat, k: History, m: nat)
    requires Formed(h) && n == |h.log| && h.trace[n] == r && Steady(h, k, r) && n <= m
    ensures Went(h, r, n, k, m)
  {
    if Powered(r) { PoweredSteady(h, k, n); }
  }

  /** The measuring routine, with its reads among the accesses of the controller. */
  method Measure(c: ClockController, ticks: nat, rtc: nat) returns (f: nat)
    requires c.Valid() && Paced(c.env) && 0 < ticks && ticks + 1 < W32 && rtc < W32
    modifies c
    ensures c.Valid() && Went(old(c.hist), old(c.regs), old(c.now), c.hist, c.now) && c.regs == old(c.regs)
    ensures Reading(c.env, c.hist, old(c.now), c.now, c.regs, ticks, rtc, f)
  {
    ghost var n, s, a, e, b;
    var k;
    n := c.now;
    f, k, s, a, e, b := MeasureFrom(c.env, c.now, ticks, rtc);
    c.Pass(k);
    SteadyWent(old(c.hist), old(c.regs), n, c.hist, c.now);
    assert MeasuredAt(c.env, c.hist, c.regs, ticks, rtc, f, s, a, e, b);
  }

  /** The CPU runs off the PLL, locked with R = 1, F = 31, Q = 1 to the oscillator at this trim. */
  predicate RunningAt(r: Regs, trim: nat) {
    && r.osc == Osc(4, trim, true) && r.plldiv == Div(true, 0)
    && r.pll.r == 1 && r.pll.f == 31 && r.pll.q == 1 && r.pll.sel && !r.pll.crystal && !r.pll.bypass
  }

  method RunFromPll(c: ClockController, trim: nat)
    requires c.Valid() && trim < 32
    modifies c
    ensures c.Valid() && Went(old(c.hist), old(c.regs), old(c.now), c.hist, c.now)
    ensures RunningAt(c.regs, trim)
  {
    c.UsePll(0, false, 1, 31, 1, 1, 4, trim);
  }

  /** The registers with the CPU running off the oscillator at a trim. */
  function AtTrim(r: Regs, trim: nat): Regs { r.(osc := Osc(4, trim, true), pll := r.pll.(sel := false)) }

  /** What was measured at the trims in turn, as a function of the trim. */
  function Readings(fs: seq<nat>): nat -> nat { (i: nat) => if i < |fs| then fs[i] else 0 }

  /** A reading over 3000 ticks of the oscillator at a trim. */
  ghost predicate TrimRead(env: nat -> Sample, h: History, from: nat, to: nat, r: Regs, trim: nat, rtc: nat, f: nat) {
    Reading(env, h, from, to, AtTrim(r, trim), 3000, rtc, f)
  }

  lemma TrimReadKept(env: nat -> Sample, h: History, k: History, from: nat, to: nat, to': nat,
                     r: Regs, trim: nat, rtc: nat, f: nat)
    requires Formed(k) && Prefix(h, k) && to <= to' && TrimRead(env, h, from, to, r, trim, rtc, f)
    ensures TrimRead(env, k, from, to', r, trim, rtc, f)
  {
    ReadingKept(env, h, k, from, to, to', AtTrim(r, trim), 3000, rtc, f);
  }

  /** fs are readings at the trims from 0 on, all of them between two accesses. */
  ghost predicate AllRead(env: nat -> Sample, h: History, from: nat, to: nat, r: Regs, rtc: nat, fs: seq<nat>) {
    forall i: nat {:trigger TrimRead(env, h, from, to, r, i, rtc, fs[i])} | i < |fs| ::
      TrimRead(env, h, from, to, r, i, rtc, fs[i])
  }

  lemma AllReadKept(env: nat -> Sample, h: History, k: History, from: nat, to: nat, to': nat,
                    r: Regs, rtc: nat, fs: seq<nat>)
    requires Formed(k) && Prefix(h, k) && to <= to' && AllRead(env, h, from, to, r, rtc, fs)
    ensures AllRead(env, k, from, to', r, rtc, fs)
  {
    forall i: nat | i < |fs| ensures TrimRead(env, k, from, to', r, i, rtc, fs[i]) {
      assert TrimRead(env, h, from, to, r, i, rtc, fs[i]);
      TrimReadKept(env, h, k, from, to, to', r, i, rtc, fs[i]);
    }
  }

  lemma OneMoreRead(env: nat -> Sample, h: History, k: History, from: nat, to: nat, to': nat,
                    r: Regs, rtc: nat, fs: seq<nat>, f: nat)
    requires Formed(k) && Prefix(h, k) && to <= to' && AllRead(env, h, from, to, r, rtc, fs)
    requires TrimRead(env, k, from, to', r, |fs|, rtc, f)
    ensures AllRead(env, k, from, to', r, rtc, fs + [f])
  {
    AllReadKept(env, h, k, from, to, to', r, rtc, fs);
    forall i: nat | i < |fs| + 1 ensures TrimRead(env, k, from, to', r, i, rtc, (fs + [f])[i]) {
      if i < |fs| { assert TrimRead(env, k, from, to', r, i, rtc, fs[i]); }
    }
  }

  /** The first reading was taken twice, and the second one counts. */
  ghost predicate Twice(env: nat -> Sample, h: History, from: nat, to: nat, r: Regs, rtc: nat, f: nat) {
    exists m: nat, f0: nat :: TrimRead(env, h, from, m, r, 0, rtc, f0) && TrimRead(env, h, m, to, r, 0, rtc, f)
  }

  lemma TwiceKept(env: nat -> Sample, h: History, k: History, from: nat, to: nat, to': nat, r: Regs, rtc: nat, f: nat)
    requires Formed(k) && Prefix(h, k) && to <= to' && Twice(env, h, from, to, r, rtc, f)
    ensures Twice(env, k, from, to', r, rtc, f)
  {
    var m: nat, f0: nat :| TrimRead(env, h, from, m, r, 0, rtc, f0) && TrimRead(env, h, m, to, r, 0, rtc, f);
    TrimReadKept(env, h, k, from, m, m, r, 0, rtc, f0);
    TrimReadKept(env, h, k, m, to, to', r, 0, rtc, f);
  }

  lemma FirstRead(env: nat -> Sample, h: History, k: History, from: nat, m: nat, to: nat, r: Regs, rtc: nat,
                  f0: nat, f: nat)
    requires Formed(k) && Prefix(h, k) && from <= m && TrimRead(env, h, from, m, r, 0, rtc, f0)
    requires TrimRead(env, k, m, to, r, 0, rtc, f)
    ensures Twice(env, k, from, to, r, rtc, f) && AllRead(env, k, from, to, r, rtc, [f])
  {
    TrimReadKept(env, h, k, from, m, m, r, 0, rtc, f0);
    LaterReading(env, k, from, m, to, AtTrim(r, 0), 3000, rtc, f);
  }

  /** The least trim that reached d, or the last one there is. */
  ghost predicate Stops(fs: seq<nat>, d: nat) {
    && 0 < |fs| <= 32 && (forall i: nat | i < |fs| - 1 :: fs[i] < d) && (fs[|fs| - 1] >= d || |fs| == 32)
  }

  lemma StopsAtFirst(fs: seq<nat>, d: nat, i: nat)
    requires Stops(fs, d) && i <= |fs| - 1
    ensures FirstAtLeast(Readings(fs), d, i) == if fs[|fs| - 1] < d then 32 else |fs| - 1
    decreases |fs| - i
  {
    if i < |fs| - 1 { StopsAtFirst(fs, d, i + 1); }
  }

  method SetTrim(c: ClockController, trim: nat)
    requires c.Valid() && trim < 32
    modifies c
    ensures c.Valid() && Went(old(c.hist), old(c.regs), old(c.now), c.hist, c.now)
    ensures c.regs == AtTrim(old(c.regs), trim)
  {
    c.UseHfrosc(4, trim);
  }

  /** Set the oscillator to a trim and measure it. */
  method MeasureTrim(c: ClockController, trim: nat, rtc: nat) returns (f: nat)
    requires c.Valid() && Paced(c.env) && trim < 32 && rtc < W32
    modifies c
    ensures c.Valid() && Went(old(c.hist), old(c.regs), old(c.now), c.hist, c.now)
    ensures c.regs == AtTrim(old(c.regs), trim)
    ensures Reading(c.env, c.hist, old(c.now), c.now, c.regs, 3000, rtc, f)
  {
    SetTrim(c, trim);
    ghost var h, r, n := c.hist, c.regs, c.now;
    f := Measure(c, 3000, rtc);
    WentOn(old(c.hist), old(c.regs), old(c.now), h, r, n, c.hist, c.now);
    LaterReading(c.env, c.hist, old(c.now), n, c.now, c.regs, 3000, rtc, f);
  }

  /** What the loop has come to: readings at the trims up to the present one since the search began, those before it
      all below d. */
  ghost predicate Searched(env: nat -> Sample, h: History, from: nat, to: nat, r: Regs, now: Regs, rtc: nat, d: nat,
                           fs: seq<nat>)
  {
    && 0 < |fs| <= 32 && AllRead(env, h, from, to, r, rtc, fs)
    && now == AtTrim(r, |fs| - 1) && forall i: nat | i < |fs| - 1 :: fs[i] < d
  }

  lemma FirstSearched(env: nat -> Sample, h: History, k: History, from: nat, m: nat, to: nat, r: Regs, now: Regs,
                      rtc: nat, d: nat, f0: nat, f: nat)
    requires Formed(k) && Prefix(h, k) && from <= m && now == AtTrim(r, 0)
    requires Reading(env, h, from, m, now, 3000, rtc, f0) && Reading(env, k, m, to, now, 3000, rtc, f)
    ensures Searched(env, k, from, to, r, now, rtc, d, [f]) && Twice(env, k, from, to, r, rtc, f)
  {
    FirstRead(env, h, k, from, m, to, r, rtc, f0, f);
  }

  /** The first measurement, taken twice. */
  method MeasureFirst(c: ClockController, d: nat, rtc: nat) returns (f: nat)
    requires c.Valid() && Paced(c.env) && rtc < W32
    modifies c
    ensures c.Valid() && Went(old(c.hist), old(c.regs), old(c.now), c.hist, c.now)
    ensures Searched(c.env, c.hist, old(c.now), c.now, old(c.regs), c.regs, rtc, d, [f])
    ensures Twice(c.env, c.hist, old(c.now), c.now, old(c.regs), rtc, f)
  {
    var f0 := MeasureTrim(c, 0, rtc);
    ghost var h, r, n := c.hist, c.regs, c.now;
    f := Measure(c, 3000, rtc);
    WentOn(old(c.hist), old(c.regs), old(c.now), h, r, n, c.hist, c.now);
    FirstSearched(c.env, h, c.hist, old(c.now), n, c.now, old(c.regs), c.regs, rtc, d, f0, f);
  }

  lemma NextSearched(env: nat -> Sample, h: History, k: History, from: nat, to: nat, to': nat, r: Regs, now: Regs,
                     rtc: nat, d: nat, fs: seq<nat>, f: nat)
    requires Formed(k) && Prefix(h, k) && from <= to <= to' && Searched(env, h, from, to, r, now, rtc, d, fs)
    requires |fs| < 32 && fs[|fs| - 1] < d && TrimRead(env, k, to, to', r, |fs|, rtc, f)
    ensures Searched(env, k, from, to', r, AtTrim(r, |fs|), rtc, d, fs + [f])
  {
    LaterReading(env, k, from, to, to', AtTrim(r, |fs|), 3000, rtc, f);
    OneMoreRead(env, h, k, from, to, to', r, rtc, fs, f);
  }

  /** The measurement at the next trim.  The search began at access n0 with h0 and r0. */
  method MeasureNext(c: ClockController, trim: nat, d: nat, rtc: nat,
                     ghost h0: History, ghost r0: Regs, ghost n0: nat, ghost fs: seq<nat>) returns (f: nat)
    requires c.Valid() && Paced(c.env) && rtc < W32 && |fs| == trim < 32 && Went(h0, r0, n0, c.hist, c.now)
    requires Searched(c.env, c.hist, n0, c.now, r0, c.regs, rtc, d, fs) && fs[trim - 1] < d
    modifies c
    ensures c.Valid() && Went(h0, r0, n0, c.hist, c.now) && Prefix(old(c.hist), c.hist)
    ensures Searched(c.env, c.hist, n0, c.now, r0, c.regs, rtc, d, fs + [f])
  {
    ghost var h, r, n := c.hist, c.regs, c.now;
    f := MeasureTrim(c, trim, rtc);
    NextSearched(c.env, h, c.hist, n0, n, c.now, r0, r, rtc, d, fs, f);
    WentOn(h0, r0, n0, h, r, n, c.hist, c.now);
  }

  /** The loop: raise the trim until the measurement reaches d or the trim its maximum. */
  method Climb(c: ClockController, d: nat, rtc: nat, first: nat, ghost h0: History, ghost r0: Regs, ghost n0: nat)
    returns (trim: nat, prevTrim: nat, cpuFreq: nat, prevFreq: nat, ghost fs: seq<nat>)
    requires c.Valid() && Paced(c.env) && rtc < W32 && Went(h0, r0, n0, c.hist, c.now)
    requires Searched(c.env, c.hist, n0, c.now, r0, c.regs, rtc, d, [first])
    modifies c
    ensures c.Valid() && Went(h0, r0, n0, c.hist, c.now) && Prefix(old(c.hist), c.hist) && old(c.now) <= c.now
    ensures Searched(c.env, c.hist, n0, c.now, r0, c.regs, rtc, d, fs) && Stops(fs, d) && fs[0] == first
    ensures trim == |fs| - 1 && prevTrim == (if trim == 0 then 0 else trim - 1)
    ensures cpuFreq == fs[trim] && prevFreq == fs[prevTrim]
  {
    trim, prevTrim, cpuFreq, prevFreq := 0, 0, first, first;
    fs := [cpuFreq];
    while cpuFreq < d && trim < 31
      invariant c.Valid() && Went(h0, r0, n0, c.hist, c.now) && Prefix(old(c.hist), c.hist) && old(c.now) <= c.now
      invariant Searched(c.env, c.hist, n0, c.now, r0, c.regs, rtc, d, fs) && fs[0] == first
      invariant trim == |fs| - 1 && prevTrim == (if trim == 0 then 0 else trim - 1)
      invariant cpuFreq == fs[trim] && prevFreq == fs[prevTrim]
      decreases 31 - trim
    {
      prevTrim, prevFreq := trim, cpuFreq;
      trim := trim + 1;
      cpuFreq := MeasureNext(c, trim, d, rtc, h0, r0, n0, fs);
      fs := fs + [cpuFreq];
    }
  }

  /** The search: the first measurement twice, then the loop. */
  method Search(c: ClockController, d: nat, rtc: nat)
    returns (trim: nat, prevTrim: nat, cpuFreq: nat, prevFreq: nat, ghost fs: seq<nat>)
    requires c.Valid() && Paced(c.env) && rtc < W32
    modifies c
    ensures c.Valid() && Went(old(c.hist), old(c.regs), old(c.now), c.hist, c.now)
    ensures Searched(c.env, c.hist, old(c.now), c.now, old(c.regs), c.regs, rtc, d, fs) && Stops(fs, d)
    ensures Twice(c.env, c.hist, old(c.now), c.now, old(c.regs), rtc, fs[0])
    ensures trim == |fs| - 1 && prevTrim == (if trim == 0 then 0 else trim - 1)
    ensures cpuFreq == fs[trim] && prevFreq == fs[prevTrim]
  {
    var first := MeasureFirst(c, d, rtc);
    ghost var h, n := c.hist, c.now;
    trim, prevTrim, cpuFreq, prevFreq, fs := Climb(c, d, rtc, first, old(c.hist), old(c.regs), old(c.now));
    TwiceKept(c.env, h, c.hist, old(c.now), n, c.now, old(c.regs), rtc, first);
  }

  /** The branches after the loop: which trim the PLL is fed with.  No unsigned difference underflows. */
  method Decide(d: nat, target: Target, trim: nat, prevTrim: nat, cpuFreq: nat, prevFreq: nat, ghost osc: nat -> nat)
    returns (chosen: nat)
    requires prevTrim == (if trim == 0 then 0 else trim - 1) && cpuFreq == osc(trim) && prevFreq == osc(prevTrim)
    requires var k := FirstAtLeast(osc, d, 0); trim == if k == 32 then 31 else k
    ensures chosen == Choice(osc, d, target)
  {
    if prevFreq > d || cpuFreq < d {
      return prevTrim;
    }
    match target {
      case Closest =>
        var below: nat, above: nat := d - prevFreq, cpuFreq - d;
        return if below < above then prevTrim else trim;
      case Undershoot => return prevTrim;
      case Overshoot => return trim;
    }
  }

  method DecideFrom(d: nat, target: Target, trim: nat, prevTrim: nat, cpuFreq: nat, prevFreq: nat, ghost fs: seq<nat>)
    returns (chosen: nat)
    requires Stops(fs, d) && trim == |fs| - 1 && prevTrim == (if trim == 0 then 0 else trim - 1)
    requires cpuFreq == fs[trim] && prevFreq == fs[prevTrim]
    ensures chosen == Choice(Readings(fs), d, target)
  {
    StopsAtFirst(fs, d, 0);
    chosen := Decide(d, target, trim, prevTrim, cpuFreq, prevFreq, Readings(fs));
  }

  /** Search and decide: the chosen trim, with the CPU left running off the oscillator. */
  method ChooseTrim(c: ClockController, d: nat, target: Target, rtc: nat) returns (chosen: nat, ghost fs: seq<nat>)
    requires c.Valid() && Paced(c.env) && rtc < W32
    modifies c
    ensures c.Valid() && Went(old(c.hist), old(c.regs), old(c.now), c.hist, c.now)
    ensures Stops(fs, d) && AllRead(c.env, c.hist, old(c.now), c.now, old(c.regs), rtc, fs)
    ensures Twice(c.env, c.hist, old(c.now), c.now, old(c.regs), rtc, fs[0])
    ensures chosen == Choice(Readings(fs), d, target) && !c.regs.pll.sel
  {
    var trim, prevTrim, cpuFreq, prevFreq;
    trim, prevTrim, cpuFreq, prevFreq, fs := Search(c, d, rtc);
    chosen := DecideFrom(d, target, trim, prevTrim, cpuFreq, prevFreq, fs);
  }

  /** Run off the PLL at a trim and measure that. */
  method RunAndMeasure(c: ClockController, trim: nat, rtc: nat) returns (f: nat)
    requires c.Valid() && Paced(c.env) && trim < 32 && rtc < W32
    modifies c
    ensures c.Valid() && Went(old(c.hist), old(c.regs), old(c.now), c.hist, c.now)
    ensures RunningAt(c.regs, trim) && Reading(c.env, c.hist, old(c.now), c.now, c.regs, 1000, rtc, f)
  {
    RunFromPll(c, trim);
    ghost var h, r, n := c.hist, c.regs, c.now;
    f := Measure(c, 1000, rtc);
    WentOn(old(c.hist), old(c.regs), old(c.now), h, r, n, c.hist, c.now);
    LaterReading(c.env, c.hist, old(c.now), n, c.now, c.regs, 1000, rtc, f);
  }

  /** The whole routine; a 16th of the wanted CPU frequency is wanted of the oscillator. */
  method SetHfrosctrimForFCpu(c: ClockController, fCpu: nat, target: Target, rtc: nat)
    returns (f: nat, ghost fs: seq<nat>)
    requires c.Valid() && Paced(c.env) && rtc < W32
    modifies c
    ensures c.Valid() && Went(old(c.hist), old(c.regs), old(c.now), c.hist, c.now)
    ensures Stops(fs, fCpu / 16) && RunningAt(c.regs, Choice(Readings(fs), fCpu / 16, target))
    ensures exists n: nat :: old(c.now) <= n <= c.now
              && AllRead(c.env, c.hist, old(c.now), n, old(c.regs), rtc, fs)
              && Twice(c.env, c.hist, old(c.now), n, old(c.regs), rtc, fs[0])
              && Reading(c.env, c.hist, n, c.now, c.regs, 1000, rtc, f)
  {
    var chosen;
    chosen, fs := ChooseTrim(c, fCpu / 16, target, rtc);
    ghost var h, r, n := c.hist, c.regs, c.now;
    f := RunAndMeasure(c, chosen, rtc);
    WentOn(old(c.hist), old(c.regs), old(c.now), h, r, n, c.hist, c.now);
    AllReadKept(c.env, h, c.hist, old(c.now), n, n, old(c.regs), rtc, fs);
    TwiceKept(c.env, h, c.hist, old(c.now), n, n, old(c.regs), rtc, fs[0]);
  }

  // ---------- what the choice means ----------

  /** A higher trim never measures slower. */
  ghost predicate Rises(osc: nat -> nat) {
    forall i: nat, j: nat :: i <= j < 32 ==> osc(i) <= osc(j)
  }

  function Distance(a: nat, b: nat): nat { if a < b then b - a else a - b }

  /** Whether the search stops before trim 32, and at trim 0. */
  lemma WhereItStops(osc: nat -> nat, d: nat)
    requires Rises(osc)
    ensures FirstAtLeast(osc, d, 0) == 32 <==> osc(31) < d
    ensures FirstAtLeast(osc, d, 0) == 0 <==> d <= osc(0)
  {
  }

  /** Overshoot takes the least of the trims that reach d exactly when d is within reach. */
  lemma OvershootIsLeast(osc: nat -> nat, d: nat)
    requires Rises(osc)
    ensures var t := Choice(osc, d, Overshoot);
            osc(t) >= d && (forall i: nat :: i < 32 && osc(i) >= d ==> t <= i) <==> d <= osc(31)
  {
    WhereItStops(osc, d);
    assert osc(30) <= osc(31);
  }

  /** Undershoot stays at or below d exactly when some trim does. */
  lemma UndershootIsBelow(osc: nat -> nat, d: nat)
    requires Rises(osc)
    ensures osc(Choice(osc, d, Undershoot)) <= d <==> osc(0) <= d
  {
    WhereItStops(osc, d);
    assert osc(30) <= osc(31);
  }

  /** A fastest one of the trims that stay at or below d. */
  ghost predicate BestBelow(osc: nat -> nat, d: nat, t: nat) {
    osc(t) <= d && forall i: nat :: i < 32 && osc(i) <= d ==> osc(i) <= osc(t)
  }

  lemma BestOfLower(osc: nat -> nat, d: nat, k: nat)
    requires Rises(osc) && 0 < k < 32 && osc(k - 1) < d <= osc(k)
    ensures BestBelow(osc, d, k - 1) <==> forall i: nat :: i < 32 ==> osc(i) != d
  {
    forall i: nat | i < 32 && osc(i) < d ensures osc(i) <= osc(k - 1) {
      assert i <= k - 1;
    }
  }

  lemma BestBeyond(osc: nat -> nat, d: nat)
    requires Rises(osc) && osc(31) < d
    ensures BestBelow(osc, d, 30) <==> osc(30) == osc(31)
    ensures forall i: nat :: i < 32 ==> osc(i) != d
  {
    assert forall i: nat :: i < 32 ==> osc(i) <= osc(31);
  }

  /** When undershoot takes such a trim: a later trim that measures exactly d is passed over, and so is trim 31
      when d is out of reach. */
  lemma UndershootIsBest(osc: nat -> nat, d: nat)
    requires Rises(osc)
    ensures BestBelow(osc, d, Choice(osc, d, Undershoot)) <==>
      || osc(0) == d
      || (osc(0) < d && (forall i: nat :: i < 32 ==> osc(i) != d) && (d <= osc(31) || osc(30) == osc(31)))
  {
    WhereItStops(osc, d);
    var k := FirstAtLeast(osc, d, 0);
    if k == 32 { BestBeyond(osc, d); } else if k > 0 { BestOfLower(osc, d, k); }
  }

  /** A target below what trim 0 measures: whatever was asked for, trim 0, and no trim is slower. */
  lemma BelowReach(osc: nat -> nat, d: nat, target: Target)
    requires Rises(osc) && d < osc(0)
    ensures Choice(osc, d, target) == 0 && forall i: nat :: i < 32 ==> osc(Choice(osc, d, target)) <= osc(i)
  {
  }

  /** A target beyond trim 31: whatever was asked for, trim 30, and no trim but 31 is faster. */
  lemma AboveReach(osc: nat -> nat, d: nat, target: Target)
    requires Rises(osc) && osc(31) < d
    ensures Choice(osc, d, target) == 30 && forall i: nat :: i < 31 ==> osc(i) <= osc(Choice(osc, d, target))
  {
    WhereItStops(osc, d);
  }

  /** A target from one trim to the next: overshoot takes the upper, undershoot the lower, closest the lower one only if
      it is nearer; a target that trim 0 measures exactly gets trim 0. */
  lemma WithinReach(osc: nat -> nat, d: nat, k: nat)
    requires Rises(osc) && k < 32 && d <= osc(k) && (k == 0 || osc(k - 1) < d) && (k == 0 ==> osc(0) == d)
    ensures k > 0 ==> Choice(osc, d, Overshoot) == k && Choice(osc, d, Undershoot) == k - 1
    ensures k > 0 ==> Choice(osc, d, Closest) == if osc(k - 1) + osc(k) > 2 * d then k - 1 else k
    ensures k == 0 ==> forall target :: Choice(osc, d, target) == 0
  {
    assert k > 0 ==> forall i: nat :: i < k ==> osc(i) <= osc(k - 1);
  }

  /** No trim of the 32 is nearer to d. */
  ghost predicate Nearest(osc: nat -> nat, d: nat, t: nat) {
    forall i: nat :: i < 32 ==> Distance(osc(t), d) <= Distance(osc(i), d)
  }

  lemma NearestOfTwo(osc: nat -> nat, d: nat, k: nat, t: nat)
    requires Rises(osc) && k < 32 && d <= osc(k) && (k == 0 || osc(k - 1) < d)
    requires Distance(osc(t), d) <= Distance(osc(k), d) && (k > 0 ==> Distance(osc(t), d) <= Distance(osc(k - 1), d))
    ensures Nearest(osc, d, t)
  {
    forall i: nat | i < 32 ensures Distance(osc(t), d) <= Distance(osc(i), d) {
      if i < k { assert osc(i) <= osc(k - 1); } else { assert osc(k) <= osc(i); }
    }
  }

  lemma NearestBeyond(osc: nat -> nat, d: nat)
    requires Rises(osc) && osc(31) < d
    ensures Nearest(osc, d, 30) <==> osc(30) == osc(31)
  {
    assert forall i: nat :: i < 32 ==> osc(i) <= osc(31);
  }

  /** Closest takes a trim nearest to d exactly when d is within reach or trim 31 measures no more than 30. */
  lemma ClosestIsClosest(osc: nat -> nat, d: nat)
    requires Rises(osc)
    ensures Nearest(osc, d, Choice(osc, d, Closest)) <==> d <= osc(31) || osc(30) == osc(31)
  {
    WhereItStops(osc, d);
    var k := FirstAtLeast(osc, d, 0);
    if k < 32 { NearestOfTwo(osc, d, k, Choice(osc, d, Closest)); } else { NearestBeyond(osc, d); }
  }

  // ---------- what the readings mean ----------

  /** The true frequency between two ticks, when the cycle count at tick T is edge(T). */
  function TrueFreq(edge: nat -> nat, T: nat, ticks: nat, rtc: nat): int
    requires 0 < ticks
  {
    (edge(T + ticks) - edge(T)) * rtc / ticks
  }

  /** f is within the poll latency L, converted to hertz, plus 1, of the true frequency. */
  predicate Near(f: int, truth: int, L: nat, rtc: nat, ticks: nat)
    requires 0 < ticks
  {
    truth <= f + L * rtc / ticks + 1 && f <= truth + L * rtc / ticks + 1
  }

  lemma CountedNear(counters: nat -> Counters.Sample, edge: nat -> nat, L: nat, ticks: nat, rtc: nat, f: nat,
                    s: nat, a: nat, e: nat, b: nat)
    requires Counters.Running(counters) && Counters.Edges(counters, edge) && Counters.Rising(edge)
    requires Counters.Latency(counters, L) && 0 < ticks && Counted(counters, ticks, rtc, f, s, a, e, b)
    ensures var counted := counters(b).cycle - counters(a).cycle;
            counted < W32 && counted * rtc / ticks < W32 ==>
              Near(f, TrueFreq(edge, counters(s).mtime, ticks, rtc), L, rtc, ticks)
  {
    Counters.MeasurementAccuracy(counters, edge, L, s, a, e, b, ticks, rtc);
  }

  /** A reading is near the true frequency over its ticks, if what it counted fits 32 bits. */
  lemma ReadingAccuracy(env: nat -> Sample, edge: nat -> nat, L: nat, h: History, r: Regs, ticks: nat, rtc: nat, f: nat,
                        s: nat, a: nat, e: nat, b: nat)
    requires Paced(env) && Counters.Edges(CountersFrom(env, 0), edge) && Counters.Rising(edge)
    requires Counters.Latency(CountersFrom(env, 0), L)
    requires 0 < ticks && MeasuredAt(env, h, r, ticks, rtc, f, s, a, e, b)
    ensures var counters := CountersFrom(env, 0);
            var counted := counters(b).cycle - counters(a).cycle;
            counted < W32 && counted * rtc / ticks < W32 ==>
              Near(f, TrueFreq(edge, counters(s).mtime, ticks, rtc), L, rtc, ticks)
  {
    CountedNear(CountersFrom(env, 0), edge, L, ticks, rtc, f, s, a, e, b);
  }

  /** If every reading is within err of what the oscillator really makes of its trim, and one reached d, then the
      frequency chosen to overshoot is at most err short of d with all lower trims less than err above it, and the
      one chosen to undershoot is less than err above d with the next trim at most err short of it. */
  lemma ChoiceWithin(fs: seq<nat>, d: nat, hz: nat -> nat, err: nat)
    requires Stops(fs, d) && fs[|fs| - 1] >= d
    requires forall i: nat | i < |fs| :: fs[i] <= hz(i) + err && hz(i) <= fs[i] + err
    ensures var t := Choice(Readings(fs), d, Overshoot);
            d <= hz(t) + err && forall i: nat | i < t :: hz(i) < d + err
    ensures var t := Choice(Readings(fs), d, Undershoot);
            0 < |fs| - 1 ==> hz(t) < d + err && d <= hz(t + 1) + err
  {
    StopsAtFirst(fs, d, 0);
  }

  /** Reference / (R + 1) * 2 * (F + 1) / 2^Q, as a fraction. */
  function PllNumerator(ref: nat, p: Pll): nat { 2 * (p.f + 1) * ref }
  function PllDenominator(p: Pll): nat {
    (p.r + 1) * if p.q == 0 then 1 else if p.q == 1 then 2 else if p.q == 2 then 4 else 8
  }

  /** With the settings of the search the PLL multiplies by 16: undershooting stays at or below the wanted CPU
      frequency exactly when trim 0 is slow enough for it, and overshooting ends above it less 16 exactly when
      trim 31 is fast enough. */
  lemma PllTargets(osc: nat -> nat, fCpu: nat)
    requires Rises(osc)
    ensures var p := PllConfig(0, 1, 31, 1, false);
      var under, over := osc(Choice(osc, fCpu / 16, Undershoot)), osc(Choice(osc, fCpu / 16, Overshoot));
      && (PllNumerator(under, p) <= fCpu * PllDenominator(p) <==> osc(0) <= fCpu / 16)
      && (PllNumerator(over, p) > (fCpu - 16) * PllDenominator(p) <==> fCpu / 16 <= osc(31))
  {
    var d := fCpu / 16;
    UndershootIsBelow(osc, d);
    OvershootReaches(osc, d);
    TimesSixteen(osc(Choice(osc, d, Undershoot)));
    TimesSixteen(osc(Choice(osc, d, Overshoot)));
    assert 16 * d <= fCpu < 16 * d + 16;
  }

  lemma OvershootReaches(osc: nat -> nat, d: nat)
    requires Rises(osc)
    ensures osc(Choice(osc, d, Overshoot)) >= d <==> d <= osc(31)
  {
    OvershootIsLeast(osc, d);
    assert osc(Choice(osc, d, Overshoot)) <= osc(31);
  }

  lemma TimesSixteen(ref: nat)
    ensures var p := PllConfig(0, 1, 31, 1, false); PllNumerator(ref, p) == 64 * ref && PllDenominator(p) == 4
  {
    assert PllR(1) == 1 && PllF(31) == 31 && PllQ(1) == 1;
  }
}
