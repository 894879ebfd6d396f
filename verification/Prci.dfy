/** The PRCI clock controller and the two copies of its driver: `fe300prci_driver.c` and the start-up
    code of `init.c`.  Between any two bus accesses the environment may change RDY, LOCK and mtime. */
module Prci {

  // ---------- registers, field by field ----------

  /** `HFROSCCFG` without the read-only RDY bit, `PLLCFG` without the read-only LOCK bit, `PLLDIV`. */
  datatype Osc = Osc(div: nat, trim: nat, en: bool)
  datatype Pll = Pll(r: nat, f: nat, q: nat, sel: bool, crystal: bool, bypass: bool)
  datatype Div = Div(by1: bool, div: nat)

  /** The field macros of prci.h on C ints: a mask of low bits is a remainder.
      `ROSC_DIV` masks with 0x2F, which drops bit 4. */
  function RoscDiv(x: int): nat { x % 16 + x / 32 % 2 * 32 }
  function RoscTrim(x: int): nat { x % 32 }
  function PllR(x: int): nat { x % 8 }
  function PllF(x: int): nat { x % 64 }
  function PllQ(x: int): nat { x % 4 }
  predicate PllRefsel(x: int) { x % 2 == 1 }

  function OscConfig(div: int, trim: int): Osc { Osc(RoscDiv(div), RoscTrim(trim), true) }

  function PllConfig(refsel: int, r: int, f: int, q: int, bypass: bool): Pll {
    Pll(PllR(r), PllF(f), PllQ(q), false, PllRefsel(refsel), bypass)
  }

  function FinalDiv(finaldiv: int): Div {
    if finaldiv == 1 then Div(true, 0) else Div(false, (finaldiv - 1) % 64)
  }

  datatype Regs = Regs(osc: Osc, pll: Pll, plldiv: Div, lfroscEn: bool, sckdiv: nat)

  /** The source of the clock the CPU runs from is switched on.  No code switches the crystal off. */
  predicate Powered(r: Regs) {
    if r.pll.sel then r.pll.crystal || r.osc.en else r.osc.en
  }

  /** While the CPU runs off the PLL only the selection itself may change. */
  predicate Glitchless(a: Regs, b: Regs) {
    a.pll.sel || b.pll.sel ==> a.pll.(sel := b.pll.sel) == b.pll && a.plldiv == b.plldiv
  }

  // ---------- the environment and the history of a run ----------

  /** What the hardware shows at one bus or CSR access.  `mtime` and `cycle` are unbounded counts. */
  datatype Sample = Sample(rdy: bool, lock: bool, mtime: nat, cycle: nat)

  const W32: nat := 0x1_0000_0000

  /** The 32-bit difference of two reads of the low mtime word. */
  function Elapsed32(env: nat -> Sample, n: nat, m: nat): nat {
    (env(m).mtime % W32 - env(n).mtime % W32) % W32
  }

  predicate RdyAt(env: nat -> Sample, t: nat) { env(t).rdy }
  predicate LockAt(env: nat -> Sample, t: nat) { env(t).lock }
  ghost predicate RdyFrom(env: nat -> Sample, t: nat) { exists u: nat :: t <= u && RdyAt(env, u) }
  ghost predicate LockFrom(env: nat -> Sample, t: nat) { exists u: nat :: t <= u && LockAt(env, u) }
  ghost predicate TicksFrom(env: nat -> Sample, n: nat, t: nat) { exists u: nat :: t <= u && Elapsed32(env, n, u) >= 4 }

  /** RDY and LOCK are shown again and again, and mtime never runs backwards nor stands still:
      what the driver's polling loops need to end. */
  ghost predicate Live(env: nat -> Sample) {
    && (forall t: nat :: RdyFrom(env, t) && LockFrom(env, t))
    && (forall n: nat, t: nat :: TicksFrom(env, n, t))
    && (forall t: nat, u: nat :: t <= u ==> env(t).mtime <= env(u).mtime)
  }

  datatype Access = ReadOsc | ReadPll | ReadTime | ReadCounter | Write

  /** `trace[t]` are the registers at access t, and `log[t]` says which access that is. */
  datatype History = History(trace: seq<Regs>, log: seq<Access>)

  ghost predicate Formed(h: History) { |h.trace| == |h.log| + 1 }

  /** Access u ended the bypass, n and m read mtime at least 4 ticks apart, l saw LOCK, and nothing in
      PLLCFG changed from then until access w. */
  ghost predicate LockSequence(env: nat -> Sample, h: History, u: nat, n: nat, m: nat, l: nat, w: nat) {
    && Formed(h) && u < n < m < l < w <= |h.log|
    && h.trace[u].pll.bypass && !h.trace[u + 1].pll.bypass
    && h.log[n] == ReadTime && h.log[m] == ReadTime && env(n).mtime + 4 <= env(m).mtime
    && h.log[l] == ReadPll && env(l).lock
    && forall v | u < v <= w :: h.trace[v].pll == h.trace[w].pll
  }

  /** Access l saw RDY of the oscillator as it is configured and enabled at access w. */
  ghost predicate ReadySeen(env: nat -> Sample, h: History, l: nat, w: nat) {
    && Formed(h) && l < w < |h.log|
    && h.log[l] == ReadOsc && env(l).rdy && h.trace[l].osc.en && h.trace[l].osc == h.trace[w].osc
  }

  /** What access w may do: nothing to a running PLL, select the PLL only once locked (or in bypass),
      and leave it only for an oscillator seen ready. */
  ghost predicate Orderly(env: nat -> Sample, h: History, w: nat)
    requires Formed(h) && w < |h.log|
  {
    var a, b := h.trace[w], h.trace[w + 1];
    && Glitchless(a, b)
    && (!a.pll.sel && b.pll.sel && !a.pll.bypass ==>
          exists u: nat, n: nat, m: nat, l: nat :: LockSequence(env, h, u, n, m, l, w))
    && (a.pll.sel && !b.pll.sel ==> exists l: nat :: ReadySeen(env, h, l, w))
  }

  ghost predicate AllOrderly(env: nat -> Sample, h: History) {
    Formed(h) && forall w: nat | w < |h.log| :: Orderly(env, h, w)
  }

  ghost function Extend(h: History, a: Access, next: Regs): (r: History)
    ensures Formed(h) ==> Formed(r)
  {
    History(h.trace + [next], h.log + [a])
  }

  ghost predicate Prefix(h: History, k: History) { h.trace <= k.trace && h.log <= k.log }

  /** Being orderly at access w depends on the history up to w only. */
  lemma OrderlyPrefix(env: nat -> Sample, h: History, k: History, w: nat)
    requires Formed(h) && Formed(k) && Prefix(h, k) && w < |h.log| && Orderly(env, h, w)
    ensures Orderly(env, k, w)
  {
    var a, b := h.trace[w], h.trace[w + 1];
    if !a.pll.sel && b.pll.sel && !a.pll.bypass {
      var u: nat, n: nat, m: nat, l: nat :| LockSequence(env, h, u, n, m, l, w);
      assert forall v | u < v <= w :: k.trace[v] == h.trace[v];
      assert LockSequence(env, k, u, n, m, l, w);
    }
    if a.pll.sel && !b.pll.sel {
      var l: nat :| ReadySeen(env, h, l, w);
      assert ReadySeen(env, k, l, w);
    }
  }

  lemma ExtendOrderly(env: nat -> Sample, h: History, a: Access, next: Regs)
    requires AllOrderly(env, h) && Orderly(env, Extend(h, a, next), |h.log|)
    ensures AllOrderly(env, Extend(h, a, next))
  {
    var k := Extend(h, a, next);
    forall w: nat | w < |k.log| ensures Orderly(env, k, w) {
      if w < |h.log| { OrderlyPrefix(env, h, k, w); }
    }
  }

  /** An access that leaves PLLCFG alone, and PLLDIV too while the CPU runs off the PLL, is orderly. */
  lemma QuietOrderly(env: nat -> Sample, h: History, a: Access, next: Regs)
    requires Formed(h)
    requires var cur := h.trace[|h.log|]; next.pll == cur.pll && (cur.pll.sel ==> next.plldiv == cur.plldiv)
    ensures Orderly(env, Extend(h, a, next), |h.log|)
  {
    var k := Extend(h, a, next);
    assert k.trace[|h.log|] == h.trace[|h.log|] && k.trace[|h.log| + 1] == next;
  }

  /** The CPU clock was on at every access from t on. */
  ghost predicate PoweredSince(h: History, t: nat) {
    forall v: nat | t <= v < |h.trace| :: Powered(h.trace[v])
  }

  /** From h to k the registers kept the value r. */
  ghost predicate Steady(h: History, k: History, r: Regs) {
    Prefix(h, k) && forall v: nat | |h.log| <= v < |k.trace| :: k.trace[v] == r
  }

  lemma PoweredChain(h: History, k: History, t: nat, m: nat)
    requires Formed(h) && Prefix(h, k) && m < |h.trace| && PoweredSince(h, t) && PoweredSince(k, m)
    ensures PoweredSince(k, t)
  {
    forall v: nat | t <= v < |k.trace| ensures Powered(k.trace[v]) {
      if v < m { assert k.trace[v] == h.trace[v]; }
    }
  }

  lemma PoweredParts(h: History, k: History, t: nat)
    requires Formed(h) && Prefix(h, k) && t <= |h.log|
    ensures PoweredSince(k, t) <==> PoweredSince(h, t) && PoweredSince(k, |h.log|)
  {
    assert forall v: nat | v < |h.trace| :: k.trace[v] == h.trace[v];
    if PoweredSince(h, t) && PoweredSince(k, |h.log|) { PoweredChain(h, k, t, |h.log|); }
  }

  // ---------- what orderly runs do ----------

  /** Access w selects the PLL, and not in bypass. */
  ghost predicate Selects(h: History, w: nat) {
    Formed(h) && w < |h.log| && !h.trace[w].pll.sel && h.trace[w + 1].pll.sel && !h.trace[w].pll.bypass
  }

  /** Access w takes the CPU off the PLL. */
  ghost predicate Drops(h: History, w: nat) {
    Formed(h) && w < |h.log| && h.trace[w].pll.sel && !h.trace[w + 1].pll.sel
  }

  /** Access u ended the bypass, and access l, 4 mtime ticks later at the least, saw LOCK of the PLL as it is
      configured at w. */
  ghost predicate LockSeen(env: nat -> Sample, h: History, u: nat, l: nat, w: nat) {
    && Formed(h) && u < l < w <= |h.log|
    && h.trace[u].pll.bypass && !h.trace[u + 1].pll.bypass
    && h.log[l] == ReadPll && env(l).lock && env(u + 1).mtime + 4 <= env(l).mtime
    && forall v | u < v <= w :: h.trace[v].pll == h.trace[w].pll
  }

  /** SEL never rises to an unbypassed PLL before its lock was awaited and seen. */
  ghost predicate LockedSelections(env: nat -> Sample, h: History) {
    forall w: nat | Selects(h, w) :: exists u: nat, l: nat :: LockSeen(env, h, u, l, w)
  }

  /** SEL never falls before the oscillator, configured and enabled as it then is, was seen ready. */
  ghost predicate ReadyDrops(env: nat -> Sample, h: History) {
    forall w: nat | Drops(h, w) :: exists l: nat :: ReadySeen(env, h, l, w)
  }

  /** The CPU runs off the PLL at every access from v to w. */
  ghost predicate Selected(h: History, v: nat, w: nat)
    requires w < |h.trace|
  {
    forall t | v <= t <= w :: h.trace[t].pll.sel
  }

  /** While the CPU runs off the PLL, dividers, reference, bypass and PLLDIV stay what they were. */
  ghost predicate RunningPllUntouched(h: History) {
    Formed(h) && forall v: nat, w: nat | v <= w <= |h.log| && Selected(h, v, w) ::
      h.trace[v].pll == h.trace[w].pll && h.trace[v].plldiv == h.trace[w].plldiv
  }

  lemma OrderlyMeans(env: nat -> Sample, h: History)
    requires AllOrderly(env, h) && Live(env)
    ensures LockedSelections(env, h) && ReadyDrops(env, h) && RunningPllUntouched(h)
  {
    forall w: nat | Selects(h, w) ensures exists u: nat, l: nat :: LockSeen(env, h, u, l, w) {
      SelectedAfterLock(env, h, w);
    }
    forall w: nat | Drops(h, w) ensures exists l: nat :: ReadySeen(env, h, l, w) {
      assert Orderly(env, h, w);
    }
    forall v: nat, w: nat | v <= w <= |h.log| && Selected(h, v, w)
      ensures h.trace[v].pll == h.trace[w].pll && h.trace[v].plldiv == h.trace[w].plldiv
    {
      UntouchedBetween(env, h, v, w);
    }
  }

  lemma SelectedAfterLock(env: nat -> Sample, h: History, w: nat)
    requires AllOrderly(env, h) && Live(env) && Selects(h, w)
    ensures exists u: nat, l: nat :: LockSeen(env, h, u, l, w)
  {
    assert Orderly(env, h, w);
    var u: nat, n: nat, m: nat, l: nat :| LockSequence(env, h, u, n, m, l, w);
    assert env(u + 1).mtime <= env(n).mtime && env(m).mtime <= env(l).mtime;
    assert LockSeen(env, h, u, l, w);
  }

  lemma {:induction false} UntouchedBetween(env: nat -> Sample, h: History, v: nat, w: nat)
    requires AllOrderly(env, h) && v <= w <= |h.log|
    requires Selected(h, v, w)
    ensures h.trace[v].pll == h.trace[w].pll && h.trace[v].plldiv == h.trace[w].plldiv
    decreases w - v
  {
    if v < w {
      assert Orderly(env, h, w - 1);
      UntouchedBetween(env, h, v, w - 1);
    }
  }

  lemma PoweredSteady(h: History, k: History, t: nat)
    requires Formed(h) && t <= |h.log| && PoweredSince(h, t) && Steady(h, k, h.trace[|h.log|])
    ensures PoweredSince(k, t)
  {
    forall v: nat | t <= v < |k.trace| ensures Powered(k.trace[v]) {
      if v < |h.log| { assert k.trace[v] == h.trace[v]; }
    }
  }

  ghost predicate PoweredIf(r: Regs, h: History, t: nat) { Powered(r) ==> PoweredSince(h, t) }

  /** Even across a wrap of the low word, 4 ticks in 32-bit arithmetic are at least 4 ticks. */
  lemma ElapsedIsReal(env: nat -> Sample, n: nat, m: nat)
    requires env(n).mtime <= env(m).mtime
    ensures Elapsed32(env, n, m) <= env(m).mtime - env(n).mtime
  {
  }

  /** The registers after `PRCI_use_pll`. */
  function UsePllResult(a: Regs, refsel: int, bypass: bool, r: int, f: int, q: int, finaldiv: int,
                        hfroscdiv: int, hfrosctrim: int): Regs
  {
    var osc := if !bypass && hfrosctrim >= 0 && hfroscdiv >= 0 then OscConfig(hfroscdiv, hfrosctrim)
               else if a.pll.sel then OscConfig(4, 16) else a.osc;
    var pll := if bypass then PllConfig(refsel, 0, 0, 0, true) else PllConfig(refsel, r, f, q, false);
    a.(osc := if refsel == 0 then osc else osc.(en := false),
       pll := pll.(sel := true),
       plldiv := if bypass then Div(true, 0) else FinalDiv(finaldiv))
  }

  datatype Call =
    | CallHfrosc(div: int, trim: int)
    | CallPll(refsel: int, bypass: bool, r: int, f: int, q: int, finaldiv: int, hfroscdiv: int, hfrosctrim: int)
    | CallHfxosc(finaldiv: int)
    | CallDefaultClocks
    | CallInitPll(refsel: int, bypass: bool, r: int, f: int, q: int)

  /** The calls that meet the header's promise: see `UsePll`. */
  predicate KeepsReference(c: Call) {
    c.CallPll? ==> c.refsel == 0 || PllRefsel(c.refsel)
  }

  /** The registers after a call, and after a sequence of calls. */
  function After(a: Regs, c: Call): Regs {
    match c
    case CallHfrosc(div, trim) => a.(osc := OscConfig(div, trim), pll := a.pll.(sel := false))
    case CallPll(refsel, bypass, r, f, q, finaldiv, hfroscdiv, hfrosctrim) =>
      UsePllResult(a, refsel, bypass, r, f, q, finaldiv, hfroscdiv, hfrosctrim)
    case CallHfxosc(finaldiv) => UsePllResult(a, 1, true, 0, 0, 0, finaldiv, -1, -1)
    case CallDefaultClocks => a.(osc := OscConfig(4, 16), pll := a.pll.(sel := false), lfroscEn := false)
    case CallInitPll(refsel, bypass, r, f, q) =>
      a.(osc := if a.pll.sel then OscConfig(4, 16) else a.osc,
         pll := (if bypass then PllConfig(refsel, 0, 0, 0, true) else PllConfig(refsel, r, f, q, false)).(sel := true),
         plldiv := Div(true, 0), sckdiv := if bypass then a.sckdiv else 8)
  }

  function AfterAll(a: Regs, calls: seq<Call>): Regs {
    if calls == [] then a else After(AfterAll(a, calls[..|calls| - 1]), calls[|calls| - 1])
  }

  class ClockController {
    const env: nat -> Sample
    var regs: Regs
    var now: nat
    ghost var hist: History

    ghost predicate Valid()
      reads this
    {
      && Live(env)
      && AllOrderly(env, hist)
      && now == |hist.log|
      && hist.trace[now] == regs
    }

    constructor (env: nat -> Sample, regs: Regs)
      requires Live(env)
      ensures Valid() && this.env == env && this.regs == regs && now == 0
    {
      this.env, this.regs, now := env, regs, 0;
      hist := History([regs], []);
    }

    /** One bus access: the environment moves on, the registers become `next`. */
    method Access(a: Access, next: Regs)
      requires Valid()
      requires Orderly(env, Extend(hist, a, next), now)
      modifies this
      ensures Valid() && now == old(now) + 1 && regs == next && hist == Extend(old(hist), a, next)
    {
      ExtendOrderly(env, hist, a, next);
      hist := Extend(hist, a, next);
      regs, now := next, now + 1;
    }

    /** Reads change no register. */
    method Read(a: Access)
      requires Valid()
      modifies this
      ensures Valid() && now == old(now) + 1 && regs == old(regs) && hist == Extend(old(hist), a, regs)
    {
      QuietOrderly(env, hist, a, regs);
      Access(a, regs);
    }

    /** The LOCK bit of a read of PLLCFG; the other bits are `regs.pll`. */
    method ReadLock() returns (lock: bool)
      requires Valid()
      modifies this
      ensures Valid() && now == old(now) + 1 && regs == old(regs) && hist == Extend(old(hist), ReadPll, regs)
      ensures lock == env(old(now)).lock
    {
      lock := env(now).lock;
      Read(ReadPll);
    }

    /** The RDY bit of a read of HFROSCCFG; the other bits are `regs.osc`. */
    method ReadRdy() returns (rdy: bool)
      requires Valid()
      modifies this
      ensures Valid() && now == old(now) + 1 && regs == old(regs) && hist == Extend(old(hist), ReadOsc, regs)
      ensures rdy == env(old(now)).rdy
    {
      rdy := env(now).rdy;
      Read(ReadOsc);
    }

    method ReadMtime() returns (v: nat)
      requires Valid()
      modifies this
      ensures Valid() && now == old(now) + 1 && regs == old(regs) && hist == Extend(old(hist), ReadTime, regs)
      ensures v == env(old(now)).mtime % W32
    {
      v := env(now).mtime % W32;
      Read(ReadTime);
    }

    /** k accesses that read the counters. */
    method Pass(k: nat)
      requires Valid()
      modifies this
      ensures Valid() && now == old(now) + k && regs == old(regs) && Steady(old(hist), hist, regs)
    {
      for i := 0 to k
        invariant Valid() && now == old(now) + i && regs == old(regs) && Steady(old(hist), hist, regs)
      {
        Read(ReadCounter);
      }
    }

    /** A store that leaves PLLCFG alone, and PLLDIV while it matters. */
    method WriteQuietly(next: Regs)
      requires Valid() && next.pll == regs.pll && (regs.pll.sel ==> next.plldiv == regs.plldiv)
      modifies this
      ensures Valid() && now == old(now) + 1 && regs == next && hist == Extend(old(hist), Write, next)
    {
      QuietOrderly(env, hist, Write, next);
      Access(Write, next);
    }

    /** A store to PLLCFG that neither finds nor leaves the PLL selected. */
    method WriteIdlePll(pll: Pll)
      requires Valid() && !regs.pll.sel && !pll.sel
      modifies this
      ensures Valid() && now == old(now) + 1 && regs == old(regs).(pll := pll)
      ensures hist == Extend(old(hist), Write, regs)
    {
      Access(Write, regs.(pll := pll));
    }

    // ---------- the driver ----------

    /** Poll HFROSCCFG until it shows the oscillator ready. */
    method AwaitReady()
      requires Valid()
      modifies this
      ensures Valid() && Steady(old(hist), hist, regs) && old(now) < now && regs == old(regs)
      ensures hist.log[now - 1] == ReadOsc && env(now - 1).rdy
    {
      assert RdyFrom(env, now);
      ghost var u: nat :| now <= u && RdyAt(env, u);
      var rdy := ReadRdy();
      while !rdy
        invariant Valid() && Steady(old(hist), hist, regs) && old(now) < now && regs == old(regs)
        invariant hist.log[now - 1] == ReadOsc && rdy == env(now - 1).rdy
        invariant rdy || now <= u
        decreases u - now
      {
        rdy := ReadRdy();
      }
    }

    /** `PRCI_use_hfrosc`, and its copy in `init.c`. */
    method UseHfrosc(div: int, trim: int)
      requires Valid()
      modifies this
      ensures Valid() && Prefix(old(hist), hist)
      ensures regs == old(regs).(osc := Osc(div % 16 + div / 32 % 2 * 32, trim % 32, true),
                                 pll := old(regs).pll.(sel := false))
      ensures PoweredSince(hist, old(now) + 1) && PoweredIf(old(regs), hist, old(now))
    {
      WriteQuietly(regs.(osc := OscConfig(div, trim)));
      AwaitReady();
      DropPll(now - 1);
    }

    /** Take the CPU off the PLL, after access l saw the oscillator ready. */
    method DropPll(ghost l: nat)
      requires Valid() && l < now && regs.osc.en
      requires hist.log[l] == ReadOsc && env(l).rdy && hist.trace[l] == regs
      modifies this
      ensures Valid() && now == old(now) + 2 && Prefix(old(hist), hist)
      ensures regs == old(regs).(pll := old(regs).pll.(sel := false))
      ensures hist == Extend(Extend(old(hist), ReadPll, old(regs)), Write, regs)
    {
      Read(ReadPll);
      ghost var next := regs.(pll := regs.pll.(sel := false));
      assert ReadySeen(env, Extend(hist, Write, next), l, now);
      Access(Write, regs.(pll := regs.pll.(sel := false)));
    }

    /** The ticks since `start`, in 32-bit arithmetic. */
    method ElapsedSince(start: nat, ghost n: nat) returns (t: nat)
      requires Valid() && start == env(n).mtime % W32
      modifies this
      ensures Valid() && now == old(now) + 1 && regs == old(regs) && hist == Extend(old(hist), ReadTime, regs)
      ensures t == Elapsed32(env, n, old(now))
    {
      var v := ReadMtime();
      t := (v - start) % W32;
    }

    /** Poll mtime until it is 4 ticks past `start`. */
    method PollTicks(start: nat, ghost n: nat)
      requires Valid() && n < now && start == env(n).mtime % W32
      modifies this
      ensures Valid() && Steady(old(hist), hist, regs) && regs == old(regs) && old(now) < now
      ensures hist.log[now - 1] == ReadTime && Elapsed32(env, n, now - 1) >= 4
    {
      assert TicksFrom(env, n, now);
      ghost var u: nat :| now <= u && Elapsed32(env, n, u) >= 4;
      var t := ElapsedSince(start, n);
      while t < 4
        invariant Valid() && Steady(old(hist), hist, regs) && regs == old(regs)
        invariant old(now) < now && hist.log[now - 1] == ReadTime
        invariant t == Elapsed32(env, n, now - 1)
        invariant t >= 4 || now <= u
        decreases u - now
      {
        t := ElapsedSince(start, n);
      }
    }

    /** Wait for 4 ticks of mtime from now. */
    method AwaitTicks() returns (ghost n: nat, ghost m: nat)
      requires Valid()
      modifies this
      ensures Valid() && Steady(old(hist), hist, regs) && regs == old(regs)
      ensures old(now) == n < m == now - 1 && hist.log[n] == ReadTime && hist.log[m] == ReadTime
      ensures env(n).mtime + 4 <= env(m).mtime
    {
      n := now;
      var start := ReadMtime();
      PollTicks(start, n);
      m := now - 1;
      ElapsedIsReal(env, n, m);
    }

    /** Poll PLLCFG until it shows the PLL locked. */
    method AwaitLock()
      requires Valid()
      modifies this
      ensures Valid() && Steady(old(hist), hist, regs) && old(now) < now && regs == old(regs)
      ensures hist.log[now - 1] == ReadPll && env(now - 1).lock
    {
      assert LockFrom(env, now);
      ghost var u: nat :| now <= u && LockAt(env, u);
      var lock := ReadLock();
      while !lock
        invariant Valid() && Steady(old(hist), hist, regs) && old(now) < now && regs == old(regs)
        invariant hist.log[now - 1] == ReadPll && lock == env(now - 1).lock
        invariant lock || now <= u
        decreases u - now
      {
        lock := ReadLock();
      }
    }

    /** Un-bypass the PLL, wait, and check for lock: the same lines in both copies of the driver. */
    method LockPll() returns (ghost u: nat, ghost n: nat, ghost m: nat, ghost l: nat)
      requires Valid() && !regs.pll.sel && regs.pll.bypass
      modifies this
      ensures Valid() && Prefix(old(hist), hist) && regs == old(regs).(pll := old(regs).pll.(bypass := false))
      ensures LockSequence(env, hist, u, n, m, l, now)
      ensures PoweredIf(old(regs), hist, old(now))
    {
      Read(ReadPll);
      u := now;
      WriteIdlePll(regs.pll.(bypass := false));
      n, m := AwaitTicks();
      AwaitLock();
      l := now - 1;
    }

    /** Run the CPU off the PLL, which is in bypass or has locked. */
    method SelectPll(ghost u: nat, ghost n: nat, ghost m: nat, ghost l: nat)
      requires Valid() && !regs.pll.sel
      requires !regs.pll.bypass ==> LockSequence(env, hist, u, n, m, l, now)
      modifies this
      ensures Valid() && now == old(now) + 2
      ensures regs == old(regs).(pll := old(regs).pll.(sel := true))
      ensures hist == Extend(Extend(old(hist), ReadPll, old(regs)), Write, regs)
    {
      Read(ReadPll);
      ghost var next := regs.(pll := regs.pll.(sel := true));
      if !regs.pll.bypass {
        assert LockSequence(env, Extend(hist, Write, next), u, n, m, l, now);
      }
      Access(Write, regs.(pll := regs.pll.(sel := true)));
    }

    /** The bypass branch of `PRCI_use_pll`, up to the selection. */
    method RunBypassed(refsel: int)
      requires Valid() && !regs.pll.sel
      modifies this
      ensures Valid() && Prefix(old(hist), hist)
      ensures regs == old(regs).(pll := PllConfig(refsel, 0, 0, 0, true).(sel := true), plldiv := Div(true, 0))
      ensures Powered(old(regs)) ==> PoweredSince(hist, old(now))
    {
      WriteIdlePll(PllConfig(refsel, 0, 0, 0, true));
      WriteQuietly(regs.(plldiv := Div(true, 0)));
      SelectPll(0, 0, 0, 0);
    }

    /** The other branch. */
    method RunLocked(refsel: int, r: int, f: int, q: int, finaldiv: int, hfroscdiv: int, hfrosctrim: int)
      requires Valid() && !regs.pll.sel
      modifies this
      ensures Valid() && Prefix(old(hist), hist)
      ensures regs == old(regs).(osc := if hfrosctrim >= 0 && hfroscdiv >= 0 then OscConfig(hfroscdiv, hfrosctrim)
                                        else old(regs).osc,
                                 pll := PllConfig(refsel, r, f, q, false).(sel := true), plldiv := FinalDiv(finaldiv))
      ensures Powered(old(regs)) ==> PoweredSince(hist, old(now))
    {
      // To overclock, use the oscillator
      if hfrosctrim >= 0 && hfroscdiv >= 0 {
        UseHfrosc(hfroscdiv, hfrosctrim);
      }
      LockAndSelect(PllConfig(refsel, r, f, q, true), FinalDiv(finaldiv));
    }

    /** Configure in bypass, lock, select: the same lines in both copies of the driver. */
    method LockAndSelect(pll: Pll, div: Div)
      requires Valid() && !regs.pll.sel && !pll.sel && pll.bypass
      modifies this
      ensures Valid() && Prefix(old(hist), hist)
      ensures regs == old(regs).(pll := pll.(bypass := false, sel := true), plldiv := div)
      ensures old(now) < now && hist.trace[now - 1] == regs.(pll := regs.pll.(sel := false))
      ensures Powered(old(regs)) ==> PoweredSince(hist, old(now))
    {
      WriteQuietly(regs.(plldiv := div));
      WriteIdlePll(pll);
      ghost var u, n, m, l := LockPll();
      SelectPll(u, n, m, l);
    }

    /** Not to run off the PLL while it is changed: to the oscillator at its default setting if it is selected. */
    method LeavePll()
      requires Valid()
      modifies this
      ensures Valid() && Prefix(old(hist), hist) && old(now) < now && hist.log[old(now)] == ReadPll
      ensures regs == if !old(regs).pll.sel then old(regs)
                      else old(regs).(osc := OscConfig(4, 16), pll := old(regs).pll.(sel := false))
      ensures PoweredIf(old(regs), hist, old(now))
    {
      Read(ReadPll);
      if regs.pll.sel {
        UseHfrosc(4, 16);
      }
    }

    /** `PRCI_use_pll`.  The header promises that the CPU clock is never turned off; the final power
        saving tests the whole of `refsel`, the register holds its lowest bit. */
    method UsePll(refsel: int, bypass: bool, r: int, f: int, q: int, finaldiv: int, hfroscdiv: int, hfrosctrim: int)
      requires Valid()
      modifies this
      ensures Valid() && Prefix(old(hist), hist)
      ensures regs == UsePllResult(old(regs), refsel, bypass, r, f, q, finaldiv, hfroscdiv, hfrosctrim)
      ensures regs.pll.r == (if bypass then 0 else r % 8) && regs.pll.f == (if bypass then 0 else f % 64)
      ensures regs.pll.q == (if bypass then 0 else q % 4) && regs.pll.bypass == bypass
      ensures regs.pll.sel && (regs.pll.crystal <==> refsel % 2 == 1)
      ensures Powered(old(regs)) ==> (PoweredSince(hist, old(now)) <==> (refsel == 0 || PllRefsel(refsel)))
    {
      LeavePll();
      if bypass {
        RunBypassed(refsel);
      } else {
        RunLocked(refsel, r, f, q, finaldiv, hfroscdiv, hfrosctrim);
      }
      if refsel != 0 {
        StopOscillator();
      }
    }

    /** Switch the ring oscillator off. */
    method StopOscillator()
      requires Valid()
      modifies this
      ensures Valid() && now == old(now) + 2 && Prefix(old(hist), hist)
      ensures regs == old(regs).(osc := old(regs).osc.(en := false))
      ensures hist == Extend(Extend(old(hist), ReadOsc, old(regs)), Write, regs)
    {
      Read(ReadOsc);
      WriteQuietly(regs.(osc := regs.osc.(en := false)));
    }

    /** `use_pll` of `init.c`: no final divider, no re-trimming, the oscillator stays on, and the SPI divider is set
        before the last access, which selects the PLL. */
    method InitUsePll(refsel: int, bypass: bool, r: int, f: int, q: int)
      requires Valid()
      modifies this
      ensures Valid() && Prefix(old(hist), hist)
      ensures regs.pll.r == (if bypass then 0 else r % 8) && regs.pll.f == (if bypass then 0 else f % 64)
      ensures regs.pll.q == (if bypass then 0 else q % 4) && regs.pll.bypass == bypass
      ensures regs.pll.sel && (regs.pll.crystal <==> refsel % 2 == 1)
      ensures regs == old(regs).(osc := if old(regs).pll.sel then Osc(4, 16, true) else old(regs).osc,
                                 pll := regs.pll, plldiv := Div(true, 0),
                                 sckdiv := if bypass then old(regs).sckdiv else 8)
      ensures !bypass ==> now > 0 && hist.trace[now - 1].sckdiv == 8 && !hist.trace[now - 1].pll.sel
      ensures Powered(old(regs)) ==> PoweredSince(hist, old(now))
    {
      LeavePll();
      if bypass {
        RunBypassed(refsel);
      } else {
        WriteQuietly(regs.(sckdiv := 8));
        LockAndSelect(PllConfig(refsel, r, f, q, true), Div(true, 0));
      }
    }

    /** `PRCI_use_default_clocks`, and its copy in `init.c`. */
    method UseDefaultClocks()
      requires Valid()
      modifies this
      ensures Valid() && Prefix(old(hist), hist)
      ensures regs == old(regs).(osc := Osc(4, 16, true), pll := old(regs).pll.(sel := false), lfroscEn := false)
      ensures Powered(old(regs)) ==> PoweredSince(hist, old(now))
    {
      Read(ReadOsc);
      WriteQuietly(regs.(lfroscEn := false));
      UseHfrosc(4, 16);
    }

    /** `PRCI_use_hfxosc`: the final divider is promised by the header and ignored by the bypass branch. */
    method UseHfxosc(finaldiv: int)
      requires Valid()
      modifies this
      ensures Valid() && Prefix(old(hist), hist)
      ensures regs.pll.sel && regs.pll.crystal && regs.pll.bypass && !regs.osc.en
      ensures regs.plldiv == Div(true, 0) && (regs.plldiv == FinalDiv(finaldiv) <==> finaldiv == 1)
      ensures regs == UsePllResult(old(regs), 1, true, 0, 0, 0, finaldiv, -1, -1)
      ensures Powered(old(regs)) ==> PoweredSince(hist, old(now))
    {
      UsePll(1, true, 0, 0, 0, finaldiv, -1, -1);
    }

    method Execute(c: Call)
      requires Valid()
      modifies this
      ensures Valid() && Prefix(old(hist), hist) && regs == After(old(regs), c)
      ensures Powered(old(regs)) ==> (PoweredSince(hist, old(now)) <==> KeepsReference(c))
    {
      match c
      case CallHfrosc(div, trim) => UseHfrosc(div, trim);
      case CallPll(refsel, bypass, r, f, q, finaldiv, hfroscdiv, hfrosctrim) =>
        UsePll(refsel, bypass, r, f, q, finaldiv, hfroscdiv, hfrosctrim);
      case CallHfxosc(finaldiv) => UseHfxosc(finaldiv);
      case CallDefaultClocks => UseDefaultClocks();
      case CallInitPll(refsel, bypass, r, f, q) => InitUsePll(refsel, bypass, r, f, q);
    }

    /** Any sequence of calls: from a running clock the clock stays on throughout exactly when every call keeps the
        promise; the PLL is selected only after its lock, left only for a ready oscillator, and not touched while
        the CPU runs off it. */
    method RunCalls(calls: seq<Call>)
      requires Valid()
      modifies this
      ensures Valid() && Prefix(old(hist), hist)
      ensures Powered(old(regs)) ==>
                (PoweredSince(hist, old(now)) <==> forall i | 0 <= i < |calls| :: KeepsReference(calls[i]))
      ensures LockedSelections(env, hist) && ReadyDrops(env, hist) && RunningPllUntouched(hist)
      ensures regs == AfterAll(old(regs), calls)
    {
      for i := 0 to |calls|
        invariant Valid() && Prefix(old(hist), hist) && old(now) <= now && regs == AfterAll(old(regs), calls[..i])
        invariant Powered(old(regs)) ==>
                    (PoweredSince(hist, old(now)) <==> forall j | 0 <= j < i :: KeepsReference(calls[j]))
      {
        ghost var h := hist;
        Execute(calls[i]);
        PoweredParts(h, hist, old(now));
        assert calls[..i + 1][..i] == calls[..i];
      }
      assert calls[..|calls|] == calls;
      OrderlyMeans(env, hist);
    }
  }

  // ---------- what the contracts above come to ----------

  /** The last step of `PRCI_use_pll` keeps the CPU clock on exactly when `refsel` is zero or odd. */
  lemma PowerAfterUsePll(a: Regs, refsel: int, bypass: bool, r: int, f: int, q: int, finaldiv: int,
                         hfroscdiv: int, hfrosctrim: int)
    requires Powered(a)
    ensures Powered(UsePllResult(a, refsel, bypass, r, f, q, finaldiv, hfroscdiv, hfrosctrim))
            <==> refsel == 0 || refsel % 2 == 1
  {
  }

  /** The registers after `PRCI_use_pll`, one by one.  In bypass the dividers are 0 and a final divider and a trim asked
      for are ignored. */
  lemma UsePllFields(a: Regs, refsel: int, bypass: bool, r: int, f: int, q: int, finaldiv: int,
                     hfroscdiv: int, hfrosctrim: int)
    ensures var b := UsePllResult(a, refsel, bypass, r, f, q, finaldiv, hfroscdiv, hfrosctrim);
            var trimmed := !bypass && hfroscdiv >= 0 && hfrosctrim >= 0;
            && b.plldiv.by1 == (bypass || finaldiv == 1)
            && b.plldiv.div == (if bypass || finaldiv == 1 then 0 else (finaldiv - 1) % 64)
            && b.osc.trim == (if trimmed then hfrosctrim % 32 else if a.pll.sel then 16 else a.osc.trim)
            && (trimmed ==> b.osc.div == hfroscdiv % 16 + hfroscdiv / 32 % 2 * 32)
            && (!trimmed ==> b.osc.div == if a.pll.sel then 4 else a.osc.div)
            && (b.osc.en <==> refsel == 0 && (trimmed || a.pll.sel || a.osc.en))
            && b.lfroscEn == a.lfroscEn && b.sckdiv == a.sckdiv
  {
  }

  /** The PLLCFG word the two routines leave, LOCK aside. */
  lemma PllWordAfter(a: Regs, refsel: int, bypass: bool, r: int, f: int, q: int, finaldiv: int,
                     hfroscdiv: int, hfrosctrim: int)
    ensures PllWord(UsePllResult(a, refsel, bypass, r, f, q, finaldiv, hfroscdiv, hfrosctrim).pll)
            == 0x1_0000 + refsel % 2 * 0x2_0000
               + if bypass then 0x4_0000 else r % 8 + f % 64 * 0x10 + q % 4 * 0x400
  {
  }

  /** `ROSC_DIV` keeps a 6-bit divisor exactly when its bit 4 is clear. */
  lemma DivisorKept(d: nat)
    requires d < 64
    ensures RoscDiv(d) == d <==> d / 16 % 2 == 0
  {
  }

  function Bit(b: bool, weight: nat): nat { if b then weight else 0 }

  /** The layout of the PLLCFG word, LOCK aside. */
  function PllWord(p: Pll): nat {
    p.r + p.f * 0x10 + p.q * 0x400 + Bit(p.sel, 0x1_0000) + Bit(p.crystal, 0x2_0000) + Bit(p.bypass, 0x4_0000)
  }

  /** The fields do not overlap: a word the driver builds from its macros determines all of them, so that
      clearing or setting one bit of the word is an update of one field. */
  lemma PllWordFields(p: Pll, p': Pll)
    requires p.r < 8 && p.f < 64 && p.q < 4 && p'.r < 8 && p'.f < 64 && p'.q < 4
    requires PllWord(p) == PllWord(p')
    ensures p == p'
  {
    FlagWord(p, p');
    LowFields(p.r, p.f, p.q, p'.r, p'.f, p'.q);
  }

  lemma LowFields(r: nat, f: nat, q: nat, r': nat, f': nat, q': nat)
    requires r < 8 && f < 64 && r' < 8 && f' < 64
    requires r + f * 0x10 + q * 0x400 == r' + f' * 0x10 + q' * 0x400
    ensures r == r' && f == f' && q == q'
  {
  }

  lemma FlagWord(p: Pll, p': Pll)
    requires p.r < 8 && p.f < 64 && p.q < 4 && p'.r < 8 && p'.f < 64 && p'.q < 4
    requires PllWord(p) == PllWord(p')
    ensures p.sel == p'.sel && p.crystal == p'.crystal && p.bypass == p'.bypass
  {
    var flags := Bit(p.sel, 1) + Bit(p.crystal, 2) + Bit(p.bypass, 4);
    var flags' := Bit(p'.sel, 1) + Bit(p'.crystal, 2) + Bit(p'.bypass, 4);
    assert PllWord(p) == p.r + p.f * 0x10 + p.q * 0x400 + flags * 0x1_0000;
    assert PllWord(p') == p'.r + p'.f * 0x10 + p'.q * 0x400 + flags' * 0x1_0000;
    assert flags == flags';
  }
}
