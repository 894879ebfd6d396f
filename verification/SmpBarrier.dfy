/** The barrier of `smp_pause` / `smp_resume`: N harts, one MSIP word per hart, one step per shared
    memory or `mip` access.  A register-only instruction is folded into the access it follows.
    A schedule says which hart takes the next step; a hart that is never scheduled simply stalls. */
module SmpBarrier {

  /** Where a hart is.  `Store(i)` is about to set word i, `Poll(i)` is about to read word i. */
  datatype Pc = Parallel | Solo | Store(i: nat) | Wait | Clear | Poll(i: nat)

  /** `exits`, `clears` and `solos` are history counters: completed resumes and clears of the own word
      per hart, and completed single-threaded sections of hart 0. */
  datatype System = System(pc: seq<Pc>, msip: seq<bool>, exits: seq<nat>, clears: seq<nat>, solos: nat)

  ghost predicate Shape(s: System) {
    && 0 < |s.pc| == |s.msip| == |s.exits| == |s.clears|
    && forall h | 0 <= h < |s.pc| ::
         && (s.pc[h].Store? ==> s.pc[h].i < |s.pc|)
         && (s.pc[h].Poll? ==> s.pc[h].i < |s.pc|)
  }

  function Init(n: nat): System
    requires 0 < n
  {
    System(seq(n, _ => Parallel), seq(n, _ => false), seq(n, _ => 0), seq(n, _ => 0), 0)
  }

  /** One step of hart h. */
  function Step(s: System, h: nat): System
    requires Shape(s) && h < |s.pc|
  {
    var n := |s.pc|;
    match s.pc[h]
    case Parallel => s.(pc := s.pc[h := if h == 0 then Solo else Wait])
    case Solo => s.(pc := s.pc[h := Store(0)], solos := s.solos + 1)
    case Store(i) => s.(pc := s.pc[h := if i + 1 < n then Store(i + 1) else Wait], msip := s.msip[i := true])
    case Wait => if s.msip[h] then s.(pc := s.pc[h := Clear]) else s
    case Clear => s.(pc := s.pc[h := Poll(0)], msip := s.msip[h := false], clears := s.clears[h := s.clears[h] + 1])
    case Poll(i) =>
      if s.msip[i] then s
      else if i + 1 < n then s.(pc := s.pc[h := Poll(i + 1)])
      else s.(pc := s.pc[h := Parallel], exits := s.exits[h := s.exits[h] + 1])
  }

  lemma StepShape(s: System, h: nat)
    requires Shape(s) && h < |s.pc|
    ensures Shape(Step(s, h)) && |Step(s, h).pc| == |s.pc|
  {
  }

  /** How often hart 0 has set word j, read off its round and its position. */
  function Stores(s: System, j: nat): nat
    requires Shape(s)
  {
    s.exits[0] + match s.pc[0]
                 case Parallel => 0
                 case Solo => 0
                 case Store(i) => if j < i then 1 else 0
                 case _ => 1
  }

  /** The history counters follow from round and position. */
  ghost predicate Counted(s: System)
    requires Shape(s)
  {
    && (forall h | 0 < h < |s.pc| :: !s.pc[h].Solo? && !s.pc[h].Store?)
    && (forall h | 0 <= h < |s.pc| :: s.clears[h] == s.exits[h] + if s.pc[h].Poll? then 1 else 0)
    && s.solos == s.exits[0] + if s.pc[0].Parallel? || s.pc[0].Solo? then 0 else 1
  }

  /** A word is set exactly while hart 0 has stored it once more often than its owner has cleared it. */
  ghost predicate Words(s: System)
    requires Shape(s)
  {
    && (forall j | 0 <= j < |s.pc| ::
          && s.clears[j] <= Stores(s, j) <= s.clears[j] + 1
          && (s.msip[j] <==> Stores(s, j) == s.clears[j] + 1))
    && (forall j | 0 <= j < |s.pc| :: s.pc[j].Clear? ==> s.msip[j])
  }

  /** Whoever left round r, and whoever polled past word j in round r, did so after hart j cleared for round r. */
  ghost predicate Passed(s: System)
    requires Shape(s)
  {
    forall k, j | 0 <= k < |s.pc| && 0 <= j < |s.pc| :: s.exits[k] + PastWord(s.pc[k], j) <= s.clears[j]
  }

  function PastWord(pc: Pc, j: int): nat { if pc.Poll? && j < pc.i then 1 else 0 }

  ghost predicate Inv(s: System) {
    Shape(s) && Counted(s) && Words(s) && Passed(s)
  }

  lemma InitInv(n: nat)
    requires 0 < n
    ensures Inv(Init(n))
  {
  }

  /** The heart of the protocol: a word read as zero while polling has been cleared for this very round.
      For word 0 because it is set first, for every other word because hart 0 clears word 0 last. */
  lemma ZeroMeansCleared(s: System, k: nat)
    requires Inv(s) && k < |s.pc| && s.pc[k].Poll? && !s.msip[s.pc[k].i]
    ensures s.exits[k] < s.clears[s.pc[k].i]
  {
    var i := s.pc[k].i;
    assert s.clears[i] == Stores(s, i);
    assert s.clears[k] == s.exits[k] + 1 <= Stores(s, k);
    if i > 0 {
      assert s.exits[k] < s.clears[0] == s.exits[0] + if s.pc[0].Poll? then 1 else 0;
    }
  }

  lemma StepPassed(s: System, h: nat)
    requires Inv(s) && h < |s.pc|
    ensures Shape(Step(s, h)) && Passed(Step(s, h))
  {
    StepShape(s, h);
    if s.pc[h].Poll? && !s.msip[s.pc[h].i] {
      ZeroMeansCleared(s, h);
    }
  }

  lemma StepCounted(s: System, h: nat)
    requires Shape(s) && Counted(s) && h < |s.pc|
    ensures Shape(Step(s, h)) && Counted(Step(s, h))
  {
    StepShape(s, h);
  }

  lemma StepWords(s: System, h: nat)
    requires Inv(s) && h < |s.pc|
    ensures Shape(Step(s, h)) && Words(Step(s, h))
  {
    StepShape(s, h);
    if s.pc[h].Store? {
      var i := s.pc[h].i;
      assert s.exits[0] <= s.clears[i] <= Stores(s, i) == s.exits[0];
    }
  }

  lemma StepInv(s: System, h: nat)
    requires Inv(s) && h < |s.pc|
    ensures Inv(Step(s, h)) && |Step(s, h).pc| == |s.pc|
  {
    StepShape(s, h);
    StepCounted(s, h);
    StepWords(s, h);
    StepPassed(s, h);
  }

  ghost predicate Schedule(sched: seq<nat>, n: nat) {
    forall t | 0 <= t < |sched| :: sched[t] < n
  }

  /** The state after the harts named in `sched` took one step each, in that order. */
  function Run(s: System, sched: seq<nat>): (r: System)
    requires Shape(s) && Schedule(sched, |s.pc|)
    ensures Shape(r) && |r.pc| == |s.pc|
    decreases |sched|
  {
    if sched == [] then s
    else
      var r := Run(s, sched[..|sched| - 1]);
      StepShape(r, sched[|sched| - 1]);
      Step(r, sched[|sched| - 1])
  }

  lemma {:induction false} RunInv(s: System, sched: seq<nat>)
    requires Inv(s) && Schedule(sched, |s.pc|)
    ensures Inv(Run(s, sched))
    decreases |sched|
  {
    if sched != [] {
      RunInv(s, sched[..|sched| - 1]);
      StepInv(Run(s, sched[..|sched| - 1]), sched[|sched| - 1]);
    }
  }

  /** Safety over any number of harts, rounds and interleavings. */
  lemma BarrierSafety(n: nat, sched: seq<nat>, k: nat)
    requires 0 < n && Schedule(sched, n) && k < n
    ensures var s := Run(Init(n), sched);
            // leaving the r-th resume means r finished solo sections and r clears by every hart
            && s.exits[k] <= s.solos
            && (forall j | 0 <= j < n :: s.exits[k] <= s.clears[j])
            // hart 0 is at most one round ahead, and nobody overtakes its solo section
            && s.exits[0] <= s.exits[k] + 1
            && (s.pc[0].Solo? ==> s.exits[k] <= s.exits[0])
            // while hart 0 is storing, a hart of the same round that already polls is held at word 0
            && (s.pc[0].Store? && s.pc[k].Poll? && s.exits[k] == s.exits[0] ==> s.pc[k].i == 0 && s.msip[0])
  {
    InitInv(n);
    RunInv(Init(n), sched);
    var s := Run(Init(n), sched);
    assert s.exits[k] <= s.clears[0] && s.exits[0] <= s.clears[k];
    if s.pc[0].Store? && s.pc[k].Poll? && s.exits[k] == s.exits[0] {
      assert s.clears[k] <= Stores(s, k);
    }
  }

  // ---------- who is blocked while hart 0 is alone ----------

  /** While hart 0 is in its solo section every word is zero, and of the other harts exactly those are held that
      have come to wait for their word; one that has not paused yet, or is still polling, goes on. */
  lemma SoloHolds(s: System, k: nat)
    requires Inv(s) && s.pc[0].Solo? && 0 < k < |s.pc|
    ensures !s.msip[k] && (s.pc[k].Parallel? || s.pc[k].Wait? || s.pc[k].Poll?)
    ensures Step(s, k) == s <==> s.pc[k].Wait?
  {
    assert forall j | 0 <= j < |s.pc| :: s.exits[0] <= s.clears[j] <= Stores(s, j) == s.exits[0];
  }

  /** A hart once held stays held however the others are scheduled, until hart 0 leaves its section. */
  lemma {:induction false} HeldThroughSolo(s: System, sched: seq<nat>, k: nat)
    requires Inv(s) && s.pc[0].Solo? && 0 < k < |s.pc| && s.pc[k].Wait?
    requires Schedule(sched, |s.pc|) && 0 !in sched
    ensures var r := Run(s, sched); Inv(r) && r.pc[0].Solo? && r.pc[k].Wait? && !r.msip[k]
    decreases |sched|
  {
    RunInv(s, sched);
    if sched != [] {
      var r := Run(s, sched[..|sched| - 1]);
      HeldThroughSolo(s, sched[..|sched| - 1], k);
      assert sched[|sched| - 1] in sched;
      if sched[|sched| - 1] == k { SoloHolds(r, k); }
    }
    SoloHolds(Run(s, sched), k);
  }
}
