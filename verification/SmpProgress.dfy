/** Progress of the barrier.  Harts stop at R completed resumes; a sweep is a schedule that names every hart. */
module SmpProgress {
  import opened SmpBarrier

  /** A step of hart h unless it has already left its R-th resume. */
  function Move(s: System, h: nat, R: nat): System
    requires Shape(s) && h < |s.pc|
  {
    if s.exits[h] < R then Step(s, h) else s
  }

  /** Hart k polls an index at or below its own, so it still has to read its own word. */
  predicate OwnWordAhead(s: System, k: nat)
    requires Shape(s) && k < |s.pc|
  {
    s.pc[k].Poll? && s.pc[k].i <= k
  }

  /** The part of `InRound` that speaks of hart k alone. */
  ghost predicate Placed(s: System, k: nat, R: nat)
    requires Shape(s) && k < |s.pc|
  {
    && s.exits[k] <= R
    && (s.exits[k] + 2 == R ==> !OwnWordAhead(s, k))
    && (k == 0 ==> R <= s.exits[0] + 1 && (s.exits[0] == R ==> s.pc[0].Parallel?))
  }

  /** Hart 0 has begun round R or not; no hart left behind in round R - 1 still has to read its own word. */
  ghost predicate InRound(s: System, R: nat) {
    && Inv(s)
    && forall k: nat | k < |s.pc| :: Placed(s, k, R)
  }

  ghost predicate AllLeft(s: System, R: nat) {
    && Shape(s)
    && (forall k | 0 <= k < |s.exits| :: s.exits[k] == R)
  }

  /** No hart lags by more than one round, and one that does is polling. */
  lemma LaggardPolls(s: System, k: nat, R: nat)
    requires InRound(s, R) && k < |s.pc|
    ensures R <= s.exits[k] + 2
    ensures s.exits[k] + 2 == R ==> s.pc[k].Poll?
  {
    assert Placed(s, 0, R);
    assert s.exits[0] <= s.clears[k];
  }

  lemma StepPlaced(s: System, h: nat, R: nat)
    requires Shape(s) && h < |s.pc| && s.exits[h] < R && Placed(s, h, R)
    requires R <= s.exits[h] + 2 && (s.exits[h] + 2 == R ==> s.pc[h].Poll?)
    ensures Shape(Step(s, h)) && Placed(Step(s, h), h, R)
  {
  }

  lemma MoveInRound(s: System, h: nat, R: nat)
    requires InRound(s, R) && h < |s.pc|
    ensures InRound(Move(s, h, R), R) && |Move(s, h, R).pc| == |s.pc|
  {
    if s.exits[h] < R {
      StepInv(s, h);
      LaggardPolls(s, h, R);
      var t := Step(s, h);
      assert Placed(s, h, R);
      StepPlaced(s, h, R);
      forall k: nat | k < |s.pc| ensures Placed(t, k, R) {
        if k != h {
          assert Placed(s, k, R);
          assert t.pc[k] == s.pc[k] && t.exits[k] == s.exits[k];
        }
      }
      assert Placed(t, 0, R);
    }
  }

  // ---------- the measure ----------

  function PcLeft(pc: Pc, n: nat): int {
    match pc
    case Parallel => 2 * n + 5
    case Solo => 2 * n + 4
    case Store(i) => 2 * n + 3 - i
    case Wait => n + 2
    case Clear => n + 1
    case Poll(i) => n - i
  }

  function WholeRounds(k: nat, n: nat): nat { if k == 0 then 0 else 2 * n + 5 + WholeRounds(k - 1, n) }

  /** An upper bound on the steps hart h still takes until it has left R resumes. */
  function Left(s: System, h: nat, R: nat): nat
    requires Shape(s) && h < |s.pc|
  {
    if s.exits[h] >= R then 0 else PcLeft(s.pc[h], |s.pc|) + WholeRounds(R - 1 - s.exits[h], |s.pc|)
  }

  function SumLeft(s: System, R: nat, m: nat): nat
    requires Shape(s) && m <= |s.pc|
  {
    if m == 0 then 0 else SumLeft(s, R, m - 1) + Left(s, m - 1, R)
  }

  function Measure(s: System, R: nat): nat
    requires Shape(s)
  {
    SumLeft(s, R, |s.pc|)
  }

  lemma {:induction false} SumLower(s: System, t: System, R: nat, h: nat, m: nat)
    requires Shape(s) && Shape(t) && |s.pc| == |t.pc| && h < |s.pc| && m <= |s.pc|
    requires forall k | 0 <= k < |s.pc| && k != h :: Left(t, k, R) == Left(s, k, R)
    requires Left(t, h, R) < Left(s, h, R)
    ensures if m <= h then SumLeft(t, R, m) == SumLeft(s, R, m) else SumLeft(t, R, m) < SumLeft(s, R, m)
  {
    if m > 0 { SumLower(s, t, R, h, m - 1); }
  }

  /** A step spins in place or lowers the measure, in any state. */
  lemma StepLowers(s: System, h: nat, R: nat)
    requires Shape(s) && h < |s.pc| && s.exits[h] < R
    ensures var t := Step(s, h); t == s || (Shape(t) && Measure(t, R) < Measure(s, R))
  {
    StepShape(s, h);
    var t := Step(s, h);
    if t != s {
      assert forall k | 0 <= k < |s.pc| && k != h :: t.pc[k] == s.pc[k] && t.exits[k] == s.exits[k];
      SumLower(s, t, R, h, |s.pc|);
    }
  }

  lemma MoveLowers(s: System, h: nat, R: nat)
    requires Shape(s) && h < |s.pc|
    ensures var t := Move(s, h, R); t == s || (Shape(t) && Measure(t, R) < Measure(s, R))
  {
    if s.exits[h] < R { StepLowers(s, h, R); }
  }

  // ---------- some hart can always move ----------

  /** The largest hart left behind in round R - 1, if there is one. */
  lemma {:induction false} LastStraggler(s: System, R: nat, m: nat) returns (k: nat)
    requires Shape(s) && m <= |s.pc|
    ensures k <= m
    ensures k < m ==> s.exits[k] + 2 == R
    ensures forall j | 0 <= j < m :: s.exits[j] + 2 == R ==> k < m && j <= k
  {
    if m == 0 { return 0; }
    if s.exits[m - 1] + 2 == R { return m - 1; }
    k := LastStraggler(s, R, m - 1);
    if k == m - 1 { k := m; }
  }

  /** In the middle of a round some hart has a step that changes the state. */
  lemma SomeHartMoves(s: System, R: nat) returns (h: nat)
    requires InRound(s, R) && !AllLeft(s, R)
    ensures h < |s.pc| && Move(s, h, R) != s
  {
    assert Placed(s, 0, R);
    assert forall k: nat | k < |s.pc| :: Placed(s, k, R);
    if s.exits[0] < R && !s.pc[0].Poll? {
      return 0;
    }
    assert forall j | 0 <= j < |s.pc| :: Stores(s, j) == R;
    if k: nat :| k < |s.pc| && s.exits[k] + 1 == R && !s.pc[k].Poll? {
      assert s.clears[k] == R - 1;
      return k;
    }
    h := LastStraggler(s, R, |s.pc|);
    if h < |s.pc| {
      assert s.exits[0] <= s.clears[h] && s.pc[h].Poll?;
      var i := s.pc[h].i;
      assert Placed(s, h, R) && Placed(s, i, R);
      assert s.exits[i] + 2 != R && s.exits[0] <= s.clears[i];
      assert s.clears[i] == R;
    } else {
      var k: nat :| k < |s.pc| && s.exits[k] != R;
      assert forall j | 0 <= j < |s.pc| :: s.exits[0] <= s.clears[j];
      assert s.exits[k] + 1 == R && s.pc[k].Poll?;
      var i := s.pc[k].i;
      assert s.clears[i] == R;
      h := k;
    }
  }

  // ---------- fair schedules ----------

  ghost function RunTo(s: System, sched: seq<nat>, R: nat): (r: System)
    requires Inv(s) && Schedule(sched, |s.pc|)
    ensures Inv(r) && |r.pc| == |s.pc|
    decreases |sched|
  {
    if sched == [] then s
    else
      StepInv(s, sched[0]);
      RunTo(Move(s, sched[0], R), sched[1..], R)
  }

  ghost predicate Sweep(sched: seq<nat>, n: nat) {
    Schedule(sched, n) && forall h: nat | h < n :: h in sched
  }

  ghost predicate Sweeps(rounds: seq<seq<nat>>, n: nat) {
    forall t | 0 <= t < |rounds| :: Sweep(rounds[t], n)
  }

  ghost function RunSweeps(s: System, sweeps: seq<seq<nat>>, R: nat): (r: System)
    requires Inv(s) && Sweeps(sweeps, |s.pc|)
    ensures Inv(r) && |r.pc| == |s.pc|
    decreases |sweeps|
  {
    if sweeps == [] then s else RunSweeps(RunTo(s, sweeps[0], R), sweeps[1..], R)
  }

  /** A schedule naming a hart that can move lowers the measure. */
  lemma {:induction false} ScheduleLowers(s: System, sched: seq<nat>, R: nat, h: nat)
    requires InRound(s, R) && Schedule(sched, |s.pc|) && h < |s.pc|
    ensures InRound(RunTo(s, sched, R), R)
    ensures Measure(RunTo(s, sched, R), R) <= Measure(s, R)
    ensures h in sched && Move(s, h, R) != s ==> Measure(RunTo(s, sched, R), R) < Measure(s, R)
    decreases |sched|
  {
    if sched != [] {
      MoveInRound(s, sched[0], R);
      MoveLowers(s, sched[0], R);
      ScheduleLowers(Move(s, sched[0], R), sched[1..], R, h);
    }
  }

  /** From any reachable point of a round that leaves nobody behind with its own word unread,
      every fair schedule brings all harts out of the barrier, with all words zero. */
  lemma {:induction false} RoundCompletes(s: System, sweeps: seq<seq<nat>>, R: nat)
    requires InRound(s, R) && Sweeps(sweeps, |s.pc|) && Measure(s, R) <= |sweeps|
    ensures var r := RunSweeps(s, sweeps, R);
            AllLeft(r, R) && forall j | 0 <= j < |r.msip| :: !r.msip[j]
    decreases |sweeps|
  {
    if !AllLeft(s, R) {
      var h := SomeHartMoves(s, R);
      MoveLowers(s, h, R);
      assert sweeps != [];
      assert Sweep(sweeps[0], |s.pc|);
      ScheduleLowers(s, sweeps[0], R, h);
      RoundCompletes(RunTo(s, sweeps[0], R), sweeps[1..], R);
    } else if sweeps != [] {
      assert Sweep(sweeps[0], |s.pc|);
      AllLeftStays(s, sweeps[0], R);
      NothingLeft(s, R, |s.pc|);
      RoundCompletes(s, sweeps[1..], R);
    } else {
      assert Placed(s, 0, R);
      assert forall j | 0 <= j < |s.pc| :: s.exits[j] == R && Stores(s, j) == R;
    }
  }

  lemma {:induction false} NothingLeft(s: System, R: nat, m: nat)
    requires AllLeft(s, R) && m <= |s.pc|
    ensures SumLeft(s, R, m) == 0
  {
    if m > 0 { NothingLeft(s, R, m - 1); }
  }

  lemma {:induction false} AllLeftStays(s: System, sched: seq<nat>, R: nat)
    requires InRound(s, R) && AllLeft(s, R) && Schedule(sched, |s.pc|)
    ensures RunTo(s, sched, R) == s
    decreases |sched|
  {
    if sched != [] { AllLeftStays(s, sched[1..], R); }
  }

  /** One round from all-zero words never deadlocks. */
  lemma FirstRoundCompletes(n: nat, sweeps: seq<seq<nat>>)
    requires 0 < n && Sweeps(sweeps, n) && Measure(Init(n), 1) <= |sweeps|
    ensures InRound(Init(n), 1)
    ensures AllLeft(RunSweeps(Init(n), sweeps, 1), 1)
  {
    InitInv(n);
    RoundCompletes(Init(n), sweeps, 1);
  }

  // ---------- back-to-back rounds ----------

  /** Hart k must still read its own word and the word is already set for the next round. */
  predicate Stuck(s: System, k: nat)
    requires Shape(s) && k < |s.pc|
  {
    OwnWordAhead(s, k) && s.msip[k]
  }

  lemma StuckStep(s: System, h: nat, k: nat)
    requires Inv(s) && h < |s.pc| && k < |s.pc| && Stuck(s, k)
    ensures Inv(Step(s, h)) && Stuck(Step(s, h), k) && Step(s, h).exits[k] == s.exits[k]
  {
    StepInv(s, h);
  }

  /** Such a hart never leaves: only it could clear the word it waits on. */
  lemma {:induction false} StuckForever(s: System, sched: seq<nat>, k: nat)
    requires Inv(s) && k < |s.pc| && Stuck(s, k) && Schedule(sched, |s.pc|)
    ensures Stuck(Run(s, sched), k) && Run(s, sched).exits[k] == s.exits[k]
    decreases |sched|
  {
    if sched != [] {
      var before := sched[..|sched| - 1];
      RunInv(s, before);
      StuckForever(s, before, k);
      StuckStep(Run(s, before), sched[|sched| - 1], k);
    }
  }

  lemma {:induction false} StuckTo(s: System, sched: seq<nat>, R: nat, k: nat)
    requires Inv(s) && k < |s.pc| && Stuck(s, k) && Schedule(sched, |s.pc|)
    ensures Stuck(RunTo(s, sched, R), k) && RunTo(s, sched, R).exits[k] == s.exits[k]
    decreases |sched|
  {
    if sched != [] {
      StuckStep(s, sched[0], k);
      var t := Move(s, sched[0], R);
      assert RunTo(s, sched, R) == RunTo(t, sched[1..], R);
      StuckTo(t, sched[1..], R, k);
    }
  }

  lemma {:induction false} StuckSweeps(s: System, sweeps: seq<seq<nat>>, R: nat, k: nat)
    requires Inv(s) && k < |s.pc| && Stuck(s, k) && Sweeps(sweeps, |s.pc|)
    ensures RunSweeps(s, sweeps, R).exits[k] == s.exits[k]
    decreases |sweeps|
  {
    if sweeps != [] {
      assert Sweep(sweeps[0], |s.pc|);
      StuckTo(s, sweeps[0], R, k);
      StuckSweeps(RunTo(s, sweeps[0], R), sweeps[1..], R, k);
    }
  }

  /** Hart 0 storing ahead of hart k reaches word k first when nobody else is scheduled. */
  lemma {:induction false} Overtake(s: System, sched: seq<nat>, R: nat, k: nat)
    requires Inv(s) && 0 < k < |s.pc| && OwnWordAhead(s, k) && Schedule(sched, |s.pc|)
    requires s.pc[0].Store? && s.pc[0].i <= k && s.exits[0] < R
    requires k - s.pc[0].i < |sched| && forall t | 0 <= t <= k - s.pc[0].i :: sched[t] == 0
    ensures Stuck(RunTo(s, sched, R), k) && RunTo(s, sched, R).exits[k] == s.exits[k]
    decreases |sched|
  {
    StepInv(s, 0);
    var t := Step(s, 0);
    if s.pc[0].i == k {
      StuckTo(t, sched[1..], R, k);
    } else {
      Overtake(t, sched[1..], R, k);
    }
  }

  /** The sweep that lets hart 0 run through its store of word k before anybody else moves. */
  function Ambush(n: nat, k: nat): (sched: seq<nat>)
    requires 0 < n
    ensures Sweep(sched, n) && k + 2 <= |sched| && forall t | 0 <= t < k + 2 :: sched[t] == 0
  {
    var sched := seq(k + 2 + n, t => if 0 <= t < k + 2 then 0 else if t < k + 2 + n then t - k - 2 else 0);
    assert forall h: nat | h < n :: h in sched by {
      forall h: nat | h < n ensures h in sched { assert sched[k + 2 + h] == h; }
    }
    sched
  }

  ghost predicate EverybodyPast(s: System)
    requires Shape(s)
  {
    forall k: nat | k < |s.pc| :: !OwnWordAhead(s, k)
  }

  ghost predicate CompletesFairly(s: System, R: nat)
    requires Inv(s)
  {
    forall sweeps | Fair(s, sweeps, R) :: Completes(s, sweeps, R)
  }

  /** Enough sweeps for every hart to take the steps it may still have to take. */
  ghost predicate Fair(s: System, sweeps: seq<seq<nat>>, R: nat)
    requires Inv(s)
  {
    Sweeps(sweeps, |s.pc|) && Measure(s, R) <= |sweeps|
  }

  ghost predicate Completes(s: System, sweeps: seq<seq<nat>>, R: nat)
    requires Inv(s) && Sweeps(sweeps, |s.pc|)
  {
    AllLeft(RunSweeps(s, sweeps, R), R)
  }

  lemma StartInRound(s: System, R: nat)
    requires Inv(s) && s.pc[0].Solo? && EverybodyPast(s) && R == s.exits[0] + 1
    ensures InRound(s, R)
  {
    forall k: nat | k < |s.pc| ensures Placed(s, k, R) {
      assert s.exits[k] <= s.clears[0];
    }
  }

  lemma PastCompletes(s: System, sweeps: seq<seq<nat>>, R: nat)
    requires Inv(s) && s.pc[0].Solo? && EverybodyPast(s) && R == s.exits[0] + 1
    requires Fair(s, sweeps, R)
    ensures Completes(s, sweeps, R)
  {
    StartInRound(s, R);
    RoundCompletes(s, sweeps, R);
  }

  lemma AmbushSticks(s: System, sched: seq<nat>, R: nat, k: nat)
    requires Inv(s) && s.pc[0].Solo? && s.exits[0] < R && 0 < k < |s.pc| && OwnWordAhead(s, k)
    requires sched == Ambush(|s.pc|, k)
    ensures Stuck(RunTo(s, sched, R), k) && RunTo(s, sched, R).exits[k] == s.exits[k]
  {
    StepInv(s, 0);
    assert Schedule(sched[1..], |s.pc|);
    Overtake(Step(s, 0), sched[1..], R, k);
  }

  lemma UnfairToLaggard(s: System, k: nat) returns (sweeps: seq<seq<nat>>)
    requires Inv(s) && s.pc[0].Solo? && k < |s.pc| && OwnWordAhead(s, k)
    ensures Fair(s, sweeps, s.exits[0] + 1)
    ensures RunSweeps(s, sweeps, s.exits[0] + 1).exits[k] <= s.exits[0]
  {
    var R := s.exits[0] + 1;
    var n := |s.pc|;
    var sched := Ambush(n, k);
    var rest := seq(Measure(s, R), _ => sched);
    sweeps := [sched] + rest;
    assert s.exits[k] <= s.exits[0] by { assert s.exits[k] <= s.clears[0]; }
    AmbushSticks(s, sched, R, k);
    assert sweeps[1..] == rest;
    StuckSweeps(RunTo(s, sched, R), rest, R, k);
  }

  lemma PastGuarantees(s: System)
    requires Inv(s) && s.pc[0].Solo? && EverybodyPast(s)
    ensures CompletesFairly(s, s.exits[0] + 1)
  {
    var R := s.exits[0] + 1;
    forall sweeps | Fair(s, sweeps, R) ensures Completes(s, sweeps, R) {
      PastCompletes(s, sweeps, R);
    }
  }

  lemma LaggardSpoils(s: System)
    requires Inv(s) && s.pc[0].Solo? && !EverybodyPast(s)
    ensures !CompletesFairly(s, s.exits[0] + 1)
  {
    var k: nat :| k < |s.pc| && OwnWordAhead(s, k);
    var sweeps := UnfairToLaggard(s, k);
    NotAllLeft(RunSweeps(s, sweeps, s.exits[0] + 1), s.exits[0] + 1, k);
    assert !Completes(s, sweeps, s.exits[0] + 1);
  }

  /** At the start of a round: every fair schedule completes it if and only if no hart of the previous
      round still has to read its own word. */
  lemma RoundGuaranteed(s: System)
    requires Inv(s) && s.pc[0].Solo?
    ensures EverybodyPast(s) <==> CompletesFairly(s, s.exits[0] + 1)
  {
    if EverybodyPast(s) { PastGuarantees(s); } else { LaggardSpoils(s); }
  }

  lemma NotAllLeft(s: System, R: nat, k: nat)
    requires Shape(s) && k < |s.pc| && s.exits[k] < R
    ensures !AllLeft(s, R)
  {
  }

  // ---------- such a start is reachable ----------

  ghost predicate Reachable(s: System) {
    Shape(s) && exists sched :: Schedule(sched, |s.pc|) && Run(Init(|s.pc|), sched) == s
  }

  lemma ReachStep(s: System, h: nat, t: System)
    requires Reachable(s) && h < |s.pc| && t == Step(s, h)
    ensures Reachable(t)
  {
    var sched :| Schedule(sched, |s.pc|) && Run(Init(|s.pc|), sched) == s;
    assert (sched + [h])[..|sched|] == sched;
    StepShape(s, h);
    assert Schedule(sched + [h], |t.pc|) && Run(Init(|t.pc|), sched + [h]) == t;
  }

  function Pair(a: Pc, b: Pc, wa: bool, wb: bool, exits: nat, clears: (nat, nat), solos: nat): System {
    System([a, b], [wa, wb], [exits, 0], [clears.0, clears.1], solos)
  }

  lemma BothWaiting()
    ensures Reachable(Pair(Wait, Wait, true, true, 0, (0, 0), 1))
  {
    var s0 := Pair(Parallel, Parallel, false, false, 0, (0, 0), 0);
    assert s0 == Init(2) && Run(Init(2), []) == s0;
    ReachStep(s0, 1, Pair(Parallel, Wait, false, false, 0, (0, 0), 0));
    ReachStep(Pair(Parallel, Wait, false, false, 0, (0, 0), 0), 0, Pair(Solo, Wait, false, false, 0, (0, 0), 0));
    ReachStep(Pair(Solo, Wait, false, false, 0, (0, 0), 0), 0, Pair(Store(0), Wait, false, false, 0, (0, 0), 1));
    ReachStep(Pair(Store(0), Wait, false, false, 0, (0, 0), 1), 0, Pair(Store(1), Wait, true, false, 0, (0, 0), 1));
    ReachStep(Pair(Store(1), Wait, true, false, 0, (0, 0), 1), 0, Pair(Wait, Wait, true, true, 0, (0, 0), 1));
  }

  lemma OneCleared()
    ensures Reachable(Pair(Poll(0), Wait, false, true, 0, (1, 0), 1))
  {
    BothWaiting();
    ReachStep(Pair(Wait, Wait, true, true, 0, (0, 0), 1), 0, Pair(Clear, Wait, true, true, 0, (0, 0), 1));
    ReachStep(Pair(Clear, Wait, true, true, 0, (0, 0), 1), 0, Pair(Poll(0), Wait, false, true, 0, (1, 0), 1));
  }

  lemma BothPolling()
    ensures Reachable(Pair(Poll(0), Poll(0), false, false, 0, (1, 1), 1))
  {
    OneCleared();
    ReachStep(Pair(Poll(0), Wait, false, true, 0, (1, 0), 1), 1, Pair(Poll(0), Clear, false, true, 0, (1, 0), 1));
    ReachStep(Pair(Poll(0), Clear, false, true, 0, (1, 0), 1), 1, Pair(Poll(0), Poll(0), false, false, 0, (1, 1), 1));
  }

  /** Two harts: hart 0 is through round 1 and about to store for round 2 while hart 1 still polls word 0. */
  lemma OvertakeReachable() returns (s: System)
    ensures Reachable(s) && s.pc == [Solo, Poll(0)] && s.exits == [1, 0] && !EverybodyPast(s)
  {
    BothPolling();
    var t := Pair(Poll(1), Poll(0), false, false, 0, (1, 1), 1);
    ReachStep(Pair(Poll(0), Poll(0), false, false, 0, (1, 1), 1), 0, t);
    ReachStep(t, 0, Pair(Parallel, Poll(0), false, false, 1, (1, 1), 1));
    s := Pair(Solo, Poll(0), false, false, 1, (1, 1), 1);
    ReachStep(Pair(Parallel, Poll(0), false, false, 1, (1, 1), 1), 0, s);
    assert OwnWordAhead(s, 1);
  }

  /** Hart 0 waits for nobody: it can be in its solo section while hart 1 has not paused. */
  lemma SoloAmongParallel() returns (s: System)
    ensures Reachable(s) && s.pc == [Solo, Parallel] && Step(s, 1) != s
  {
    var s0 := Pair(Parallel, Parallel, false, false, 0, (0, 0), 0);
    assert s0 == Init(2) && Run(Init(2), []) == s0;
    s := Pair(Solo, Parallel, false, false, 0, (0, 0), 0);
    ReachStep(s0, 0, s);
  }
}
