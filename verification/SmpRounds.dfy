/** Any number of rounds of the barrier, when hart 0 ends a solo section only once everybody is past its own word of
    the round before. */
module SmpRounds {
  import opened SmpBarrier
  import opened SmpProgress

  /** Hart 0 would set the words while somebody may still have to read its own of the last round. */
  ghost predicate TooEarly(s: System, h: nat)
    requires Shape(s)
  {
    h == 0 && s.pc[0].Solo? && !EverybodyPast(s)
  }

  /** A step of hart h unless it has left its K-th resume; hart 0 stays in its solo section while it is too early. */
  ghost function CarefulMove(s: System, h: nat, K: nat): System
    requires Shape(s) && h < |s.pc|
  {
    if s.exits[h] < K && !TooEarly(s, h) then Step(s, h) else s
  }

  /** Hart 0 sets the words, or waits for or polls those it has set. */
  predicate Resuming(s: System)
    requires Shape(s)
  {
    !s.pc[0].Parallel? && !s.pc[0].Solo?
  }

  /** While hart 0 resumes, nobody left behind still has to read its own word; no hart has left more than K resumes. */
  ghost predicate Careful(s: System, K: nat) {
    && Inv(s)
    && (forall k: nat | k < |s.pc| :: s.exits[k] <= K)
    && (s.exits[0] == K ==> s.pc[0].Parallel?)
    && (Resuming(s) ==> InRound(s, s.exits[0] + 1))
  }

  lemma AtStart(n: nat, K: nat)
    requires 0 < n
    ensures Careful(Init(n), K)
  {
    InitInv(n);
  }

  /** With hart 0 between two rounds everybody is in the round it has left. */
  lemma BetweenRounds(s: System)
    requires Inv(s) && s.pc[0].Parallel?
    ensures InRound(s, s.exits[0])
  {
    forall k: nat | k < |s.pc| ensures Placed(s, k, s.exits[0]) {
      assert s.exits[k] <= s.clears[0] && s.exits[0] <= s.clears[k];
    }
  }

  /** A hart that has left the round already goes no further than its next pause. */
  lemma AheadStays(s: System, h: nat, R: nat)
    requires InRound(s, R) && h < |s.pc| && Resuming(s) && R == s.exits[0] + 1 && s.exits[h] == R
    ensures InRound(Step(s, h), R) && Step(s, h).exits == s.exits
  {
    StepInv(s, h);
    var t := Step(s, h);
    forall k: nat | k < |s.pc| ensures Placed(t, k, R) {
      assert Placed(s, k, R);
    }
  }

  /** A step of one hart counts at most its own exit, and that at the end of its resume. */
  lemma StepExits(s: System, h: nat)
    requires Shape(s) && h < |s.pc|
    ensures var t := Step(s, h);
            && |t.pc| == |s.pc| == |t.exits| && (forall k: nat | k < |s.pc| && k != h :: t.exits[k] == s.exits[k])
            && (t.exits[h] == s.exits[h] || (t.exits[h] == s.exits[h] + 1 && t.pc[h].Parallel?))
            && (h != 0 ==> t.pc[0] == s.pc[0])
  {
  }

  lemma BehindStays(s: System, h: nat, K: nat)
    requires Careful(s, K) && h < |s.pc| && Resuming(s) && s.exits[h] <= s.exits[0] < K
    ensures Careful(Step(s, h), K)
  {
    StepExits(s, h);
    MoveInRound(s, h, s.exits[0] + 1);
  }

  lemma ResumingStays(s: System, h: nat, K: nat)
    requires Careful(s, K) && h < |s.pc| && Resuming(s) && s.exits[h] < K
    ensures Careful(Step(s, h), K)
  {
    if s.exits[h] <= s.exits[0] {
      BehindStays(s, h, K);
    } else {
      assert Placed(s, h, s.exits[0] + 1);
      AheadStays(s, h, s.exits[0] + 1);
    }
  }

  lemma StartingStays(s: System, K: nat)
    requires Careful(s, K) && s.pc[0].Solo? && EverybodyPast(s) && s.exits[0] < K
    ensures Careful(Step(s, 0), K)
  {
    StepInv(s, 0);
    StartInRound(s, s.exits[0] + 1);
    MoveInRound(s, 0, s.exits[0] + 1);
  }

  /** Outside a resume of hart 0 no hart gets ahead of it. */
  lemma OtherStays(s: System, h: nat, K: nat)
    requires Careful(s, K) && h < |s.pc| && !Resuming(s) && !(h == 0 && s.pc[0].Solo?) && s.exits[h] < K
    ensures Careful(Step(s, h), K)
  {
    StepInv(s, h);
  }

  lemma CarefulStays(s: System, h: nat, K: nat)
    requires Careful(s, K) && h < |s.pc|
    ensures Careful(CarefulMove(s, h, K), K) && |CarefulMove(s, h, K).pc| == |s.pc|
  {
    if s.exits[h] < K && !TooEarly(s, h) {
      StepShape(s, h);
      if Resuming(s) {
        ResumingStays(s, h, K);
      } else if h == 0 && s.pc[0].Solo? {
        StartingStays(s, K);
      } else {
        OtherStays(s, h, K);
      }
    }
  }

  // ---------- progress ----------

  /** In a solo section somebody who is not past its own word goes on, since all words are zero. */
  lemma LaggardMoves(s: System, k: nat)
    requires Inv(s) && s.pc[0].Solo? && k < |s.pc| && OwnWordAhead(s, k)
    ensures Step(s, k) != s && s.exits[k] <= s.exits[0]
  {
    SoloHolds(s, k);
    assert s.exits[k] <= s.clears[0];
  }

  /** Some hart has a step that changes the state until all have left K rounds. */
  lemma SomebodyMoves(s: System, K: nat) returns (h: nat)
    requires Careful(s, K) && !AllLeft(s, K)
    ensures h < |s.pc| && CarefulMove(s, h, K) != s
  {
    if s.pc[0].Parallel? && s.exits[0] < K {
      h := 0;
    } else if s.pc[0].Parallel? {
      BetweenRounds(s);
      h := SomeHartMoves(s, K);
    } else if s.pc[0].Solo? && EverybodyPast(s) {
      h := 0;
    } else if s.pc[0].Solo? {
      h :| h < |s.pc| && OwnWordAhead(s, h);
      LaggardMoves(s, h);
    } else {
      assert s.exits[0] != s.exits[0] + 1;
      h := SomeHartMoves(s, s.exits[0] + 1);
    }
  }

  ghost function CarefulRun(s: System, sched: seq<nat>, K: nat): (r: System)
    requires Careful(s, K) && Schedule(sched, |s.pc|)
    ensures Careful(r, K) && |r.pc| == |s.pc|
    decreases |sched|
  {
    if sched == [] then s
    else
      CarefulStays(s, sched[0], K);
      CarefulRun(CarefulMove(s, sched[0], K), sched[1..], K)
  }

  ghost function CarefulSweeps(s: System, sweeps: seq<seq<nat>>, K: nat): (r: System)
    requires Careful(s, K) && Sweeps(sweeps, |s.pc|)
    ensures Careful(r, K) && |r.pc| == |s.pc|
    decreases |sweeps|
  {
    if sweeps == [] then s else CarefulSweeps(CarefulRun(s, sweeps[0], K), sweeps[1..], K)
  }

  lemma CarefulLowers(s: System, h: nat, K: nat)
    requires Careful(s, K) && h < |s.pc|
    ensures var t := CarefulMove(s, h, K); t == s || Measure(t, K) < Measure(s, K)
  {
    CarefulStays(s, h, K);
    if s.exits[h] < K { StepLowers(s, h, K); }
  }

  lemma {:induction false} RunLowers(s: System, sched: seq<nat>, K: nat, h: nat)
    requires Careful(s, K) && Schedule(sched, |s.pc|) && h < |s.pc|
    ensures Measure(CarefulRun(s, sched, K), K) <= Measure(s, K)
    ensures h in sched && CarefulMove(s, h, K) != s ==> Measure(CarefulRun(s, sched, K), K) < Measure(s, K)
    decreases |sched|
  {
    if sched != [] {
      CarefulStays(s, sched[0], K);
      CarefulLowers(s, sched[0], K);
      RunLowers(CarefulMove(s, sched[0], K), sched[1..], K, h);
    }
  }

  lemma {:induction false} AllLeftRun(s: System, sched: seq<nat>, K: nat)
    requires Careful(s, K) && AllLeft(s, K) && Schedule(sched, |s.pc|)
    ensures CarefulRun(s, sched, K) == s
    decreases |sched|
  {
    if sched != [] {
      CarefulStays(s, sched[0], K);
      AllLeftRun(s, sched[1..], K);
    }
  }

  /** Every fair schedule brings all harts out of all K rounds. */
  lemma {:induction false} SweepsComplete(s: System, sweeps: seq<seq<nat>>, K: nat)
    requires Careful(s, K) && Sweeps(sweeps, |s.pc|) && Measure(s, K) <= |sweeps|
    ensures AllLeft(CarefulSweeps(s, sweeps, K), K)
    decreases |sweeps|
  {
    if sweeps != [] {
      assert Sweep(sweeps[0], |s.pc|);
      if AllLeft(s, K) {
        AllLeftRun(s, sweeps[0], K);
        NothingLeft(s, K, |s.pc|);
        SweepsComplete(s, sweeps[1..], K);
      } else {
        var h := SomebodyMoves(s, K);
        RunLowers(s, sweeps[0], K, h);
        SweepsComplete(CarefulRun(s, sweeps[0], K), sweeps[1..], K);
      }
    } else if !AllLeft(s, K) {
      var h := SomebodyMoves(s, K);
      CarefulLowers(s, h, K);
    }
  }

  /** From reset: with a hart 0 that waits for everybody to be past its own word before it resumes, any number of
      rounds completes under every fair schedule, and all words are zero again. */
  lemma AllRoundsComplete(n: nat, K: nat, sweeps: seq<seq<nat>>)
    requires 0 < n && Sweeps(sweeps, n) && Measure(Init(n), K) <= |sweeps|
    ensures Careful(Init(n), K)
    ensures var r := CarefulSweeps(Init(n), sweeps, K);
            AllLeft(r, K) && r.solos == K && forall j | 0 <= j < n :: !r.msip[j]
  {
    AtStart(n, K);
    SweepsComplete(Init(n), sweeps, K);
    WordsZero(CarefulSweeps(Init(n), sweeps, K), K);
  }

  lemma WordsZero(s: System, K: nat)
    requires Careful(s, K) && AllLeft(s, K)
    ensures s.solos == K && forall j | 0 <= j < |s.pc| :: !s.msip[j]
  {
    assert forall j | 0 <= j < |s.pc| :: s.exits[0] <= s.clears[j] && Stores(s, j) == K;
  }
}
