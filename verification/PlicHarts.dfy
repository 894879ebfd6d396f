/** `PLIC_enable_interrupt` and `PLIC_disable_interrupt` on several harts at once: the load of the enable byte and
    the store of the changed one are separate steps, and steps of different harts interleave in any way. */
module PlicHarts {
  import opened Plic

  datatype Register = Free | Loaded(b: bv8)

  /** `todo[h]` are the calls hart h still has to finish, the first of them under way once its byte is loaded.
      `log` is the history of finished calls, in the order of their stores. */
  datatype System = System(mem: seq<bv8>, todo: seq<seq<Op>>, reg: seq<Register>, log: seq<Op>)

  /** The calls of hart h; each works on the enable bits of the hart that makes it. */
  ghost predicate CallsOf(ops: seq<Op>, h: nat) {
    forall i | 0 <= i < |ops| :: ops[i].hart == h && Exists(h, ops[i].source)
  }

  ghost predicate Programs(programs: seq<seq<Op>>) {
    forall h: nat | h < |programs| :: CallsOf(programs[h], h)
  }

  ghost predicate Shape(s: System) {
    && |s.mem| == 0x400_0000 && |s.reg| == |s.todo| && Programs(s.todo)
    && forall h | 0 <= h < |s.todo| :: s.reg[h].Loaded? ==> s.todo[h] != []
  }

  function Start(mem: seq<bv8>, programs: seq<seq<Op>>): System {
    System(mem, programs, seq(|programs|, _ => Free), [])
  }

  lemma AddressInMap(s: System, h: nat)
    requires Shape(s) && h < |s.todo| && s.todo[h] != []
    ensures s.todo[h][0].hart == h && Exists(h, s.todo[h][0].source) && Address(s.todo[h][0]) < |s.mem|
  {
    assert CallsOf(s.todo[h], h);
    EnableByteInjective(h, s.todo[h][0].source, h, s.todo[h][0].source);
  }

  /** One bus access of hart h. */
  function Step(s: System, h: nat): System
    requires Shape(s) && h < |s.todo|
  {
    if s.todo[h] == [] then s
    else
      var op := s.todo[h][0];
      AddressInMap(s, h);
      match s.reg[h]
      case Free => s.(reg := s.reg[h := Loaded(s.mem[Address(op)])])
      case Loaded(b) =>
        s.(mem := s.mem[Address(op) := Changed(b, op)], reg := s.reg[h := Free],
           todo := s.todo[h := s.todo[h][1..]], log := s.log + [op])
  }

  lemma StepShape(s: System, h: nat)
    requires Shape(s) && h < |s.todo|
    ensures Shape(Step(s, h)) && |Step(s, h).todo| == |s.todo|
  {
    assert forall k: nat | k < |s.todo| :: CallsOf(s.todo[k], k);
  }

  /** A loaded byte is still what memory holds: only its own hart stores there. */
  ghost predicate Fresh(s: System)
    requires Shape(s)
  {
    forall h: nat | h < |s.todo| && s.reg[h].Loaded? ::
      Address(s.todo[h][0]) < |s.mem| && s.mem[Address(s.todo[h][0])] == s.reg[h].b
  }

  ghost predicate Inv(s: System, enabled: set<(nat, nat)>) {
    Shape(s) && Fresh(s) && Represents(s.mem, ApplyAll(enabled, s.log))
  }

  lemma StepFresh(s: System, h: nat)
    requires Shape(s) && h < |s.todo| && Fresh(s)
    ensures Shape(Step(s, h)) && Fresh(Step(s, h))
  {
    StepShape(s, h);
    var t := Step(s, h);
    forall k: nat | k < |t.todo| && t.reg[k].Loaded?
      ensures Address(t.todo[k][0]) < |t.mem| && t.mem[Address(t.todo[k][0])] == t.reg[k].b
    {
      AddressInMap(t, k);
      if k != h && s.todo[h] != [] {
        AddressInMap(s, h);
        EnableByteInjective(k, t.todo[k][0].source, h, s.todo[h][0].source);
      }
    }
  }

  lemma StepInv(s: System, h: nat, enabled: set<(nat, nat)>)
    requires Inv(s, enabled) && h < |s.todo|
    ensures Inv(Step(s, h), enabled) && |Step(s, h).todo| == |s.todo|
  {
    StepFresh(s, h);
    StepShape(s, h);
    if s.reg[h].Loaded? {
      var op := s.todo[h][0];
      AddressInMap(s, h);
      assert (s.log + [op])[..|s.log|] == s.log;
      OneBit(s.mem, Step(s, h).mem, ApplyAll(enabled, s.log), op);
    }
  }

  ghost predicate Schedule(sched: seq<nat>, n: nat) {
    forall t | 0 <= t < |sched| :: sched[t] < n
  }

  function Run(s: System, sched: seq<nat>): (r: System)
    requires Shape(s) && Schedule(sched, |s.todo|)
    ensures Shape(r) && |r.todo| == |s.todo|
    decreases |sched|
  {
    if sched == [] then s
    else
      StepShape(s, sched[0]);
      Run(Step(s, sched[0]), sched[1..])
  }

  /** The calls of one hart in a history. */
  function OfHart(log: seq<Op>, h: nat): seq<Op> {
    if log == [] then []
    else OfHart(log[..|log| - 1], h) + if log[|log| - 1].hart == h then [log[|log| - 1]] else []
  }

  /** Every hart's calls, in its own order: those in the history and those to do. */
  ghost predicate Splits(s: System, programs: seq<seq<Op>>) {
    |s.todo| == |programs| && forall h: nat | h < |programs| :: programs[h] == OfHart(s.log, h) + s.todo[h]
  }

  lemma OneMoreApplied(enabled: set<(nat, nat)>, log: seq<Op>, op: Op)
    ensures ApplyAll(enabled, log + [op]) == Apply(ApplyAll(enabled, log), op)
  {
    assert (log + [op])[..|log|] == log;
  }

  lemma OneMoreOfHart(log: seq<Op>, op: Op, h: nat)
    ensures OfHart(log + [op], h) == if op.hart == h then OfHart(log, h) + [op] else OfHart(log, h)
  {
    assert (log + [op])[..|log|] == log;
  }

  lemma StepSplits(s: System, h: nat, programs: seq<seq<Op>>)
    requires Shape(s) && h < |s.todo| && Splits(s, programs)
    ensures Splits(Step(s, h), programs)
  {
    if s.reg[h].Loaded? {
      var op, t := s.todo[h][0], Step(s, h);
      AddressInMap(s, h);
      forall k: nat | k < |programs| ensures programs[k] == OfHart(t.log, k) + t.todo[k] {
        OneMoreOfHart(s.log, op, k);
        if k == h { assert s.todo[h] == [op] + t.todo[h]; }
      }
    }
  }

  lemma {:induction false} RunInv(s: System, sched: seq<nat>, enabled: set<(nat, nat)>, programs: seq<seq<Op>>)
    requires Inv(s, enabled) && Schedule(sched, |s.todo|) && Splits(s, programs)
    ensures Inv(Run(s, sched), enabled) && Splits(Run(s, sched), programs)
    decreases |sched|
  {
    if sched != [] {
      StepInv(s, sched[0], enabled);
      StepSplits(s, sched[0], programs);
      RunInv(Step(s, sched[0]), sched[1..], enabled, programs);
    }
  }

  /** A hart's pairs depend on its own calls only. */
  lemma {:induction false} OwnCallsDecide(enabled: set<(nat, nat)>, log: seq<Op>, h: nat, source: nat)
    ensures (h, source) in ApplyAll(enabled, log) <==> (h, source) in ApplyAll(enabled, OfHart(log, h))
    decreases |log|
  {
    if log != [] {
      var before, last := log[..|log| - 1], log[|log| - 1];
      assert log == before + [last];
      OwnCallsDecide(enabled, before, h, source);
      OneMoreOfHart(before, last, h);
      OneMoreApplied(enabled, before, last);
      if last.hart == h { OneMoreApplied(enabled, OfHart(before, h), last); }
    }
  }

  /** No update is lost in any interleaving: the enable bits are at all times the set that the finished calls
      describe, in the order of their stores, and each hart finishes its calls in its own order. */
  lemma NoUpdateLost(mem: seq<bv8>, programs: seq<seq<Op>>, enabled: set<(nat, nat)>, sched: seq<nat>)
    requires Represents(mem, enabled) && Programs(programs) && Schedule(sched, |programs|)
    ensures Shape(Start(mem, programs))
    ensures var r := Run(Start(mem, programs), sched);
            Represents(r.mem, ApplyAll(enabled, r.log)) && Splits(r, programs)
  {
    RunInv(Start(mem, programs), sched, enabled, programs);
  }

  /** Once all are done, the bits of every hart are what its own calls, one after the other, would have left:
      whatever the schedule was. */
  lemma ScheduleDoesNotMatter(mem: seq<bv8>, programs: seq<seq<Op>>, enabled: set<(nat, nat)>, sched: seq<nat>,
                              h: nat, source: nat)
    requires Represents(mem, enabled) && Programs(programs) && Schedule(sched, |programs|)
    requires h < |programs| && Exists(h, source) && Shape(Start(mem, programs))
    requires Run(Start(mem, programs), sched).todo[h] == []
    ensures Bit(Run(Start(mem, programs), sched).mem[EnableByte(h, source)], source)
            <==> (h, source) in ApplyAll(enabled, programs[h])
  {
    NoUpdateLost(mem, programs, enabled, sched);
    DoneBits(Run(Start(mem, programs), sched), programs, enabled, h, source);
  }

  lemma DoneBits(r: System, programs: seq<seq<Op>>, enabled: set<(nat, nat)>, h: nat, source: nat)
    requires Represents(r.mem, ApplyAll(enabled, r.log)) && Splits(r, programs)
    requires h < |programs| && Exists(h, source) && r.todo[h] == []
    ensures EnableByte(h, source) < |r.mem|
    ensures Bit(r.mem[EnableByte(h, source)], source) <==> (h, source) in ApplyAll(enabled, programs[h])
  {
    EnableByteInjective(h, source, h, source);
    OwnCallsDecide(enabled, r.log, h, source);
    assert programs[h] == OfHart(r.log, h) + [] == OfHart(r.log, h);
  }

  // ---------- a trap between the load and the store ----------

  /** A hart has loaded the byte for `outer`; a trap handler on it then makes the whole call `inner` about another
      source of that byte, and `outer` stores.  The set is then as if `inner` had not been, so the update is lost
      unless it changed nothing. */
  lemma TrapLosesUpdate(mem: seq<bv8>, enabled: set<(nat, nat)>, outer: Op, inner: Op)
    requires Represents(mem, enabled) && Exists(outer.hart, outer.source) && Exists(inner.hart, inner.source)
    requires outer.hart == inner.hart && Address(outer) == Address(inner) < |mem| && outer.source != inner.source
    ensures var a := Address(outer);
            var trapped := mem[a := Changed(mem[a], inner)];
            Represents(trapped[a := Changed(mem[a], outer)], Apply(enabled, outer))
    ensures Apply(enabled, outer) == Apply(Apply(enabled, inner), outer) <==> Apply(enabled, inner) == enabled
  {
    var a := Address(outer);
    var trapped := mem[a := Changed(mem[a], inner)];
    assert trapped[a := Changed(mem[a], outer)] == mem[a := Changed(mem[a], outer)];
    OneBit(mem, mem[a := Changed(mem[a], outer)], enabled, outer);
    var pair := (inner.hart, inner.source);
    assert pair in Apply(Apply(enabled, inner), outer) <==> inner.Enable?;
    assert pair in Apply(enabled, outer) <==> pair in enabled;
    assert Apply(enabled, inner) == enabled <==> (pair in enabled <==> inner.Enable?);
  }
}
