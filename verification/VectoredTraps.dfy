/** The vectored entry, which saves the caller-saved registers, and traps nested in its handlers. */
module VectoredTraps {
  import opened Trap
  import opened TrapNesting

  /** sp, gp, tp and s0-s11: RISC-V psABI, "Integer Register Convention". */
  predicate CalleeSaved(k: nat) { k == 2 || k == 3 || k == 4 || k == 8 || k == 9 || 18 <= k <= 27 }

  ghost predicate InTable(t: Table, k: nat) { exists i | 0 <= i < |t| :: t[i].0 == k }

  /** The table and the callee-saved registers partition x1..x31, and the slots fit the frame. */
  ghost predicate CallerTable(t: Table) {
    && Injective(t)
    && (forall k: nat | 1 <= k < 32 :: CalleeSaved(k) <==> !InTable(t, k))
    && forall i | 0 <= i < |t| :: t[i].1 < 16
  }

  lemma CallerIsCallerTable()
    ensures CallerTable(CALLER)
  {
    var t := CALLER;
    assert forall i: nat | i < 16 :: t[i] == (CallerRegister(i), i);
    forall k: nat | 1 <= k < 32 && !CalleeSaved(k) ensures InTable(t, k) {
      var i := if k == 1 then 0 else if k < 8 then k - 4 else if k < 18 then k - 6 else k - 16;
      assert t[i].0 == k;
    }
  }

  function CallerRegister(i: nat): nat {
    if i == 0 then 1 else if i < 4 then i + 4 else if i < 12 then i + 6 else i + 16
  }

  /** TRAP_ENTRY and TRAP_EXIT around a handler that keeps the callee-saved registers and the frame give every
      register back.  They leave mepc alone: execution resumes where the handler left mepc pointing. */
  lemma VectoredReturns(m: Machine, after: Machine, t: Table)
    requires Shape(m) && Shape(after) && CallerTable(t) && Program(VEntry(t)) && Program(VExit(t))
    requires var called := RunCode(m, VEntry(t));
             && (forall k: nat | 1 <= k < 32 && CalleeSaved(k) :: after.x[k] == called.x[k])
             && (forall i | 0 <= i < |t| :: Peek(after, Slot(called, t[i].1)) == Peek(called, Slot(called, t[i].1)))
    ensures var r := RunCode(after, VExit(t)); r.x == m.x && r.mem == after.mem && r.mepc == after.mepc && r.mpp
  {
    var low := Lowered(m, 16);
    RunOne(m, AddSp(-16));
    RunAppend(m, [AddSp(-16)], Stores(t));
    SavesAll(low, t);
    var n := after.(x := after.x[T0 := MSTATUS_MPP], mpp := true);
    VExitRuns(after, n, t);
    LoadsAll(n, t);
    var r := RunCode(n, Loads(t));
    VectoredBack(m, RunCode(m, VEntry(t)), after, n, r, t);
    assert Lowered(r, -16).x == m.x;
  }

  lemma VExitRuns(after: Machine, n: Machine, t: Table)
    requires Shape(after) && CallerTable(t) && Program(VExit(t))
    requires n == after.(x := after.x[T0 := MSTATUS_MPP], mpp := true)
    ensures RunCode(after, VExit(t)) == Lowered(RunCode(n, Loads(t)), -16)
  {
    RunOne(after, SetMpp);
    RunAppend(after, [SetMpp], Loads(t));
    RunOne(RunCode(n, Loads(t)), AddSp(16));
    RunAppend(after, [SetMpp] + Loads(t), [AddSp(16)]);
  }

  lemma VectoredBack(m: Machine, called: Machine, after: Machine, n: Machine, r: Machine, t: Table)
    requires Shape(m) && Shape(called) && Shape(after) && Shape(n) && Shape(r) && CallerTable(t)
    requires called == Lowered(m, 16).(mem := called.mem) && n == after.(x := after.x[T0 := MSTATUS_MPP], mpp := true)
    requires forall i | 0 <= i < |t| :: Peek(called, Slot(called, t[i].1)) == Lowered(m, 16).x[t[i].0]
    requires forall k: nat | 1 <= k < 32 && CalleeSaved(k) :: after.x[k] == called.x[k]
    requires forall i | 0 <= i < |t| :: Peek(after, Slot(called, t[i].1)) == Peek(called, Slot(called, t[i].1))
    requires forall i | 0 <= i < |t| :: r.x[t[i].0] == Peek(n, Slot(n, t[i].1))
    requires forall k | 0 <= k < 32 :: (forall i | 0 <= i < |t| :: k != t[i].0) ==> r.x[k] == n.x[k]
    ensures forall k: nat | k < 32 :: Lowered(r, -16).x[k] == m.x[k]
  {
    assert n.x[SP] == called.x[SP];
    forall k: nat | 1 <= k < 32 ensures Lowered(r, -16).x[k] == m.x[k] {
      if InTable(t, k) {
        var i :| 0 <= i < |t| && t[i].0 == k;
        assert Slot(n, t[i].1) == Slot(called, t[i].1);
      } else {
        assert CalleeSaved(k) && after.x[k] == called.x[k];
      }
    }
  }

  /** The table of ventry.S makes programs. */
  lemma VectoredIsUsable()
    ensures CallerTable(CALLER) && VUsable(CALLER)
  {
    CallerIsCallerTable();
    assert VEntry(CALLER) == [AddSp(-16)] + Stores(CALLER);
    assert VExit(CALLER) == [SetMpp] + Loads(CALLER) + [AddSp(16)];
  }

  // ---------- nesting ----------

  predicate VUsable(v: Table) { Program(VEntry(v)) && Program(VExit(v)) }

  /** A hart has one trap vector, so with this entry the nested traps come in through it as well. */
  function VCalled(m: Machine, cause: int, pc: int, v: Table): (r: Machine)
    requires Shape(m) && VUsable(v)
    ensures Shape(r)
  {
    RunCode(m.(mcause := cause, mepc := pc), VEntry(v))
  }

  ghost function RunVBody(m: Machine, b: Body, v: Table): (r: Machine)
    requires Shape(m) && Shaped(b) && VUsable(v)
    ensures Shape(r)
    decreases b, 0
  {
    match b
    case Done => m
    case Work(f, _, rest) => RunVBody(f(m), rest, v)
    case Nested(cause, pc, inner, rest) => RunVBody(RunVTrap(m, cause, pc, inner, v), rest, v)
  }

  ghost function RunVTrap(m: Machine, cause: int, pc: int, handler: Body, v: Table): (r: Machine)
    requires Shape(m) && Shaped(handler) && VUsable(v)
    ensures Shape(r)
    decreases handler, 1
  {
    RunCode(RunVBody(VCalled(m, cause, pc, v), handler, v), VExit(v))
  }

  /** Where the traps during a handler were taken, at any depth, in the order in which they were taken. */
  function Taken(b: Body): seq<int> {
    match b
    case Done => []
    case Work(_, _, rest) => Taken(rest)
    case Nested(_, pc, inner, rest) => [pc] + Taken(inner) + Taken(rest)
  }

  function Last(pcs: seq<int>, pc: int): int { if pcs == [] then pc else pcs[|pcs| - 1] }

  ghost predicate SameSaved(x: seq<int>, y: seq<int>)
    requires |x| == 32 == |y|
  {
    forall k: nat | 1 <= k < 32 && CalleeSaved(k) :: x[k] == y[k]
  }

  /** A handler by the calling convention: its work stays below the sp it was called with, leaves memory from there
      up alone and does not write mepc; at the end sp and the other callee-saved registers are as they were.  Traps
      nested in it have such handlers.  What it does after one is what the hart does then, wherever it resumed. */
  ghost predicate VBehaves(m: Machine, b: Body, base: int, x: seq<int>, v: Table)
    requires Shape(m) && Shaped(b) && |x| == 32 && VUsable(v)
    decreases b, 0
  {
    match b
    case Done => m.x[SP] == base && SameSaved(m.x, x)
    case Work(f, _, rest) =>
      f(m).x[SP] <= base && SameFrom(m, f(m), base) && f(m).mepc == m.mepc && VBehaves(f(m), rest, base, x, v)
    case Nested(cause, pc, inner, rest) =>
      && m.x[SP] <= base && VHandlerBehaves(m, cause, pc, inner, v)
      && VBehaves(RunVTrap(m, cause, pc, inner, v), rest, base, x, v)
  }

  ghost predicate VHandlerBehaves(m: Machine, cause: int, pc: int, handler: Body, v: Table)
    requires Shape(m) && Shaped(handler) && VUsable(v)
    decreases handler, 1
  {
    VBehaves(VCalled(m, cause, pc, v), handler, m.x[SP] - 16 * REGBYTES, VCalled(m, cause, pc, v).x, v)
  }

  lemma {:induction false} VBodyKeeps(m: Machine, b: Body, base: int, x: seq<int>, v: Table)
    requires Shape(m) && Shaped(b) && |x| == 32 && CallerTable(v) && VUsable(v) && VBehaves(m, b, base, x, v)
    ensures var r := RunVBody(m, b, v);
            r.x[SP] == base && SameFrom(m, r, base) && SameSaved(r.x, x) && r.mepc == Last(Taken(b), m.mepc)
    decreases b, 0
  {
    match b
    case Done =>
    case Work(f, _, rest) =>
      VBodyKeeps(f(m), rest, base, x, v);
      SameFromChain(m, f(m), RunVBody(f(m), rest, v), base, base);
    case Nested(cause, pc, inner, rest) =>
      VectoredNesting(m, cause, pc, inner, v);
      var n := RunVTrap(m, cause, pc, inner, v);
      VBodyKeeps(n, rest, base, x, v);
      SameFromChain(m, n, RunVBody(n, rest, v), base, m.x[SP]);
      LastOfThree(pc, Taken(inner), Taken(rest), m.mepc);
  }

  lemma LastOfThree(pc: int, inner: seq<int>, rest: seq<int>, mepc: int)
    ensures Last([pc] + inner + rest, mepc) == Last(rest, Last(inner, pc))
  {
  }

  /** A vectored trap, with vectored traps nested in it to any depth, gives back all registers and memory from sp
      up.  But mepc is then where the last trap of all was taken, so that execution resumes at the interrupted pc if
      and only if there was none during the handler or the last one was taken at that very place. */
  lemma {:induction false} VectoredNesting(m: Machine, cause: int, pc: int, handler: Body, v: Table)
    requires Shape(m) && Shaped(handler) && CallerTable(v) && VUsable(v) && VHandlerBehaves(m, cause, pc, handler, v)
    ensures var r := RunVTrap(m, cause, pc, handler, v);
            && r.x == m.x && SameFrom(m, r, m.x[SP]) && r.mpp && r.mepc == Last(Taken(handler), pc)
    decreases handler, 1
  {
    var n := m.(mcause := cause, mepc := pc);
    var called := VCalled(m, cause, pc, v);
    VEntrySaves(n, v);
    VBodyKeeps(called, handler, m.x[SP] - 16 * REGBYTES, called.x, v);
    var after := RunVBody(called, handler, v);
    FrameKept(called, after, v);
    VectoredReturns(n, after, v);
    SameFromChain(m, called, after, m.x[SP], m.x[SP]);
  }

  lemma FrameKept(called: Machine, after: Machine, v: Table)
    requires Shape(called) && Shape(after) && SameFrom(called, after, called.x[SP])
    ensures forall i | 0 <= i < |v| :: Peek(after, Slot(called, v[i].1)) == Peek(called, Slot(called, v[i].1))
  {
  }

  /** The vectored entry changes sp and the 16 words of the frame. */
  lemma VEntrySaves(m: Machine, v: Table)
    requires Shape(m) && CallerTable(v) && VUsable(v)
    ensures var r := RunCode(m, VEntry(v));
            && r == Lowered(m, 16).(mem := r.mem) && SameFrom(m, r, m.x[SP])
            && forall a | a < r.x[SP] :: Peek(m, a) == Peek(r, a)
  {
    var low := Lowered(m, 16);
    RunOne(m, AddSp(-16));
    RunAppend(m, [AddSp(-16)], Stores(v));
    SavesAll(low, v);
    assert forall i | 0 <= i < |v| :: low.x[SP] <= Slot(low, v[i].1) < m.x[SP];
  }

  /** The least such case, with the table of ventry.S: one trap inside an otherwise empty handler, and the code that
      was interrupted first resumes at the pc of the second trap. */
  lemma OneNestedTrap(m: Machine, cause: int, pc: int, innerCause: int, innerPc: int)
    requires Shape(m)
    ensures var handler := Nested(innerCause, innerPc, Done, Done);
            && VUsable(CALLER) && Shaped(handler) && VHandlerBehaves(m, cause, pc, handler, CALLER)
            && RunVTrap(m, cause, pc, handler, CALLER).mepc == innerPc
  {
    VectoredIsUsable();
    var called := VCalled(m, cause, pc, CALLER);
    VEntrySaves(m.(mcause := cause, mepc := pc), CALLER);
    VEntrySaves(called.(mcause := innerCause, mepc := innerPc), CALLER);
    VectoredNesting(called, innerCause, innerPc, Done, CALLER);
    VectoredNesting(m, cause, pc, Nested(innerCause, innerPc, Done, Done), CALLER);
  }
}
