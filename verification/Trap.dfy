/** Trap entry and exit: `trap_entry` saves every register, the vectored form the caller-saved ones.
    Memory is a map from addresses to register-sized words; the stack does not wrap. */
module Trap {

  const REGBYTES := 4
  const SP := 2
  const T0 := 5
  const A0 := 10
  const A1 := 11
  const A2 := 12

  datatype Machine = Machine(x: seq<int>, mem: map<int, int>, mcause: int, mepc: int, mpp: bool)

  predicate Shape(m: Machine) { |m.x| == 32 && m.x[0] == 0 }

  function Peek(m: Machine, a: int): int { if a in m.mem then m.mem[a] else 0 }

  function Word(base: int, slot: int): int { base + slot * REGBYTES }

  function Slot(m: Machine, slot: nat): int
    requires Shape(m)
  {
    Word(m.x[SP], slot)
  }

  /** The instructions of the two entry files.  `SetMpp` is the pair that keeps the hart in machine mode after
      `mret`. */
  datatype Instr = AddSp(words: int) | StoreX(r: nat, slot: nat) | LoadX(r: nat, slot: nat)
    | CsrrMcause(r: nat) | CsrrMepc(r: nat) | MvSp(r: nat) | CsrwMepc(r: nat) | SetMpp

  predicate Encodable(i: Instr) { i.AddSp? || i.SetMpp? || 0 < i.r < 32 }

  const MSTATUS_MPP: int := 0x1800

  /** Bits 11 and 12 of mstatus, both set, stand for machine mode. */
  predicate SetsMpp(bits: int) { bits / 0x800 % 4 == 3 }

  function Exec(m: Machine, i: Instr): (r: Machine)
    requires Shape(m) && Encodable(i)
    ensures Shape(r)
  {
    match i
    case AddSp(words) => m.(x := m.x[SP := m.x[SP] + words * REGBYTES])
    case StoreX(r, slot) => m.(mem := m.mem[Slot(m, slot) := m.x[r]])
    case LoadX(r, slot) => m.(x := m.x[r := Peek(m, Slot(m, slot))])
    case CsrrMcause(r) => m.(x := m.x[r := m.mcause])
    case CsrrMepc(r) => m.(x := m.x[r := m.mepc])
    case MvSp(r) => m.(x := m.x[r := m.x[SP]])
    case CsrwMepc(r) => m.(mepc := m.x[r])
    case SetMpp => m.(x := m.x[T0 := MSTATUS_MPP], mpp := m.mpp || SetsMpp(MSTATUS_MPP))
  }

  predicate Program(code: seq<Instr>) { forall i | 0 <= i < |code| :: Encodable(code[i]) }

  function RunCode(m: Machine, code: seq<Instr>): (r: Machine)
    requires Shape(m) && Program(code)
    ensures Shape(r)
    decreases |code|
  {
    if code == [] then m else RunCode(Exec(m, code[0]), code[1..])
  }

  /** The hart itself, with its registers, memory and CSRs updated in place. */
  class Hart {
    var x: seq<int>
    var mem: map<int, int>
    var mcause: int
    var mepc: int
    var mpp: bool

    function State(): Machine
      reads this
    {
      Machine(x, mem, mcause, mepc, mpp)
    }

    constructor (m: Machine)
      ensures State() == m
    {
      x, mem, mcause, mepc, mpp := m.x, m.mem, m.mcause, m.mepc, m.mpp;
    }

    /** One instruction. */
    method ExecuteOne(i: Instr)
      requires Shape(State()) && Encodable(i)
      modifies this
      ensures State() == Exec(old(State()), i)
    {
      match i {
        case AddSp(words) => x := x[SP := x[SP] + words * REGBYTES];
        case StoreX(r, slot) => mem := mem[x[SP] + slot * REGBYTES := x[r]];
        case LoadX(r, slot) =>
          var a := x[SP] + slot * REGBYTES;
          x := x[r := if a in mem then mem[a] else 0];
        case CsrrMcause(r) => x := x[r := mcause];
        case CsrrMepc(r) => x := x[r := mepc];
        case MvSp(r) => x := x[r := x[SP]];
        case CsrwMepc(r) => mepc := x[r];
        case SetMpp => x, mpp := x[T0 := MSTATUS_MPP], mpp || SetsMpp(MSTATUS_MPP);
      }
    }

    /** Instructions in a row, one after the other. */
    method Execute(code: seq<Instr>)
      requires Shape(State()) && Program(code)
      modifies this
      ensures State() == RunCode(old(State()), code)
    {
      var pc := 0;
      while pc < |code|
        invariant pc <= |code| && Shape(State())
        invariant RunCode(old(State()), code) == RunCode(State(), code[pc..])
      {
        assert code[pc..][1..] == code[pc + 1..];
        ExecuteOne(code[pc]);
        pc := pc + 1;
      }
    }

    /** The trap itself and `trap_entry` up to the call of the handler. */
    method EnterTrap(cause: int, pc: int)
      requires Shape(State())
      modifies this
      ensures Shape(State()) && x[SP] == old(x[SP]) - 32 * REGBYTES && Saved(old(State()), State(), x[SP])
      ensures x[A0] == cause && x[A1] == pc && x[A2] == x[SP]
      ensures forall a | a < x[SP] || old(x[SP]) <= a :: Peek(State(), a) == Peek(old(State()), a)
    {
      mcause, mepc := cause, pc;
      FullTable();
      FullIsInjective(FULL);
      EntrySaves(State(), FULL);
      ghost var taken := State();
      SavedOfSame(old(State()), taken, RunCode(taken, Entry(FULL)), old(x[SP]) - 32 * REGBYTES);
      Execute(Entry(FULL));
    }

    /** `trap_entry` after the handler: whatever it did, if the frame of m is still there the hart is m again,
        with mepc as the handler returned it. */
    method LeaveTrap(ghost m: Machine)
      requires Shape(m) && Shape(State()) && x[SP] == m.x[SP] - 32 * REGBYTES && Saved(m, State(), x[SP])
      modifies this
      ensures x == m.x && mepc == old(x[A0]) && mem == old(mem) && mpp
    {
      FullTable();
      FullIsInjective(FULL);
      ExitRestores(m, State(), FULL);
      Execute(Exit(FULL));
    }
  }

  // ---------- save and restore tables ----------

  type Table = seq<(nat, nat)>

  /** Which register goes to which slot: all of x1..x31, eight at a time. */
  const X1TO8: Table := [(1, 1), (2, 2), (3, 3), (4, 4), (5, 5), (6, 6), (7, 7), (8, 8)]
  const X9TO16: Table := [(9, 9), (10, 10), (11, 11), (12, 12), (13, 13), (14, 14), (15, 15), (16, 16)]
  const X17TO24: Table := [(17, 17), (18, 18), (19, 19), (20, 20), (21, 21), (22, 22), (23, 23), (24, 24)]
  const X25TO31: Table := [(25, 25), (26, 26), (27, 27), (28, 28), (29, 29), (30, 30), (31, 31)]
  const FULL: Table := X1TO8 + X9TO16 + X17TO24 + X25TO31

  /** ra, t0-t2 and a0-a7 up to slot 11, t3-t6: the caller-saved registers. */
  const CALLER: Table := [(1, 0), (5, 1), (6, 2), (7, 3), (10, 4), (11, 5), (12, 6), (13, 7)]
                         + [(14, 8), (15, 9), (16, 10), (17, 11), (28, 12), (29, 13), (30, 14), (31, 15)]

  ghost predicate Injective(t: Table) {
    && (forall i | 0 <= i < |t| :: 0 < t[i].0 < 32)
    && (forall i, j | 0 <= i < j < |t| :: t[i].0 != t[j].0 && t[i].1 != t[j].1)
  }

  function Stores(t: Table): (code: seq<Instr>)
    ensures |code| == |t| && forall i | 0 <= i < |t| :: code[i] == StoreX(t[i].0, t[i].1)
  {
    seq(|t|, i requires 0 <= i < |t| => StoreX(t[i].0, t[i].1))
  }

  function Loads(t: Table): (code: seq<Instr>)
    ensures |code| == |t| && forall i | 0 <= i < |t| :: code[i] == LoadX(t[i].0, t[i].1)
  {
    seq(|t|, i requires 0 <= i < |t| => LoadX(t[i].0, t[i].1))
  }

  lemma {:induction false} SavesAll(m: Machine, t: Table)
    requires Shape(m) && Injective(t)
    ensures var r := RunCode(m, Stores(t));
            && r == m.(mem := r.mem)
            && (forall i | 0 <= i < |t| :: Peek(r, Slot(m, t[i].1)) == m.x[t[i].0])
            && (forall a :: (forall i | 0 <= i < |t| :: a != Slot(m, t[i].1)) ==> Peek(r, a) == Peek(m, a))
    decreases |t|
  {
    if t != [] {
      assert Stores(t)[1..] == Stores(t[1..]);
      var n := Exec(m, Stores(t)[0]);
      SavesAll(n, t[1..]);
      assert Peek(n, Slot(m, t[0].1)) == m.x[t[0].0];
    }
  }

  lemma {:induction false} LoadsAll(m: Machine, t: Table)
    requires Shape(m) && Injective(t)
    requires forall i | 0 <= i < |t| :: t[i].0 == SP ==> Peek(m, Slot(m, t[i].1)) == m.x[SP]
    ensures var r := RunCode(m, Loads(t));
            && r == m.(x := r.x) && r.x[SP] == m.x[SP]
            && (forall i | 0 <= i < |t| :: r.x[t[i].0] == Peek(m, Slot(m, t[i].1)))
            && (forall k | 0 <= k < 32 :: (forall i | 0 <= i < |t| :: k != t[i].0) ==> r.x[k] == m.x[k])
    decreases |t|
  {
    if t != [] {
      assert Loads(t)[1..] == Loads(t[1..]);
      var n := Exec(m, Loads(t)[0]);
      LoadsAll(n, t[1..]);
    }
  }

  lemma {:induction false} RunAppend(m: Machine, a: seq<Instr>, b: seq<Instr>)
    requires Shape(m) && Program(a) && Program(b)
    ensures Program(a + b) && RunCode(m, a + b) == RunCode(RunCode(m, a), b)
    decreases |a|
  {
    if a == [] {
      assert a + b == b;
    } else {
      assert (a + b)[1..] == a[1..] + b;
      RunAppend(Exec(m, a[0]), a[1..], b);
    }
  }

  lemma RunCons(m: Machine, i: Instr, code: seq<Instr>)
    requires Shape(m) && Encodable(i) && Program(code)
    ensures Program([i] + code) && RunCode(m, [i] + code) == RunCode(Exec(m, i), code)
  {
    assert ([i] + code)[1..] == code;
  }

  lemma RunOne(m: Machine, i: Instr)
    requires Shape(m) && Encodable(i)
    ensures RunCode(m, [i]) == Exec(m, i)
  {
    assert [i] + [] == [i];
    RunCons(m, i, []);
  }

  // ---------- the full entry ----------

  /** entry.S before the call of the handler, and after it; ventry.S's TRAP_ENTRY and TRAP_EXIT. */
  function Entry(t: Table): seq<Instr> { [AddSp(-32)] + Stores(t) + [CsrrMcause(A0), CsrrMepc(A1), MvSp(A2)] }
  function Exit(t: Table): seq<Instr> { [CsrwMepc(A0), SetMpp] + Loads(t) + [AddSp(32)] }
  function VEntry(t: Table): seq<Instr> { [AddSp(-16)] + Stores(t) }
  function VExit(t: Table): seq<Instr> { [SetMpp] + Loads(t) + [AddSp(16)] }

  /** Register k in slot k, for x1..x31. */
  ghost predicate Full(t: Table) {
    |t| == 31 && forall k: nat | k < 31 :: t[k] == (k + 1, k + 1)
  }

  lemma Eights()
    ensures forall k: nat | k < 8 ::
              X1TO8[k] == (k + 1, k + 1) && X9TO16[k] == (k + 9, k + 9) && X17TO24[k] == (k + 17, k + 17)
    ensures forall k: nat | k < 7 :: X25TO31[k] == (k + 25, k + 25)
  {
  }

  lemma FullTable()
    ensures Full(FULL)
  {
    Eights();
    forall k: nat | k < 31 ensures FULL[k] == (k + 1, k + 1) {
      if k < 8 { assert FULL[k] == X1TO8[k]; }
      else if k < 16 { assert FULL[k] == X9TO16[k - 8]; }
      else if k < 24 { assert FULL[k] == X17TO24[k - 16]; }
      else { assert FULL[k] == X25TO31[k - 24]; }
    }
  }

  lemma FullIsInjective(t: Table)
    requires Full(t)
    ensures Injective(t)
  {
  }

  /** Memory from an address up, which is what belongs to the code that was interrupted. */
  ghost predicate SameFrom(m: Machine, n: Machine, base: int) {
    forall a | base <= a :: Peek(m, a) == Peek(n, a)
  }

  /** The frame at base holds x1..x31, with the lowered sp in its own slot. */
  ghost predicate Saved(m: Machine, frame: Machine, base: int)
    requires Shape(m)
  {
    forall k: nat | 1 <= k < 32 :: Peek(frame, Word(base, k)) == if k == SP then base else m.x[k]
  }

  function Lowered(m: Machine, words: int): (n: Machine)
    requires Shape(m)
    ensures Shape(n)
  {
    m.(x := m.x[SP := m.x[SP] - words * REGBYTES])
  }

  lemma TailRuns(t: Machine)
    requires Shape(t)
    ensures Program([CsrrMcause(A0), CsrrMepc(A1), MvSp(A2)])
    ensures RunCode(t, [CsrrMcause(A0), CsrrMepc(A1), MvSp(A2)])
            == t.(x := t.x[A0 := t.mcause][A1 := t.mepc][A2 := t.x[SP]])
  {
    var t1 := Exec(t, CsrrMcause(A0));
    var t2 := Exec(t1, CsrrMepc(A1));
    RunOne(t2, MvSp(A2));
    RunCons(t1, CsrrMepc(A1), [MvSp(A2)]);
    RunCons(t, CsrrMcause(A0), [CsrrMepc(A1)] + [MvSp(A2)]);
    assert [CsrrMcause(A0), CsrrMepc(A1), MvSp(A2)] == [CsrrMcause(A0)] + ([CsrrMepc(A1)] + [MvSp(A2)]);
  }

  /** The entry as its three parts. */
  lemma EntryRuns(m: Machine, t: Table)
    requires Shape(m) && Injective(t)
    ensures Program(Entry(t))
    ensures var n := RunCode(Lowered(m, 32), Stores(t));
            RunCode(m, Entry(t)) == n.(x := n.x[A0 := n.mcause][A1 := n.mepc][A2 := n.x[SP]])
  {
    var head, tail := [AddSp(-32)], [CsrrMcause(A0), CsrrMepc(A1), MvSp(A2)];
    RunOne(m, AddSp(-32));
    assert Exec(m, AddSp(-32)) == Lowered(m, 32);
    RunAppend(m, head, Stores(t));
    TailRuns(RunCode(m, head + Stores(t)));
    RunAppend(m, head + Stores(t), tail);
  }

  /** After entry: the frame is saved, the handler gets cause, epc and frame, nothing else in memory changed. */
  lemma EntrySaves(m: Machine, t: Table)
    requires Shape(m) && Full(t) && Injective(t)
    ensures Program(Entry(t))
    ensures var r := RunCode(m, Entry(t)); var base := m.x[SP] - 32 * REGBYTES;
            && r.x[SP] == base && Saved(m, r, base) && SameFrom(m, r, m.x[SP])
            && (forall a | a < base :: Peek(m, a) == Peek(r, a))
            && r.x[A0] == m.mcause && r.x[A1] == m.mepc && r.x[A2] == base
  {
    EntryRuns(m, t);
    StoresFrame(m, Lowered(m, 32), t);
  }

  lemma StoresFrame(m: Machine, n: Machine, t: Table)
    requires Shape(m) && n == Lowered(m, 32) && Full(t) && Injective(t)
    ensures var r := RunCode(n, Stores(t));
            && r == n.(mem := r.mem) && Saved(m, r, n.x[SP]) && SameFrom(m, r, m.x[SP])
            && forall a | a < n.x[SP] :: Peek(m, a) == Peek(r, a)
  {
    SavesAll(n, t);
    var r := RunCode(n, Stores(t));
    forall k: nat | 1 <= k < 32 ensures Peek(r, Word(n.x[SP], k)) == if k == SP then n.x[SP] else m.x[k] {
      assert t[k - 1] == (k, k);
      assert Peek(r, Slot(n, t[k - 1].1)) == n.x[t[k - 1].0];
    }
    assert forall i | 0 <= i < |t| :: Slot(n, t[i].1) == Word(n.x[SP], i + 1);
  }

  lemma SetMppIs(m: Machine)
    requires Shape(m)
    ensures Exec(m, SetMpp) == m.(x := m.x[T0 := MSTATUS_MPP], mpp := true)
  {
  }

  /** The exit as its parts. */
  lemma ExitRuns(m: Machine, t: Table)
    requires Shape(m) && Injective(t)
    ensures Program(Exit(t))
    ensures var n := RunCode(m.(mepc := m.x[A0], mpp := true, x := m.x[T0 := MSTATUS_MPP]), Loads(t));
            RunCode(m, Exit(t)) == Lowered(n, -32)
  {
    var head := [CsrwMepc(A0), SetMpp];
    var n := m.(mepc := m.x[A0], mpp := true, x := m.x[T0 := MSTATUS_MPP]);
    SetMppIs(Exec(m, CsrwMepc(A0)));
    RunOne(Exec(m, CsrwMepc(A0)), SetMpp);
    RunCons(m, CsrwMepc(A0), [SetMpp]);
    assert head == [CsrwMepc(A0)] + [SetMpp];
    RunAppend(m, head, Loads(t));
    RunOne(RunCode(n, Loads(t)), AddSp(32));
    RunAppend(m, head + Loads(t), [AddSp(32)]);
  }

  /** Exit from any state that still has the frame restores the registers, whatever the handler did to them. */
  lemma ExitRestores(m: Machine, after: Machine, t: Table)
    requires Shape(m) && Shape(after) && Full(t) && Injective(t)
    requires after.x[SP] == m.x[SP] - 32 * REGBYTES && Saved(m, after, after.x[SP])
    ensures Program(Exit(t))
    ensures RunCode(after, Exit(t)) == after.(x := m.x, mepc := after.x[A0], mpp := true)
  {
    var n := after.(mepc := after.x[A0], mpp := true, x := after.x[T0 := MSTATUS_MPP]);
    ExitRuns(after, t);
    LoadsFrame(m, n, t);
  }

  lemma SlotsOfFull(n: Machine, t: Table)
    requires Shape(n) && Full(t)
    ensures forall i: nat | i < 31 :: t[i].0 == i + 1 && Slot(n, t[i].1) == Word(n.x[SP], i + 1)
  {
  }

  lemma LoadsFrame(m: Machine, n: Machine, t: Table)
    requires Shape(m) && Shape(n) && Full(t) && Injective(t)
    requires n.x[SP] == m.x[SP] - 32 * REGBYTES && Saved(m, n, n.x[SP])
    ensures Lowered(RunCode(n, Loads(t)), -32) == n.(x := m.x)
  {
    SpSlot(m, n, t);
    LoadsAll(n, t);
    var r := RunCode(n, Loads(t));
    LoadedBack(m, n, r, t);
    Raised(m, n, r);
  }

  lemma SpSlot(m: Machine, n: Machine, t: Table)
    requires Shape(m) && Shape(n) && Full(t) && Saved(m, n, n.x[SP])
    ensures forall i | 0 <= i < |t| :: t[i].0 == SP ==> Peek(n, Slot(n, t[i].1)) == n.x[SP]
  {
    SlotsOfFull(n, t);
    assert Peek(n, Word(n.x[SP], SP)) == n.x[SP];
  }

  lemma Raised(m: Machine, n: Machine, r: Machine)
    requires Shape(m) && Shape(n) && Shape(r) && r == n.(x := r.x)
    requires r.x[SP] == n.x[SP] == m.x[SP] - 32 * REGBYTES && forall k: nat | 1 <= k < 32 && k != SP :: r.x[k] == m.x[k]
    ensures Lowered(r, -32) == n.(x := m.x)
  {
    assert Lowered(r, -32).x == m.x;
  }

  lemma LoadedBack(m: Machine, n: Machine, r: Machine, t: Table)
    requires Shape(m) && Shape(n) && Shape(r) && Full(t) && Saved(m, n, n.x[SP])
    requires forall i | 0 <= i < |t| :: r.x[t[i].0] == Peek(n, Slot(n, t[i].1))
    ensures forall k: nat | 1 <= k < 32 && k != SP :: r.x[k] == m.x[k]
  {
    forall k: nat | 1 <= k < 32 && k != SP ensures r.x[k] == m.x[k] {
      assert t[k - 1] == (k, k);
      assert r.x[t[k - 1].0] == Peek(n, Slot(n, t[k - 1].1));
    }
  }

  /** A trap around any handler that preserves sp and the saved frame gives every register back, and execution
      resumes where the handler said. */
  lemma TrapReturns(m: Machine, after: Machine, t: Table)
    requires Shape(m) && Shape(after) && t == FULL && Program(Entry(t)) && Program(Exit(t))
    requires var called := RunCode(m, Entry(t));
             after.x[SP] == called.x[SP] && forall k: nat | 1 <= k < 32 ::
               Peek(after, Word(called.x[SP], k)) == Peek(called, Word(called.x[SP], k))
    ensures var r := RunCode(after, Exit(t));
            r.x == m.x && r.mepc == after.x[A0] && r.mem == after.mem && r.mpp
  {
    FullTable();
    FullIsInjective(t);
    EntrySaves(m, t);
    SavedAgain(m, RunCode(m, Entry(t)), after, after.x[SP]);
    ExitRestores(m, after, t);
  }

  lemma SavedOfSame(m: Machine, n: Machine, frame: Machine, base: int)
    requires Shape(m) && Shape(n) && m.x == n.x && Saved(n, frame, base)
    ensures Saved(m, frame, base)
  {
  }

  lemma SavedAgain(m: Machine, called: Machine, after: Machine, base: int)
    requires Shape(m) && Saved(m, called, base)
    requires forall k: nat | 1 <= k < 32 :: Peek(after, Word(base, k)) == Peek(called, Word(base, k))
    ensures Saved(m, after, base)
  {
  }
}
