/** Traps inside trap handlers. */
module TrapNesting {
  import opened Trap

  /** One run of a handler: stretches of work of its own, and at any point between them a further trap with its
      cause may interrupt it at pc and run a handler of its own.  `live` holds the addresses whose contents matter
      to the handler after a stretch of work. */
  datatype Body = Done
    | Work(f: Machine -> Machine, live: iset<int>, rest: Body)
    | Nested(cause: int, pc: int, inner: Body, rest: Body)

  ghost predicate KeepsShape(f: Machine -> Machine) { forall m {:trigger f(m)} | Shape(m) :: Shape(f(m)) }

  ghost predicate Shaped(b: Body) {
    match b
    case Done => true
    case Work(f, _, rest) => KeepsShape(f) && Shaped(rest)
    case Nested(_, _, inner, rest) => Shaped(inner) && Shaped(rest)
  }

  predicate Usable(t: Table) { Program(Entry(t)) && Program(Exit(t)) }

  /** What the hardware does on a trap, and the entry code up to the call of the handler. */
  function Called(m: Machine, cause: int, pc: int, t: Table): (r: Machine)
    requires Shape(m) && Usable(t)
    ensures Shape(r)
  {
    RunCode(m.(mcause := cause, mepc := pc), Entry(t))
  }

  ghost function RunBody(m: Machine, b: Body, t: Table): (r: Machine)
    requires Shape(m) && Shaped(b) && Usable(t)
    ensures Shape(r)
    decreases b, 0
  {
    match b
    case Done => m
    case Work(f, _, rest) => RunBody(f(m), rest, t)
    case Nested(cause, pc, inner, rest) => RunBody(RunTrap(m, cause, pc, inner, t), rest, t)
  }

  /** A whole trap: entry, handler, exit.  `mret` then continues at mepc. */
  ghost function RunTrap(m: Machine, cause: int, pc: int, handler: Body, t: Table): (r: Machine)
    requires Shape(m) && Shaped(handler) && Usable(t)
    ensures Shape(r)
    decreases handler, 1
  {
    RunCode(RunBody(Called(m, cause, pc, t), handler, t), Exit(t))
  }

  // ---------- what is asked of handlers ----------

  ghost predicate AtOrAbove(a: int, base: int) { base <= a }

  ghost function From(base: int): iset<int> { iset a: int | AtOrAbove(a, base) }

  /** Two machines a handler cannot tell apart by its registers and the live addresses.  They may differ in
      mcause, mepc and all other memory. */
  ghost predicate Agree(m: Machine, n: Machine, live: iset<int>) {
    m.x == n.x && forall a | a in live :: Peek(m, a) == Peek(n, a)
  }

  /** From m, and from every machine that agrees with it, the work comes to the same registers and the same
      contents of the addresses that are live after it. */
  ghost predicate Local(m: Machine, f: Machine -> Machine, live: iset<int>, after: iset<int>) {
    forall n {:trigger Agree(m, n, live)} | Shape(n) && Agree(m, n, live) :: Agree(f(m), f(n), after)
  }

  /** A handler that keeps to its stack: its work stays at or below the sp it was called with and leaves memory
      from there up alone, and it gives sp back.  Nested handlers do so too and return their epc. */
  ghost predicate Behaves(m: Machine, b: Body, base: int, t: Table)
    requires Shape(m) && Shaped(b) && Usable(t)
    decreases b, 0
  {
    match b
    case Done => m.x[SP] == base
    case Work(f, _, rest) => f(m).x[SP] <= base && SameFrom(m, f(m), base) && Behaves(f(m), rest, base, t)
    case Nested(cause, pc, inner, rest) =>
      && m.x[SP] <= base && HandlerBehaves(m, cause, pc, inner, t)
      && RunBody(Called(m, cause, pc, t), inner, t).x[A0] == pc
      && Behaves(RunTrap(m, cause, pc, inner, t), rest, base, t)
  }

  /** A handler is called with sp below the frame. */
  ghost predicate HandlerBehaves(m: Machine, cause: int, pc: int, handler: Body, t: Table)
    requires Shape(m) && Shaped(handler) && Usable(t)
    decreases handler, 1
  {
    Behaves(Called(m, cause, pc, t), handler, m.x[SP] - 32 * REGBYTES, t)
  }

  /** What a handler relies on: every stretch of its work on what is live before it, and its caller's memory is live
      at the end.  What is live across a nested trap lies at or above sp, or is left alone by that trap. */
  ghost predicate Relies(m: Machine, b: Body, base: int, live: iset<int>, t: Table)
    requires Shape(m) && Shaped(b) && Usable(t)
    decreases b
  {
    match b
    case Done => From(base) <= live
    case Work(f, after, rest) => Local(m, f, live, after) && Relies(f(m), rest, base, after, t)
    case Nested(cause, pc, inner, rest) =>
      var r := RunTrap(m, cause, pc, inner, t);
      (forall a | a in live && a < m.x[SP] :: Peek(m, a) == Peek(r, a)) && Relies(r, rest, base, live, t)
  }

  /** A handler is called with all memory from its sp up live. */
  ghost predicate HandlerRelies(m: Machine, cause: int, pc: int, handler: Body, t: Table)
    requires Shape(m) && Shaped(handler) && Usable(t)
  {
    var base := m.x[SP] - 32 * REGBYTES;
    Relies(Called(m, cause, pc, t), handler, base, From(base), t)
  }

  // ---------- transparency ----------

  lemma SameFromChain(a: Machine, b: Machine, c: Machine, base: int, lower: int)
    requires lower <= base && SameFrom(a, b, lower) && SameFrom(b, c, base)
    ensures SameFrom(a, c, base)
  {
  }

  /** A handler that behaves, with traps nested in it to any depth, keeps its caller's stack and sp. */
  lemma {:induction false} BodyKeeps(m: Machine, b: Body, base: int, t: Table)
    requires Shape(m) && Shaped(b) && Full(t) && Usable(t) && Behaves(m, b, base, t)
    ensures RunBody(m, b, t).x[SP] == base && SameFrom(m, RunBody(m, b, t), base)
    decreases b, 0
  {
    match b
    case Done =>
    case Work(f, _, rest) =>
      BodyKeeps(f(m), rest, base, t);
      SameFromChain(m, f(m), RunBody(f(m), rest, t), base, base);
    case Nested(cause, pc, inner, rest) =>
      NestedTransparent(m, cause, pc, inner, t);
      var n := RunTrap(m, cause, pc, inner, t);
      BodyKeeps(n, rest, base, t);
      SameFromChain(m, n, RunBody(n, rest, t), base, m.x[SP]);
  }

  /** A trap whose handler behaves, at whatever depth, is invisible to the code it interrupts: same x1..x31, same
      memory from sp up, and execution resumes where the handler says. */
  lemma {:induction false} NestedTransparent(m: Machine, cause: int, pc: int, handler: Body, t: Table)
    requires Shape(m) && Shaped(handler) && Full(t) && Usable(t) && HandlerBehaves(m, cause, pc, handler, t)
    ensures var r := RunTrap(m, cause, pc, handler, t);
            && r.x == m.x && SameFrom(m, r, m.x[SP]) && r.mpp
            && r.mepc == RunBody(Called(m, cause, pc, t), handler, t).x[A0]
    decreases handler, 1
  {
    BodyKeeps(Called(m, cause, pc, t), handler, m.x[SP] - 32 * REGBYTES, t);
    TrapRestores(m, cause, pc, RunBody(Called(m, cause, pc, t), handler, t), t);
  }

  /** Entry, anything that keeps sp and memory from there up, and exit. */
  lemma TrapRestores(m: Machine, cause: int, pc: int, after: Machine, t: Table)
    requires Shape(m) && Shape(after) && Full(t) && Usable(t)
    requires after.x[SP] == m.x[SP] - 32 * REGBYTES && SameFrom(Called(m, cause, pc, t), after, after.x[SP])
    ensures var r := RunCode(after, Exit(t));
            r.x == m.x && r.mem == after.mem && SameFrom(m, r, m.x[SP]) && r.mepc == after.x[A0] && r.mpp
  {
    FullIsInjective(t);
    var n := m.(mcause := cause, mepc := pc);
    EntrySaves(n, t);
    SavedAgain(n, Called(m, cause, pc, t), after, after.x[SP]);
    ExitRestores(n, after, t);
    SameFromChain(Called(m, cause, pc, t), after, RunCode(after, Exit(t)), m.x[SP], after.x[SP]);
  }

  /** The entry leaves register k in its slot of the frame. */
  lemma SavedWord(m: Machine, cause: int, pc: int, t: Table, k: nat)
    requires Shape(m) && Full(t) && Usable(t) && 1 <= k < 32 && k != SP
    ensures Peek(Called(m, cause, pc, t), Word(m.x[SP] - 32 * REGBYTES, k)) == m.x[k]
  {
    FullIsInjective(t);
    EntrySaves(m.(mcause := cause, mepc := pc), t);
  }

  /** What the handler leaves in memory is what the trap leaves there. */
  lemma TrapMemory(m: Machine, cause: int, pc: int, handler: Body, t: Table)
    requires Shape(m) && Shaped(handler) && Full(t) && Usable(t) && HandlerBehaves(m, cause, pc, handler, t)
    ensures SameFrom(Called(m, cause, pc, t), RunTrap(m, cause, pc, handler, t), m.x[SP] - 32 * REGBYTES)
  {
    var after := RunBody(Called(m, cause, pc, t), handler, t);
    BodyKeeps(Called(m, cause, pc, t), handler, m.x[SP] - 32 * REGBYTES, t);
    TrapRestores(m, cause, pc, after, t);
    SameMemory(Called(m, cause, pc, t), after, RunTrap(m, cause, pc, handler, t), m.x[SP] - 32 * REGBYTES);
  }

  lemma SameMemory(m: Machine, n: Machine, r: Machine, base: int)
    requires SameFrom(m, n, base) && r.mem == n.mem
    ensures SameFrom(m, r, base)
  {
  }

  /** What a handler must not rely on: after a trap the words below sp hold the registers it interrupted. */
  lemma FrameIsOverwritten(m: Machine, cause: int, pc: int, handler: Body, t: Table, k: nat)
    requires Shape(m) && Shaped(handler) && Full(t) && Usable(t) && HandlerBehaves(m, cause, pc, handler, t)
    requires 1 <= k < 32 && k != SP
    ensures Peek(RunTrap(m, cause, pc, handler, t), Word(m.x[SP] - 32 * REGBYTES, k)) == m.x[k]
  {
    SavedWord(m, cause, pc, t, k);
    TrapMemory(m, cause, pc, handler, t);
  }

  // ---------- invisibility ----------

  /** The handler as it would have run had nothing interrupted it. */
  ghost function Undisturbed(b: Body): (u: Body)
    ensures Shaped(b) ==> Shaped(u)
  {
    match b
    case Done => Done
    case Work(f, live, rest) => Work(f, live, Undisturbed(rest))
    case Nested(_, _, _, rest) => Undisturbed(rest)
  }

  /** The addresses that are live when the handler is done. */
  ghost function LiveAtEnd(b: Body, live: iset<int>): iset<int> {
    match b
    case Done => live
    case Work(_, after, rest) => LiveAtEnd(rest, after)
    case Nested(_, _, _, rest) => LiveAtEnd(rest, live)
  }

  /** A handler leaves the same registers, and the same in every address that is live at its end, its caller's
      memory included, whether traps interrupt it or not, and whatever mcause, mepc and dead memory hold. */
  lemma {:induction false} NestingIsInvisible(m: Machine, n: Machine, b: Body, base: int, live: iset<int>, t: Table)
    requires Shape(m) && Shape(n) && Shaped(b) && Full(t) && Usable(t)
    requires Behaves(m, b, base, t) && Relies(m, b, base, live, t) && Agree(m, n, live)
    ensures Agree(RunBody(m, b, t), RunBody(n, Undisturbed(b), t), LiveAtEnd(b, live))
    ensures From(base) <= LiveAtEnd(b, live)
    decreases b
  {
    match b
    case Done =>
    case Work(f, after, rest) =>
      NestingIsInvisible(f(m), f(n), rest, base, after, t);
    case Nested(cause, pc, inner, rest) =>
      NestedTransparent(m, cause, pc, inner, t);
      var r := RunTrap(m, cause, pc, inner, t);
      StillAgree(m, r, n, live);
      NestingIsInvisible(r, n, rest, base, live, t);
  }

  lemma StillAgree(m: Machine, r: Machine, n: Machine, live: iset<int>)
    requires Shape(m) && Agree(m, n, live) && r.x == m.x && SameFrom(m, r, m.x[SP])
    requires forall a | a in live && a < m.x[SP] :: Peek(m, a) == Peek(r, a)
    ensures Agree(r, n, live)
  {
  }

  /** So a trap does the same to the code it interrupts, resumption address included, whether or not further traps
      interrupt its handler. */
  lemma TrapsDoNotMix(m: Machine, cause: int, pc: int, handler: Body, t: Table)
    requires Shape(m) && Shaped(handler) && Full(t) && Usable(t)
    requires HandlerBehaves(m, cause, pc, handler, t) && HandlerRelies(m, cause, pc, handler, t)
    ensures var r, q := RunTrap(m, cause, pc, handler, t), RunTrap(m, cause, pc, Undisturbed(handler), t);
            r.x == q.x == m.x && SameFrom(r, q, m.x[SP]) && r.mepc == q.mepc
  {
    var base, called := m.x[SP] - 32 * REGBYTES, Called(m, cause, pc, t);
    var after, quiet := RunBody(called, handler, t), RunBody(called, Undisturbed(handler), t);
    NestingIsInvisible(called, called, handler, base, From(base), t);
    BodyKeeps(called, handler, base, t);
    assert SameFrom(after, quiet, base) by { assert forall a | base <= a :: a in From(base); }
    TrapRestores(m, cause, pc, after, t);
    SameFromChain(called, after, quiet, base, base);
    TrapRestores(m, cause, pc, quiet, t);
  }

  /** The table of entry.S is such a table. */
  lemma EntryIsUsable()
    ensures Full(FULL) && Usable(FULL)
  {
    FullTable();
    FullIsInjective(FULL);
    var m := Machine(seq(32, _ => 0), map[], 0, 0, false);
    EntryRuns(m, FULL);
    ExitRuns(m, FULL);
  }

  // ---------- handlers that save their epc on the stack ----------

  /** Instructions as work. */
  function Straight(code: seq<Instr>): (f: Machine -> Machine)
    ensures KeepsShape(f)
  {
    m => if Shape(m) && Program(code) then RunCode(m, code) else m
  }

  /** Make room for four words, save a1 in the last of them and use the register for something else. */
  const PROLOGUE: seq<Instr> := [AddSp(-4), StoreX(A1, 3), MvSp(A1)]

  /** Load what was saved into a0, the result, and free the room. */
  const EPILOGUE: seq<Instr> := [LoadX(A0, 3), AddSp(4)]

  /** What is live between the two: the saved word and the caller's memory. */
  ghost function AndSaved(base: int): iset<int> { From(base) + iset{base - REGBYTES} }

  ghost function Ending(g: Machine -> Machine, base: int): Body { Work(g, From(base), Done) }

  ghost function Interrupted(f: Machine -> Machine, g: Machine -> Machine, base: int,
                             cause: int, pc: int, inner: Body): Body
  {
    Work(f, AndSaved(base), Nested(cause, pc, inner, Ending(g, base)))
  }

  /** A handler of saving work f and reloading work g, called with sp at `base`.  Unless depth is 0 it is interrupted
      between the two by a trap whose handler is of the same kind, one less deep. */
  ghost function Saving(f: Machine -> Machine, g: Machine -> Machine, base: int,
                        cause: int, pc: int, depth: nat): (b: Body)
    ensures KeepsShape(f) && KeepsShape(g) ==> Shaped(b)
    decreases depth
  {
    assert KeepsShape(g) ==> Shaped(Ending(g, base));
    if depth == 0 then Work(f, AndSaved(base), Ending(g, base))
    else Interrupted(f, g, base, cause, pc, Saving(f, g, base - 36 * REGBYTES, cause, pc, depth - 1))
  }

  /** The machine after the prologue. */
  ghost predicate Entered(m: Machine, n: Machine, base: int)
    requires Shape(m)
  {
    && n.x == m.x[SP := base - 4 * REGBYTES][A1 := base - 4 * REGBYTES]
    && Peek(n, base - REGBYTES) == m.x[A1] && forall a | a != base - REGBYTES :: Peek(n, a) == Peek(m, a)
  }

  lemma PrologueRuns(m: Machine, base: int)
    requires Shape(m) && m.x[SP] == base
    ensures Entered(m, Straight(PROLOGUE)(m), base)
  {
    var low := Exec(m, AddSp(-4));
    var stored := Exec(low, StoreX(A1, 3));
    RunOne(stored, MvSp(A1));
    RunCons(low, StoreX(A1, 3), [MvSp(A1)]);
    RunCons(m, AddSp(-4), [StoreX(A1, 3)] + [MvSp(A1)]);
    assert PROLOGUE == [AddSp(-4)] + ([StoreX(A1, 3)] + [MvSp(A1)]);
  }

  /** The machine after the epilogue. */
  ghost predicate Left(m: Machine, n: Machine, base: int)
    requires Shape(m)
  {
    n.x == m.x[A0 := Peek(m, base - REGBYTES)][SP := base] && n.mem == m.mem
  }

  lemma EpilogueRuns(m: Machine, base: int)
    requires Shape(m) && m.x[SP] == base - 4 * REGBYTES
    ensures Left(m, Straight(EPILOGUE)(m), base)
  {
    RunOne(Exec(m, LoadX(A0, 3)), AddSp(4));
    RunCons(m, LoadX(A0, 3), [AddSp(4)]);
    assert EPILOGUE == [LoadX(A0, 3)] + [AddSp(4)];
  }

  lemma EnteredAgree(m: Machine, m': Machine, n: Machine, n': Machine, base: int)
    requires Shape(m) && Shape(n) && Entered(m, m', base) && Entered(n, n', base) && Agree(m, n, From(base))
    ensures Agree(m', n', AndSaved(base))
  {
  }

  lemma LeftAgree(m: Machine, m': Machine, n: Machine, n': Machine, base: int)
    requires Shape(m) && Shape(n) && Left(m, m', base) && Left(n, n', base) && Agree(m, n, AndSaved(base))
    ensures Agree(m', n', From(base))
  {
    assert base - REGBYTES in AndSaved(base);
  }

  lemma PrologueLocal(m: Machine, base: int)
    requires Shape(m) && m.x[SP] == base
    ensures Local(m, Straight(PROLOGUE), From(base), AndSaved(base))
  {
    var f := Straight(PROLOGUE);
    forall n | Shape(n) && Agree(m, n, From(base)) ensures Agree(f(m), f(n), AndSaved(base)) {
      PrologueRuns(m, base);
      PrologueRuns(n, base);
      EnteredAgree(m, f(m), n, f(n), base);
    }
  }

  lemma EpilogueLocal(m: Machine, base: int)
    requires Shape(m) && m.x[SP] == base - 4 * REGBYTES
    ensures Local(m, Straight(EPILOGUE), AndSaved(base), From(base))
  {
    var g := Straight(EPILOGUE);
    forall n | Shape(n) && Agree(m, n, AndSaved(base)) ensures Agree(g(m), g(n), From(base)) {
      EpilogueRuns(m, base);
      EpilogueRuns(n, base);
      LeftAgree(m, g(m), n, g(n), base);
    }
  }

  /** Work that saves epc in the word below base, and work that makes that word the result. */
  ghost predicate Saves(f: Machine -> Machine, m: Machine, base: int, epc: int) {
    && KeepsShape(f) && Shape(m) && f(m).x[SP] == base - 4 * REGBYTES && Peek(f(m), base - REGBYTES) == epc
    && SameFrom(m, f(m), base) && Local(m, f, From(base), AndSaved(base))
  }

  ghost predicate Reloads(g: Machine -> Machine, m: Machine, base: int, epc: int) {
    && KeepsShape(g) && Shape(m) && g(m).x[SP] == base && g(m).x[A0] == epc
    && SameFrom(m, g(m), base) && Local(m, g, AndSaved(base), From(base))
  }

  lemma SavesBy(f: Machine -> Machine, m: Machine, base: int)
    requires KeepsShape(f) && Shape(m) && Entered(m, f(m), base) && Local(m, f, From(base), AndSaved(base))
    ensures Saves(f, m, base, m.x[A1])
  {
  }

  lemma PrologueSaves(m: Machine, base: int)
    requires Shape(m) && m.x[SP] == base
    ensures Saves(Straight(PROLOGUE), m, base, m.x[A1])
  {
    PrologueRuns(m, base);
    PrologueLocal(m, base);
    SavesBy(Straight(PROLOGUE), m, base);
  }

  lemma EpilogueReloads(m: Machine, base: int)
    requires Shape(m) && m.x[SP] == base - 4 * REGBYTES
    ensures Reloads(Straight(EPILOGUE), m, base, Peek(m, base - REGBYTES))
  {
    EpilogueRuns(m, base);
    EpilogueLocal(m, base);
    ReloadsBy(Straight(EPILOGUE), m, base);
  }

  lemma ReloadsBy(g: Machine -> Machine, m: Machine, base: int)
    requires KeepsShape(g) && Shape(m) && Left(m, g(m), base) && Local(m, g, AndSaved(base), From(base))
    ensures Reloads(g, m, base, Peek(m, base - REGBYTES))
  {
  }

  /** The handler is as promised from m on, and returns epc. */
  ghost predicate Good(m: Machine, b: Body, base: int, live: iset<int>, epc: int, t: Table)
    requires Shape(m) && Shaped(b) && Usable(t)
  {
    Behaves(m, b, base, t) && Relies(m, b, base, live, t) && RunBody(m, b, t).x[A0] == epc
  }

  lemma GoodWork(m: Machine, f: Machine -> Machine, after: iset<int>, rest: Body,
                 base: int, live: iset<int>, epc: int, t: Table)
    requires Shape(m) && KeepsShape(f) && Shaped(rest) && Usable(t)
    requires Local(m, f, live, after) && f(m).x[SP] <= base && SameFrom(m, f(m), base)
    requires Good(f(m), rest, base, after, epc, t)
    ensures Good(m, Work(f, after, rest), base, live, epc, t)
  {
  }

  lemma EndingGood(m: Machine, g: Machine -> Machine, base: int, epc: int, t: Table)
    requires Usable(t) && Reloads(g, m, base, epc)
    ensures Good(m, Ending(g, base), base, AndSaved(base), epc, t)
  {
    assert Good(g(m), Done, base, From(base), epc, t);
    GoodWork(m, g, From(base), Done, base, AndSaved(base), epc, t);
  }

  lemma ReliesNested(m: Machine, cause: int, pc: int, inner: Body, rest: Body, base: int, live: iset<int>, t: Table)
    requires Shape(m) && Shaped(inner) && Shaped(rest) && Usable(t) && forall a | a in live :: m.x[SP] <= a
    requires Relies(RunTrap(m, cause, pc, inner, t), rest, base, live, t)
    ensures Relies(m, Nested(cause, pc, inner, rest), base, live, t)
  {
    assert forall a | a in live && a < m.x[SP] :: Peek(m, a) == Peek(RunTrap(m, cause, pc, inner, t), a);
  }

  /** A nested trap in between. */
  lemma GoodNested(m: Machine, cause: int, pc: int, inner: Body, rest: Body,
                   base: int, live: iset<int>, epc: int, t: Table)
    requires Shape(m) && Shaped(inner) && Shaped(rest) && Usable(t)
    requires m.x[SP] <= base && HandlerBehaves(m, cause, pc, inner, t)
    requires RunBody(Called(m, cause, pc, t), inner, t).x[A0] == pc && forall a | a in live :: m.x[SP] <= a
    requires Good(RunTrap(m, cause, pc, inner, t), rest, base, live, epc, t)
    ensures Good(m, Nested(cause, pc, inner, rest), base, live, epc, t)
  {
    ReliesNested(m, cause, pc, inner, rest, base, live, t);
  }

  ghost predicate SavesHere(f: Machine -> Machine, m: Machine) {
    Shape(m) && Saves(f, m, m.x[SP], m.x[A1])
  }

  ghost predicate ReloadsHere(g: Machine -> Machine, m: Machine) {
    Shape(m) && Reloads(g, m, m.x[SP] + 4 * REGBYTES, Peek(m, m.x[SP] + 3 * REGBYTES))
  }

  /** Wherever they are run. */
  ghost predicate Pair(f: Machine -> Machine, g: Machine -> Machine) {
    && KeepsShape(f) && KeepsShape(g)
    && (forall m {:trigger SavesHere(f, m)} | Shape(m) :: SavesHere(f, m))
    && forall m {:trigger ReloadsHere(g, m)} | Shape(m) :: ReloadsHere(g, m)
  }

  /** The saved word is above sp, so it survives the trap. */
  lemma SavedSurvives(m: Machine, f: Machine -> Machine, g: Machine -> Machine, base: int, epc: int,
                      cause: int, pc: int, inner: Body, t: Table)
    requires Shape(m) && Shaped(inner) && Full(t) && Usable(t) && HandlerBehaves(m, cause, pc, inner, t) && Pair(f, g)
    requires m.x[SP] == base - 4 * REGBYTES && Peek(m, base - REGBYTES) == epc
    ensures Reloads(g, RunTrap(m, cause, pc, inner, t), base, epc)
  {
    NestedTransparent(m, cause, pc, inner, t);
    var r := RunTrap(m, cause, pc, inner, t);
    assert ReloadsHere(g, r);
  }

  lemma InterruptedGood(m: Machine, f: Machine -> Machine, g: Machine -> Machine, base: int, epc: int,
                        cause: int, pc: int, inner: Body, t: Table)
    requires Shaped(inner) && Usable(t) && Saves(f, m, base, epc) && HandlerBehaves(f(m), cause, pc, inner, t)
    requires RunBody(Called(f(m), cause, pc, t), inner, t).x[A0] == pc
    requires Reloads(g, RunTrap(f(m), cause, pc, inner, t), base, epc)
    ensures Shaped(Interrupted(f, g, base, cause, pc, inner))
    ensures Good(m, Interrupted(f, g, base, cause, pc, inner), base, From(base), epc, t)
  {
    EndingGood(RunTrap(f(m), cause, pc, inner, t), g, base, epc, t);
    GoodNested(f(m), cause, pc, inner, Ending(g, base), base, AndSaved(base), epc, t);
    GoodWork(m, f, AndSaved(base), Nested(cause, pc, inner, Ending(g, base)), base, From(base), epc, t);
  }

  lemma UninterruptedGood(m: Machine, f: Machine -> Machine, g: Machine -> Machine, base: int, epc: int, t: Table)
    requires Usable(t) && Saves(f, m, base, epc) && Reloads(g, f(m), base, epc)
    ensures Shaped(Ending(g, base)) && Good(m, Work(f, AndSaved(base), Ending(g, base)), base, From(base), epc, t)
  {
    EndingGood(f(m), g, base, epc, t);
    GoodWork(m, f, AndSaved(base), Ending(g, base), base, From(base), epc, t);
  }

  lemma CalledWith(m: Machine, cause: int, pc: int, t: Table)
    requires Shape(m) && Full(t) && Usable(t)
    ensures Called(m, cause, pc, t).x[SP] == m.x[SP] - 32 * REGBYTES && Called(m, cause, pc, t).x[A1] == pc
  {
    FullIsInjective(t);
    EntrySaves(m.(mcause := cause, mepc := pc), t);
  }

  /** A handler that saves its epc on its stack, is interrupted there by any trap whose handler behaves, and reloads
      it: it behaves, relies on no more than it may, and returns its own epc. */
  lemma SavedAcrossTrap(m: Machine, f: Machine -> Machine, g: Machine -> Machine, base: int, epc: int,
                        cause: int, pc: int, inner: Body, t: Table)
    requires Shape(m) && Shaped(inner) && Full(t) && Usable(t) && Pair(f, g) && m.x[SP] == base && m.x[A1] == epc
    requires HandlerBehaves(f(m), cause, pc, inner, t) && RunBody(Called(f(m), cause, pc, t), inner, t).x[A0] == pc
    ensures Shaped(Interrupted(f, g, base, cause, pc, inner))
    ensures Good(m, Interrupted(f, g, base, cause, pc, inner), base, From(base), epc, t)
  {
    assert SavesHere(f, m);
    SavedSurvives(f(m), f, g, base, epc, cause, pc, inner, t);
    InterruptedGood(m, f, g, base, epc, cause, pc, inner, t);
  }

  lemma OneDeeper(m: Machine, f: Machine -> Machine, g: Machine -> Machine, base: int, epc: int,
                  cause: int, pc: int, inner: Body, t: Table)
    requires Shape(m) && Shaped(inner) && Full(t) && Usable(t) && Pair(f, g) && m.x[SP] == base && m.x[A1] == epc
    requires Good(Called(f(m), cause, pc, t), inner, base - 36 * REGBYTES, From(base - 36 * REGBYTES), pc, t)
    ensures Shaped(Interrupted(f, g, base, cause, pc, inner))
    ensures Good(m, Interrupted(f, g, base, cause, pc, inner), base, From(base), epc, t)
  {
    assert SavesHere(f, m);
    assert HandlerBehaves(f(m), cause, pc, inner, t);
    SavedAcrossTrap(m, f, g, base, epc, cause, pc, inner, t);
  }

  lemma NoDeeper(m: Machine, f: Machine -> Machine, g: Machine -> Machine, base: int, epc: int, t: Table)
    requires Shape(m) && Usable(t) && Pair(f, g) && m.x[SP] == base && m.x[A1] == epc
    ensures Shaped(Ending(g, base)) && Good(m, Work(f, AndSaved(base), Ending(g, base)), base, From(base), epc, t)
  {
    assert SavesHere(f, m);
    assert ReloadsHere(g, f(m));
    UninterruptedGood(m, f, g, base, epc, t);
  }

  lemma {:induction false} SavingGood(m: Machine, f: Machine -> Machine, g: Machine -> Machine, base: int, epc: int,
                                      cause: int, pc: int, depth: nat, t: Table)
    requires Shape(m) && Full(t) && Usable(t) && Pair(f, g) && m.x[SP] == base && m.x[A1] == epc
    ensures Good(m, Saving(f, g, base, cause, pc, depth), base, From(base), epc, t)
    decreases depth
  {
    if depth == 0 {
      NoDeeper(m, f, g, base, epc, t);
    } else {
      assert SavesHere(f, m);
      CalledWith(f(m), cause, pc, t);
      SavingGood(Called(f(m), cause, pc, t), f, g, base - 36 * REGBYTES, pc, cause, pc, depth - 1, t);
      OneDeeper(m, f, g, base, epc, cause, pc, Saving(f, g, base - 36 * REGBYTES, cause, pc, depth - 1), t);
    }
  }

  lemma StackPair()
    ensures Pair(Straight(PROLOGUE), Straight(EPILOGUE))
  {
    forall m | Shape(m) ensures SavesHere(Straight(PROLOGUE), m) { PrologueSaves(m, m.x[SP]); }
    forall m | Shape(m) ensures ReloadsHere(Straight(EPILOGUE), m) { EpilogueReloads(m, m.x[SP] + 4 * REGBYTES); }
  }

  /** Handlers that save and reload the epc, one inside the other to any depth: each is as the results above ask, and
      the trap resumes at pc although all of them use the same registers and the same code. */
  lemma SavingBehaves(m: Machine, f: Machine -> Machine, g: Machine -> Machine,
                      cause: int, pc: int, depth: nat, t: Table)
    requires Shape(m) && Full(t) && Usable(t) && Pair(f, g)
    ensures var handler := Saving(f, g, m.x[SP] - 32 * REGBYTES, cause, pc, depth);
            && HandlerBehaves(m, cause, pc, handler, t) && HandlerRelies(m, cause, pc, handler, t)
            && RunTrap(m, cause, pc, handler, t).x == m.x && RunTrap(m, cause, pc, handler, t).mepc == pc
  {
    var base := m.x[SP] - 32 * REGBYTES;
    CalledWith(m, cause, pc, t);
    SavingGood(Called(m, cause, pc, t), f, g, base, pc, cause, pc, depth, t);
    NestedTransparent(m, cause, pc, Saving(f, g, base, cause, pc, depth), t);
  }
}
