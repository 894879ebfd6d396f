/** The PLIC driver: enable bitmaps, priorities and thresholds in the controller's memory map. */
module Plic {

  /** The bit of source number k within its byte. */
  function Mask(k: nat): bv8
    requires k < 8
  {
    if k == 0 then 1 else if k == 1 then 2 else if k == 2 then 4 else if k == 3 then 8
    else if k == 4 then 16 else if k == 5 then 32 else if k == 6 then 64 else 128
  }

  /** The byte of the enable block of a hart that holds the bit of a source: 0x80 bytes a hart, 8 sources a byte. */
  function EnableByte(hart: nat, source: nat): nat { 0x2000 + hart * 0x80 + source / 8 }

  predicate Exists(hart: nat, source: nat) { hart <= 15871 && source <= 1023 }

  function Bit(b: bv8, source: nat): bool { b & Mask(source % 8) != 0 }

  lemma MaskSets(b: bv8, s: nat, k: nat)
    requires s < 8 && k < 8
    ensures (b | Mask(s)) & Mask(k) != 0 <==> k == s || b & Mask(k) != 0
    ensures b & !Mask(s) & Mask(k) != 0 <==> k != s && b & Mask(k) != 0
  {
  }

  // ---------- the bits as numbers ----------

  /** 2^k */
  function Weight(k: nat): (w: nat)
    requires k < 8
    ensures 0 < w
  {
    [1, 2, 4, 8, 16, 32, 64, 128][k]
  }

  function Number(b: bv8): int { b as int }

  function WithBit(b: bv8, k: nat): bv8
    requires k < 8
  {
    b | Mask(k)
  }

  function WithoutBit(b: bv8, k: nat): bv8
    requires k < 8
  {
    b & !Mask(k)
  }

  lemma SetAdds(b: bv8, k: nat)
    requires k < 8
    ensures Number(WithBit(b, k)) == Number(b) + if b & Mask(k) != 0 then 0 else Weight(k)
  {
    if k == 0 { assert (b | 1) as nat == b as nat + if b & 1 != 0 then 0 else 1; }
  }

  lemma ClearSubtracts(b: bv8, k: nat)
    requires k < 8
    ensures Number(WithoutBit(b, k)) == Number(b) - if b & Mask(k) != 0 then Weight(k) else 0
  {
  }

  lemma FirstBit(b: bv8)
    ensures b & 1 != 0 <==> b as nat % 2 == 1
  {
  }

  lemma SecondBit(b: bv8)
    ensures b & 2 != 0 <==> b as nat / 2 % 2 == 1
  {
  }

  lemma ThirdBit(b: bv8)
    ensures b & 4 != 0 <==> b as nat / 4 % 2 == 1
  {
  }

  lemma FourthBit(b: bv8)
    ensures b & 8 != 0 <==> b as nat / 8 % 2 == 1
  {
  }

  lemma HighBits(b: bv8)
    ensures (b & 16 != 0 <==> b as nat / 16 % 2 == 1) && (b & 32 != 0 <==> b as nat / 32 % 2 == 1)
    ensures (b & 64 != 0 <==> b as nat / 64 % 2 == 1) && (b & 128 != 0 <==> b as nat / 128 % 2 == 1)
  {
  }

  /** The bit of source s is number s modulo 8, from the least significant one. */
  lemma BitIsNumbered(b: bv8, s: nat)
    ensures Bit(b, s) <==> b as nat / [1, 2, 4, 8, 16, 32, 64, 128][s % 8] % 2 == 1
  {
    FirstBit(b);
    SecondBit(b);
    ThirdBit(b);
    FourthBit(b);
    HighBits(b);
  }

  // ---------- which byte ----------

  /** Enable bytes of different harts, or of sources not in the same group of eight, are different bytes. */
  lemma EnableByteInjective(h: nat, s: nat, h': nat, s': nat)
    requires Exists(h, s) && Exists(h', s')
    ensures EnableByte(h, s) == EnableByte(h', s') <==> h == h' && s / 8 == s' / 8
    ensures 0x2000 <= EnableByte(h, s) < 0x20_0000
  {
  }

  /** Which pairs of hart and source a memory image enables. */
  ghost predicate Represents(mem: seq<bv8>, enabled: set<(nat, nat)>) {
    && |mem| == 0x400_0000
    && (forall e | e in enabled :: Exists(e.0, e.1))
    && forall h: nat, s: nat | Exists(h, s) :: (h, s) in enabled <==> Bit(mem[EnableByte(h, s)], s)
  }

  datatype Op = Enable(hart: nat, source: nat) | Disable(hart: nat, source: nat)

  function Apply(enabled: set<(nat, nat)>, op: Op): set<(nat, nat)> {
    match op
    case Enable(h, s) => enabled + {(h, s)}
    case Disable(h, s) => enabled - {(h, s)}
  }

  /** The byte with the bit of the operation's source set or cleared. */
  function Changed(b: bv8, op: Op): bv8 {
    if op.Enable? then WithBit(b, op.source % 8) else WithoutBit(b, op.source % 8)
  }

  function Address(op: Op): nat { EnableByte(op.hart, op.source) }

  lemma EnabledNumber(b: bv8, op: Op)
    requires op.Enable?
    ensures Number(Changed(b, op)) == Number(b) + if Bit(b, op.source) then 0 else Weight(op.source % 8)
  {
    SetAdds(b, op.source % 8);
  }

  lemma DisabledNumber(b: bv8, op: Op)
    requires op.Disable?
    ensures Number(Changed(b, op)) == Number(b) - if Bit(b, op.source) then Weight(op.source % 8) else 0
  {
    ClearSubtracts(b, op.source % 8);
  }

  lemma ChangedBit(b: bv8, op: Op, s: nat)
    ensures Bit(Changed(b, op), s) <==> if s % 8 == op.source % 8 then op.Enable? else Bit(b, s)
  {
    MaskSets(b, op.source % 8, s % 8);
  }

  lemma OnePair(mem: seq<bv8>, enabled: set<(nat, nat)>, op: Op, h: nat, s: nat)
    requires Represents(mem, enabled) && Exists(op.hart, op.source) && Exists(h, s) && EnableByte(h, s) < |mem|
    ensures Address(op) < |mem|
    ensures (h, s) in Apply(enabled, op)
            <==> Bit(mem[Address(op) := Changed(mem[Address(op)], op)][EnableByte(h, s)], s)
  {
    EnableByteInjective(h, s, op.hart, op.source);
    ChangedBit(mem[Address(op)], op, s);
  }

  /** Setting or clearing one bit of one byte is adding or removing one pair. */
  lemma OneBit(mem: seq<bv8>, mem': seq<bv8>, enabled: set<(nat, nat)>, op: Op)
    requires Represents(mem, enabled) && Exists(op.hart, op.source)
    requires Address(op) < |mem| && mem' == mem[Address(op) := Changed(mem[Address(op)], op)]
    ensures Represents(mem', Apply(enabled, op))
  {
    forall h: nat, s: nat | Exists(h, s) ensures (h, s) in Apply(enabled, op) <==> Bit(mem'[EnableByte(h, s)], s) {
      EnableByteInjective(h, s, h, s);
      OnePair(mem, enabled, op, h, s);
    }
  }

  /** The address ranges of the driver: a hart's enable bytes for sources 0..n, and its threshold word. */
  predicate InEnables(a: nat, hart: nat, n: nat) { 0x2000 + hart * 0x80 <= a < 0x2000 + hart * 0x80 + (n + 8) / 8 }
  predicate InWord(a: nat, base: nat) { base <= a < base + 4 }
  function Threshold(hart: nat): nat { 0x20_0000 + hart * 0x1000 }

  /** The threshold words lie above all enables, 0x1000 bytes apart, one for each hart, and inside the map. */
  lemma ThresholdWords(h: nat, h': nat)
    requires h <= 15871 && h' <= 15871
    ensures Threshold(h) == 0x20_0000 + h * 0x1000 && 0x20_0000 <= Threshold(h) && Threshold(h) + 4 <= 0x400_0000
    ensures h != h' ==> forall a | InWord(a, Threshold(h)) :: !InWord(a, Threshold(h'))
  {
  }

  function WithoutSources(enabled: set<(nat, nat)>, hart: nat, k: nat): set<(nat, nat)> {
    set e | e in enabled && !(e.0 == hart && e.1 < k)
  }

  /** `PLIC_init` on a memory image. */
  ghost predicate Initialised(before: seq<bv8>, after: seq<bv8>, hart: nat, n: nat) {
    && |before| == |after| == 0x400_0000
    && forall a | 0 <= a < |after| ::
         after[a] == if InEnables(a, hart, n) || a < (n + 1) * 4 || InWord(a, Threshold(hart)) then 0 else before[a]
  }

  /** Clearing whole bytes turns off at least the sources 0..n of that hart, up to the next multiple of eight. */
  lemma InitRepresents(before: seq<bv8>, after: seq<bv8>, enabled: set<(nat, nat)>, hart: nat, n: nat)
    requires Represents(before, enabled) && Exists(hart, n) && Initialised(before, after, hart, n)
    ensures Represents(after, WithoutSources(enabled, hart, (n + 8) / 8 * 8)) && n < (n + 8) / 8 * 8
  {
    forall h: nat, s: nat | Exists(h, s)
      ensures (h, s) in WithoutSources(enabled, hart, (n + 8) / 8 * 8) <==> Bit(after[EnableByte(h, s)], s)
    {
      EnableByteInjective(h, s, h, s);
      InBlock(h, s, hart, n);
      ZeroByte(s % 8);
    }
  }

  lemma SameEnables(before: seq<bv8>, after: seq<bv8>, enabled: set<(nat, nat)>)
    requires Represents(before, enabled) && |after| == |before|
    requires forall a | 0x2000 <= a < 0x20_0000 :: after[a] == before[a]
    ensures Represents(after, enabled)
  {
    forall h: nat, s: nat | Exists(h, s) ensures (h, s) in enabled <==> Bit(after[EnableByte(h, s)], s) {
      EnableByteInjective(h, s, h, s);
    }
  }

  lemma InBlock(h: nat, s: nat, hart: nat, n: nat)
    requires Exists(h, s) && Exists(hart, n)
    ensures InEnables(EnableByte(h, s), hart, n) <==> h == hart && s < (n + 8) / 8 * 8
    ensures !(EnableByte(h, s) < (n + 1) * 4) && !InWord(EnableByte(h, s), Threshold(hart))
  {
  }

  lemma ZeroByte(k: nat)
    requires k < 8
    ensures (0 as bv8) & Mask(k) == 0
  {
  }

  class Controller {
    const mem: array<bv8>       // the memory map from the base address on
    var numSources: nat
    var numPriorities: nat
    ghost var enabled: set<(nat, nat)>

    ghost predicate Valid()
      reads this, mem
    {
      mem.Length == 0x400_0000 && Represents(mem[..], enabled)
    }

    /** Load a byte, set the bit of a source, and store it. */
    method SetBit(a: nat, source: nat)
      requires a < mem.Length
      modifies mem
      ensures mem[..] == old(mem[..])[a := Changed(old(mem[a]), Enable(0, source))]
    {
      var current := mem[a];
      current := WithBit(current, source % 8);
      mem[a] := current;
    }

    method ClearBit(a: nat, source: nat)
      requires a < mem.Length
      modifies mem
      ensures mem[..] == old(mem[..])[a := Changed(old(mem[a]), Disable(0, source))]
    {
      var current := mem[a];
      current := WithoutBit(current, source % 8);
      mem[a] := current;
    }

    /** `PLIC_enable_interrupt`: bit source % 8 of one byte is set, whose value goes up by 2^(source % 8) if it
        was clear. */
    method EnableInterrupt(hart: nat, source: nat)
      requires Valid() && Exists(hart, source)
      modifies mem, this`enabled
      ensures Valid() && enabled == old(enabled) + {(hart, source)}
      ensures var a := 0x2000 + hart * 0x80 + source / 8;
              && a < mem.Length && (forall i | 0 <= i < mem.Length && i != a :: mem[i] == old(mem[i]))
              && Number(mem[a]) == Number(old(mem[a]))
                   + if (hart, source) in old(enabled) then 0 else [1, 2, 4, 8, 16, 32, 64, 128][source % 8]
    {
      EnableByteInjective(hart, source, hart, source);
      var a := EnableByte(hart, source);
      ghost var before := mem[..];
      SetBit(a, source);
      EnabledNumber(before[a], Enable(hart, source));
      OneBit(before, mem[..], enabled, Enable(hart, source));
      enabled := Apply(enabled, Enable(hart, source));
    }

    /** `PLIC_disable_interrupt`: it is cleared, and the value goes down by as much if it was set. */
    method DisableInterrupt(hart: nat, source: nat)
      requires Valid() && Exists(hart, source)
      modifies mem, this`enabled
      ensures Valid() && enabled == old(enabled) - {(hart, source)}
      ensures var a := 0x2000 + hart * 0x80 + source / 8;
              && a < mem.Length && (forall i | 0 <= i < mem.Length && i != a :: mem[i] == old(mem[i]))
              && Number(mem[a]) == Number(old(mem[a]))
                   - if (hart, source) in old(enabled) then [1, 2, 4, 8, 16, 32, 64, 128][source % 8] else 0
    {
      EnableByteInjective(hart, source, hart, source);
      var a := EnableByte(hart, source);
      ghost var before := mem[..];
      ClearBit(a, source);
      DisabledNumber(before[a], Disable(hart, source));
      OneBit(before, mem[..], enabled, Disable(hart, source));
      enabled := Apply(enabled, Disable(hart, source));
    }

    /** `volatile_memzero` */
    method MemZero(base: nat, size: nat)
      requires base + size <= mem.Length
      modifies mem
      ensures forall i | 0 <= i < mem.Length :: mem[i] == if base <= i < base + size then 0 else old(mem[i])
    {
      var ptr := base;
      while ptr < base + size
        invariant base <= ptr <= base + size
        invariant forall i | 0 <= i < mem.Length :: mem[i] == if base <= i < ptr then 0 else old(mem[i])
      {
        mem[ptr] := 0;
        ptr := ptr + 1;
      }
    }

    /** A 32-bit store, given as its four bytes, least significant first. */
    method StoreWord(a: nat, b: seq<bv8>)
      requires a + 4 <= mem.Length && |b| == 4
      modifies mem
      ensures forall i | 0 <= i < mem.Length :: mem[i] == if InWord(i, a) then b[i - a] else old(mem[i])
    {
      mem[a], mem[a + 1], mem[a + 2], mem[a + 3] := b[0], b[1], b[2], b[3];
    }

    /** `PLIC_init`: the calling hart's sources 0..n are off (rounded up to whole bytes), priority words 0..n and the
        hart's threshold are 0, and nothing else changed. */
    method Init(hart: nat, n: nat, priorities: nat)
      requires Valid() && Exists(hart, n)
      modifies mem, this`numSources, this`numPriorities, this`enabled
      ensures Valid() && numSources == n && numPriorities == priorities
      ensures enabled == WithoutSources(old(enabled), hart, (n + 8) / 8 * 8)
      ensures Initialised(old(mem[..]), mem[..], hart, n)
      ensures forall i | 0 <= i < mem.Length ::
                mem[i] == if || i < (n + 1) * 4
                             || 0x2000 + hart * 0x80 <= i < 0x2000 + hart * 0x80 + (n + 8) / 8
                             || 0x20_0000 + hart * 0x1000 <= i < 0x20_0000 + hart * 0x1000 + 4
                          then 0 else old(mem[i])
    {
      numSources, numPriorities := n, priorities;
      ClearAll(hart, n);
      InitRepresents(old(mem[..]), mem[..], enabled, hart, n);
      enabled := WithoutSources(enabled, hart, (n + 8) / 8 * 8);
    }

    method ClearAll(hart: nat, n: nat)
      requires mem.Length == 0x400_0000 && Exists(hart, n)
      modifies mem
      ensures Initialised(old(mem[..]), mem[..], hart, n)
    {
      MemZero(0x2000 + hart * 0x80, (n + 8) / 8);
      MemZero(0, (n + 1) * 4);
      StoreWord(Threshold(hart), [0, 0, 0, 0]);
    }

    /** `PLIC_set_priority`: one word, and only with priorities; no enable bit moves. */
    method SetPriority(source: nat, b: seq<bv8>)
      requires Valid() && source <= 1023 && |b| == 4
      modifies mem
      ensures Valid()
      ensures forall i | 0 <= i < mem.Length ::
                mem[i] == if numPriorities > 0 && source * 4 <= i < source * 4 + 4 then b[i - source * 4]
                          else old(mem[i])
    {
      if numPriorities > 0 {
        StoreWord(source * 4, b);
        SameEnables(old(mem[..]), mem[..], enabled);
      }
    }

    /** `PLIC_set_threshold` */
    method SetThreshold(hart: nat, b: seq<bv8>)
      requires Valid() && hart <= 15871 && |b| == 4
      modifies mem
      ensures Valid()
      ensures var a := 0x20_0000 + hart * 0x1000;
              forall i | 0 <= i < mem.Length :: mem[i] == if a <= i < a + 4 then b[i - a] else old(mem[i])
    {
      StoreWord(Threshold(hart), b);
      SameEnables(old(mem[..]), mem[..], enabled);
    }

    /** Any sequence of calls by any harts: the set of pairs is what the calls say, and no byte outside the enable
        blocks of the harts that called is touched. */
    method RunOps(ops: seq<Op>)
      requires Valid() && forall i | 0 <= i < |ops| :: Exists(ops[i].hart, ops[i].source)
      modifies mem, this`enabled
      ensures Valid() && enabled == ApplyAll(old(enabled), ops)
      ensures forall a | 0 <= a < mem.Length && !Touched(ops, a) :: mem[a] == old(mem[a])
    {
      for i := 0 to |ops|
        invariant Valid() && enabled == ApplyAll(old(enabled), ops[..i])
        invariant forall a | 0 <= a < mem.Length && !Touched(ops, a) :: mem[a] == old(mem[a])
      {
        assert ops[..i + 1][..i] == ops[..i];
        match ops[i] {
          case Enable(hart, source) => EnableInterrupt(hart, source);
          case Disable(hart, source) => DisableInterrupt(hart, source);
        }
      }
      assert ops[..|ops|] == ops;
    }
  }

  function ApplyAll(enabled: set<(nat, nat)>, ops: seq<Op>): set<(nat, nat)> {
    if ops == [] then enabled else Apply(ApplyAll(enabled, ops[..|ops| - 1]), ops[|ops| - 1])
  }

  ghost predicate Touched(ops: seq<Op>, a: nat) {
    exists i | 0 <= i < |ops| :: a == EnableByte(ops[i].hart, ops[i].source)
  }

  predicate About(op: Op, hart: nat, source: nat) { op.hart == hart && op.source == source }

  /** What a sequence of calls leaves enabled: of each pair the last call about it decides, and a pair no call was
      about stays as it was. */
  lemma {:induction false} LastCallDecides(enabled: set<(nat, nat)>, ops: seq<Op>, hart: nat, source: nat, last: int)
    requires -1 <= last < |ops| && (0 <= last ==> About(ops[last], hart, source))
    requires forall i | last < i < |ops| :: !About(ops[i], hart, source)
    ensures (hart, source) in ApplyAll(enabled, ops)
            <==> if last < 0 then (hart, source) in enabled else ops[last].Enable?
    decreases |ops|
  {
    if last < |ops| - 1 {
      LastCallDecides(enabled, ops[..|ops| - 1], hart, source, last);
    }
  }
}
