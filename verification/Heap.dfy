/** The program break: `sbrk` with 32-bit pointers, and `malloc` on top of it. */
module Heap {

  const FAILED: nat := 0xFFFF_FFFF  // NULL - 1

  /** `curbrk + incr` as a 32-bit pointer. */
  function Moved(brk: nat, incr: int): nat { (brk + incr) % 0x1_0000_0000 }

  /** The test of `sbrk`. */
  predicate Granted(brk: nat, end: nat, heapEnd: nat, incr: int) { end <= Moved(brk, incr) <= heapEnd }

  /** An unsigned long passed where `sbrk` takes a signed difference. */
  function AsDifference(sz: nat): int { if sz < 0x8000_0000 then sz else sz - 0x1_0000_0000 }

  /** The pointer comparison decides what the heap can hold, except when the addition wraps back into the heap. */
  lemma GrantedIffFits(brk: nat, end: nat, heapEnd: nat, sz: nat)
    requires end <= brk <= heapEnd < 0x1_0000_0000 && sz < 0x1_0000_0000
    ensures (Granted(brk, end, heapEnd, AsDifference(sz)) <==> brk + sz <= heapEnd) <==> brk + sz < end + 0x1_0000_0000
  {
    var sum := brk + AsDifference(sz);
    assert Moved(brk, AsDifference(sz)) == if brk + sz < 0x1_0000_0000 then brk + sz else brk + sz - 0x1_0000_0000;
  }

  /** Whether a request and the size of the heap stay below 2^32 together. */
  predicate Ordinary(end: nat, heapEnd: nat, sz: nat) { sz + heapEnd < end + 0x1_0000_0000 }

  /** Such a request is granted exactly when it fits. */
  lemma OrdinaryGrants(brk: nat, end: nat, heapEnd: nat, sz: nat)
    requires end <= brk <= heapEnd < 0x1_0000_0000 && sz < 0x1_0000_0000 && Ordinary(end, heapEnd, sz)
    ensures Granted(brk, end, heapEnd, AsDifference(sz)) <==> brk + sz <= heapEnd
    ensures brk + sz <= heapEnd ==> Moved(brk, AsDifference(sz)) == brk + sz
  {
    GrantedIffFits(brk, end, heapEnd, sz);
  }

  /** Beyond that a request can move the break down: asking for 2^32 - 4 bytes gives back the last 4. */
  lemma HugeRequestShrinks(brk: nat, end: nat, heapEnd: nat)
    requires end + 4 <= brk <= heapEnd < 0x1_0000_0000
    ensures Granted(brk, end, heapEnd, AsDifference(0xFFFF_FFFC)) && Moved(brk, AsDifference(0xFFFF_FFFC)) == brk - 4
  {
  }

  class Break {
    const end: nat
    const heapEnd: nat
    var curbrk: nat

    ghost predicate Valid()
      reads this
    {
      0 < end <= curbrk <= heapEnd < FAILED
    }

    constructor (end: nat, heapEnd: nat)
      requires 0 < end <= heapEnd < FAILED
      ensures Valid() && this.end == end && this.heapEnd == heapEnd && curbrk == end
    {
      this.end, this.heapEnd, curbrk := end, heapEnd, end;
    }

    method Sbrk(incr: int) returns (r: nat)
      requires Valid() && -0x8000_0000 <= incr < 0x8000_0000
      modifies this
      ensures Valid()
      ensures Granted(old(curbrk), end, heapEnd, incr) ==> r == old(curbrk) && curbrk == Moved(old(curbrk), incr)
      ensures !Granted(old(curbrk), end, heapEnd, incr) ==> r == 0xFFFF_FFFF && curbrk == old(curbrk)
    {
      if Moved(curbrk, incr) < end || Moved(curbrk, incr) > heapEnd {
        return FAILED;
      }
      curbrk := Moved(curbrk, incr);
      r := Moved(curbrk, -incr);
    }

    method Malloc(sz: nat) returns (res: nat)
      requires Valid() && sz < 0x1_0000_0000
      modifies this
      ensures Valid()
      ensures Granted(old(curbrk), end, heapEnd, AsDifference(sz)) ==>
                res == old(curbrk) != 0 && curbrk == Moved(old(curbrk), AsDifference(sz))
      ensures !Granted(old(curbrk), end, heapEnd, AsDifference(sz)) ==> res == 0 && curbrk == old(curbrk)
    {
      res := Sbrk(AsDifference(sz));
      if res == FAILED {
        res := 0;
      }
    }

    /** Any sequence of ordinary calls, from any break. */
    method MallocAll(sizes: seq<nat>) returns (results: seq<nat>, ghost brks: seq<nat>)
      requires Valid() && forall i | 0 <= i < |sizes| :: sizes[i] < 0x1_0000_0000 && Ordinary(end, heapEnd, sizes[i])
      modifies this
      ensures Valid() && AllocationRun(old(curbrk), heapEnd, sizes, results, brks) && curbrk == brks[|sizes|]
    {
      results, brks := [], [curbrk];
      for i := 0 to |sizes|
        invariant Valid() && AllocationRun(old(curbrk), heapEnd, sizes[..i], results, brks) && curbrk == brks[i]
      {
        OrdinaryGrants(curbrk, end, heapEnd, sizes[i]);
        var res := Malloc(sizes[i]);
        assert Answered(heapEnd, sizes[i], res, brks[i], curbrk);
        results, brks := results + [res], brks + [curbrk];
        assert sizes[..i + 1] == sizes[..i] + [sizes[i]];
        assert forall k: nat | k < i :: Answered(heapEnd, sizes[..i][k], results[k], brks[k], brks[k + 1]);
      }
      assert sizes[..|sizes|] == sizes;
    }
  }

  /** From a break at `start`; `brks[i]` is the break before call i: a request that fits gets it and moves it up, any
      other fails. */
  ghost predicate AllocationRun(start: nat, heapEnd: nat, sizes: seq<nat>, results: seq<nat>, brks: seq<nat>) {
    && |results| == |sizes| && |brks| == |sizes| + 1 && brks[0] == start
    && forall i: nat | i < |sizes| :: Answered(heapEnd, sizes[i], results[i], brks[i], brks[i + 1])
  }

  predicate Answered(heapEnd: nat, size: nat, result: nat, before: nat, after: nat) {
    if before + size <= heapEnd then result == before != 0 && after == before + size
    else result == 0 && after == before
  }

  function GrantedBytes(sizes: seq<nat>, results: seq<nat>): nat
    requires |results| == |sizes|
  {
    if sizes == [] then 0
    else GrantedBytes(sizes[..|sizes| - 1], results[..|sizes| - 1])
         + if results[|sizes| - 1] == 0 then 0 else sizes[|sizes| - 1]
  }

  lemma {:induction false} BreakIsTotal(start: nat, heapEnd: nat, sizes: seq<nat>, results: seq<nat>, brks: seq<nat>)
    requires AllocationRun(start, heapEnd, sizes, results, brks) && start <= heapEnd
    ensures brks[|sizes|] == start + GrantedBytes(sizes, results) <= heapEnd
    decreases |sizes|
  {
    if sizes != [] {
      var n := |sizes| - 1;
      assert forall k: nat | k < n :: Answered(heapEnd, sizes[k], results[k], brks[k], brks[k + 1]);
      assert Answered(heapEnd, sizes[n], results[n], brks[n], brks[n + 1]);
      BreakIsTotal(start, heapEnd, sizes[..n], results[..n], brks[..n + 1]);
    }
  }

  lemma {:induction false} BreakRises(start: nat, heapEnd: nat, sizes: seq<nat>, results: seq<nat>, brks: seq<nat>,
                                      i: nat, j: nat)
    requires AllocationRun(start, heapEnd, sizes, results, brks) && i <= j <= |sizes|
    ensures brks[i] <= brks[j]
  {
    if i < j {
      assert Answered(heapEnd, sizes[j - 1], results[j - 1], brks[j - 1], brks[j]);
      BreakRises(start, heapEnd, sizes, results, brks, i, j - 1);
    }
  }

  /** Granted blocks lie in what was left of the heap, one above the other. */
  lemma BlocksDisjoint(start: nat, heapEnd: nat, sizes: seq<nat>, results: seq<nat>, brks: seq<nat>, i: nat, j: nat)
    requires AllocationRun(start, heapEnd, sizes, results, brks) && start <= heapEnd && i < j < |sizes|
    requires results[i] != 0 && results[j] != 0
    ensures start <= results[i] && results[i] + sizes[i] <= results[j] && results[j] + sizes[j] <= heapEnd
  {
    assert Answered(heapEnd, sizes[i], results[i], brks[i], brks[i + 1]);
    assert Answered(heapEnd, sizes[j], results[j], brks[j], brks[j + 1]);
    BreakRises(start, heapEnd, sizes, results, brks, 0, i);
    BreakRises(start, heapEnd, sizes, results, brks, i + 1, j);
  }
}
