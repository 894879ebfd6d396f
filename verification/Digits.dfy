/** Number output: `printnum` of printf.c and `write_hex`. */
module Digits {
  import opened Arith

  // ---------- specification ----------

  /** The digits of num in the given base, most significant first. */
  function Numeral(num: nat, base: nat): (ds: seq<nat>)
    requires 2 <= base
    ensures 0 < |ds| && (forall d | d in ds :: d < base) && (1 < |ds| ==> ds[0] != 0)
  {
    if num < base then [num]
    else
      QuotientSmaller(num, base);
      Numeral(num / base, base) + [num % base]
  }

  function Value(ds: seq<nat>, base: nat): nat {
    if ds == [] then 0 else Value(ds[..|ds| - 1], base) * base + ds[|ds| - 1]
  }

  lemma ValueSnoc(ds: seq<nat>, d: nat, base: nat)
    ensures Value(ds + [d], base) == Value(ds, base) * base + d
  {
    assert (ds + [d])[..|ds|] == ds;
  }

  lemma {:induction false} ValueOfDigits(num: nat, base: nat)
    requires 2 <= base
    ensures Value(Numeral(num, base), base) == num
  {
    if num < base {
      ValueSnoc([], num, base);
      assert [] + [num] == [num];
    } else {
      QuotientSmaller(num, base);
      ValueOfDigits(num / base, base);
      assert Numeral(num, base) == Numeral(num / base, base) + [num % base];
      ValueSnoc(Numeral(num / base, base), num % base, base);
      DivMod(num, base);
    }
  }

  function DigitChar(d: nat): char
    requires d < 16
  {
    if d >= 10 then 'a' + (d - 10) as char else '0' + d as char
  }

  function DigitOf(c: char): nat {
    if '0' <= c <= '9' then (c - '0') as nat else if 'a' <= c <= 'f' then (c - 'a') as nat + 10 else 16
  }

  function Chars(ds: seq<nat>): (s: string)
    requires forall d | d in ds :: d < 16
    ensures |s| == |ds| && forall i | 0 <= i < |ds| :: ds[i] in ds && s[i] == DigitChar(ds[i])
  {
    seq(|ds|, i requires 0 <= i < |ds| => assert ds[i] in ds; DigitChar(ds[i]))
  }

  function DigitsOf(s: string): (ds: seq<nat>)
    ensures |ds| == |s| && forall i | 0 <= i < |s| :: ds[i] == DigitOf(s[i])
  {
    seq(|s|, i requires 0 <= i < |s| => DigitOf(s[i]))
  }

  /** Reading a number back. */
  function ParseNum(s: string, base: nat): nat { Value(DigitsOf(s), base) }

  /** n copies of c, none if n is negative. */
  function Pad(c: char, n: int): (s: string)
    ensures |s| == (if n < 0 then 0 else n) && forall i | 0 <= i < |s| :: s[i] == c
  {
    seq(if n < 0 then 0 else n, _ => c)
  }

  function Show(num: nat, base: nat): string
    requires 2 <= base <= 16
  {
    Chars(Numeral(num, base))
  }

  /** What `printnum` emits: never narrower than `width`, padded on the left. */
  function NumText(num: nat, base: nat, width: int, padc: char): string
    requires 2 <= base <= 16
  {
    Pad(padc, width - |Show(num, base)|) + Show(num, base)
  }

  // ---------- printnum ----------

  function Reversed(ds: seq<nat>): (r: seq<nat>)
    ensures |r| == |ds|
  {
    if ds == [] then [] else [ds[|ds| - 1]] + Reversed(ds[..|ds| - 1])
  }

  function Pow2(n: nat): (p: nat)
    ensures 0 < p
  {
    if n == 0 then 1 else 2 * Pow2(n - 1)
  }

  lemma {:induction false} Pow2Grows(a: nat, b: nat)
    requires a <= b
    ensures Pow2(a) <= Pow2(b)
  {
    if a < b { Pow2Grows(a, b - 1); }
  }

  lemma Pow2Of32()
    ensures Pow2(32) == 0x1_0000_0000
  {
    assert Pow2(8) == 0x100;
    assert Pow2(16) == 0x1_0000;
    assert Pow2(24) == 0x100_0000;
  }

  /** Dividing by the base at least halves, so 32 digits are enough. */
  lemma HalvedAgain(num: nat, base: nat, p: nat, whole: nat)
    requires 2 <= base && num * p <= whole
    ensures num / base * (2 * p) <= whole
  {
    var h := num / base;
    QuotientBounds(num, base);
    MulMono(2, base, h);
    MulMono(2 * h, num, p);
    assert h * (2 * p) == 2 * h * p;
  }

  /** The digit buffer, filled from the least significant digit up. */
  method FillDigits(num: nat, base: nat, digs: array<nat>) returns (pos: nat)
    requires num < 0x1_0000_0000 && 2 <= base <= 16 && digs.Length == 32
    modifies digs
    ensures 0 < pos <= 32 && Reversed(digs[..pos]) == Numeral(num, base)
  {
    pos := 0;
    var rest: nat := num;
    ghost var p := 1;
    while true
      invariant pos <= 32 && p == Pow2(pos) && rest * p <= num && (0 < pos ==> 0 < rest)
      invariant Numeral(num, base) == Numeral(rest, base) + Reversed(digs[..pos])
      decreases rest
    {
      RoomLeft(rest, p, pos, num);
      LastDigit(rest, base, Reversed(digs[..pos]));
      Push(digs, pos, rest % base);
      pos := pos + 1;
      if rest < base {
        return;
      }
      HalvedAgain(rest, base, p, num);
      QuotientSmaller(rest, base);
      rest := rest / base;
      p := 2 * p;
    }
  }

  /** Store a digit at the next free entry of the buffer. */
  method Push(digs: array<nat>, pos: nat, d: nat)
    requires pos < digs.Length
    modifies digs
    ensures Reversed(digs[..pos + 1]) == [d] + Reversed(old(digs[..pos]))
  {
    digs[pos] := d;
    assert digs[..pos + 1][..pos] == old(digs[..pos]);
  }

  lemma LastDigit(rest: nat, base: nat, done: seq<nat>)
    requires 2 <= base
    ensures Numeral(rest, base) + done
            == (if rest < base then [] else Numeral(rest / base, base)) + ([rest % base] + done)
  {
  }

  lemma RoomLeft(rest: nat, p: nat, pos: nat, num: nat)
    requires p == Pow2(pos) && rest * p <= num < 0x1_0000_0000 && (0 < pos ==> 0 < rest)
    ensures pos < 32
  {
    if 0 < pos { assert (rest - 1) * p >= 0; }
    if 32 <= pos {
      Pow2Grows(32, pos);
      Pow2Of32();
      assert false;
    }
  }

  lemma {:induction false} ReversedCons(d: nat, ds: seq<nat>)
    ensures Reversed([d] + ds) == Reversed(ds) + [d]
  {
    if ds == [] {
      assert [d] + ds == [d] && [d][..0] == [] && Reversed([d]) == [d] + Reversed([]);
    } else {
      var init := ds[..|ds| - 1];
      assert ([d] + ds)[..|ds|] == [d] + init;
      ReversedCons(d, init);
    }
  }

  lemma {:induction false} ReversedBound(ds: seq<nat>, base: nat)
    requires forall i | 0 <= i < |ds| :: ds[i] < base
    ensures forall d | d in Reversed(ds) :: d < base
  {
    if ds != [] { ReversedBound(ds[..|ds| - 1], base); }
  }

  lemma NextDigit(ds: seq<nat>, pos: nat, len: nat)
    requires pos < len <= |ds| && forall i | 0 <= i < len :: ds[i] < 16
    ensures Reversed(ds[pos..len]) == Reversed(ds[pos + 1..len]) + [ds[pos]]
    ensures forall d | d in Reversed(ds[pos..len]) :: d < 16
  {
    ReversedBound(ds[pos..len], 16);
    ReversedCons(ds[pos], ds[pos + 1..len]);
    assert ds[pos..len] == [ds[pos]] + ds[pos + 1..len];
  }

  /** The digits come out from the end of the buffer to its start. */
  method PutDigits(digs: array<nat>, len: nat, before: string) returns (out: string)
    requires len <= digs.Length && forall i | 0 <= i < len :: digs[i] < 16
    ensures forall d | d in Reversed(digs[..len]) :: d < 16
    ensures out == before + Chars(Reversed(digs[..len]))
  {
    out := before;
    var pos := len;
    ghost var ds := digs[..];
    while pos > 0
      invariant 0 <= pos <= len
      invariant forall d | d in Reversed(ds[pos..len]) :: d < 16
      invariant out == before + Chars(Reversed(ds[pos..len]))
    {
      pos := pos - 1;
      NextDigit(ds, pos, len);
      out := out + [DigitChar(digs[pos])];
    }
    assert ds[0..len] == digs[..len];
  }

  /** Emit padding until what is left of the width is the number of digits. */
  method PutPadding(width: int, pos: nat, padc: char) returns (out: string)
    ensures out == Pad(padc, width - pos)
  {
    out := "";
    var w := width;
    while w > pos
      invariant w <= width && |out| == width - w && out == Pad(padc, |out|)
      invariant w >= pos || w == width
    {
      out := out + [padc];
      w := w - 1;
    }
  }

  /** `printnum` */
  method PrintNum(num: nat, base: nat, width: int, padc: char) returns (out: string)
    requires num < 0x1_0000_0000 && 2 <= base <= 16
    ensures out == NumText(num, base, width, padc)
  {
    var digs := new nat[32];
    var pos := FillDigits(num, base, digs);
    DigitsInBuffer(digs[..pos], num, base);
    out := PutPadding(width, pos, padc);
    out := PutDigits(digs, pos, out);
  }

  lemma {:induction false} ReversedTwice(ds: seq<nat>)
    ensures Reversed(Reversed(ds)) == ds
  {
    if ds != [] {
      var init := ds[..|ds| - 1];
      ReversedCons(ds[|ds| - 1], Reversed(init));
      ReversedTwice(init);
    }
  }

  lemma DigitsInBuffer(ds: seq<nat>, num: nat, base: nat)
    requires 2 <= base <= 16 && Reversed(ds) == Numeral(num, base)
    ensures forall i | 0 <= i < |ds| :: ds[i] < 16
  {
    var rs := Numeral(num, base);
    forall i | 0 <= i < |rs| ensures rs[i] < base { assert rs[i] in rs; }
    ReversedBound(rs, base);
    ReversedTwice(ds);
    forall i | 0 <= i < |ds| ensures ds[i] < 16 { assert ds[i] in ds; }
  }

  // ---------- reading numbers back ----------

  /** The digits are the usual ones, in lower case. */
  lemma UsualDigits(d: nat)
    requires d < 16
    ensures DigitChar(d) == "0123456789abcdef"[d] && DigitOf("0123456789abcdef"[d]) == d
  {
  }

  /** t is the number n in the base: usual digits, read from left to right, and no leading zero. */
  predicate Writes(t: string, base: nat, n: nat)
    requires base <= 16
  {
    && t != "" && (1 < |t| ==> t[0] != '0')
    && (forall k | 0 <= k < |t| :: t[k] in "0123456789abcdef"[..base])
    && ParseNum(t, base) == n
  }

  lemma ShowWrites(n: nat, base: nat)
    requires 2 <= base <= 16
    ensures Writes(Show(n, base), base, n)
  {
    var ds, t := Numeral(n, base), Show(n, base);
    forall k | 0 <= k < |t| ensures t[k] in "0123456789abcdef"[..base] && (k == 0 && 1 < |t| ==> t[k] != '0') {
      assert ds[k] in ds;
      UsualDigits(ds[k]);
      assert t[k] == "0123456789abcdef"[..base][ds[k]];
    }
    NumRoundTrip(n, base, 0, ' ');
    assert NumText(n, base, 0, ' ') == t;
  }

  lemma {:induction false} LeadingZeros(n: nat, ds: seq<nat>, base: nat)
    ensures Value(seq(n, _ => 0) + ds, base) == Value(ds, base)
    decreases n + |ds|
  {
    var zs := seq(n, _ => 0);
    if ds == [] {
      assert zs + ds == zs;
      if n > 0 {
        assert zs[..n - 1] == seq(n - 1, _ => 0) && seq(n - 1, _ => 0) + [] == seq(n - 1, _ => 0);
        LeadingZeros(n - 1, [], base);
      }
    } else {
      var init := ds[..|ds| - 1];
      assert (zs + ds)[..n + |ds| - 1] == zs + init;
      LeadingZeros(n, init, base);
    }
  }

  /** A number printed without padding, or padded with zeros to any width, parses back to itself. */
  lemma NumRoundTrip(num: nat, base: nat, width: int, padc: char)
    requires 2 <= base <= 16 && (padc == '0' || width <= 0)
    ensures ParseNum(NumText(num, base, width, padc), base) == num
  {
    var ds := Numeral(num, base);
    var text := NumText(num, base, width, padc);
    var n := |text| - |ds|;
    assert DigitsOf(text) == seq(n, _ => 0) + ds by {
      forall i | 0 <= i < |text| ensures DigitsOf(text)[i] == (seq(n, _ => 0) + ds)[i] {
        if i >= n {
          assert text[i] == Show(num, base)[i - n];
          UsualDigits(ds[i - n]);
        }
      }
    }
    LeadingZeros(n, ds, base);
    ValueOfDigits(num, base);
  }

  // ---------- write_hex ----------

  function UpperHex(d: nat): char
    requires d < 16
  {
    if d < 10 then '0' + d as char else 'A' + (d - 10) as char
  }

  function Upper(c: char): char { if 'a' <= c <= 'z' then c - 'a' + 'A' else c }

  function UpperAll(s: string): (r: string)
    ensures |r| == |s| && forall i | 0 <= i < |s| :: r[i] == Upper(s[i])
  {
    seq(|s|, i requires 0 <= i < |s| => Upper(s[i]))
  }

  function Pow16(n: nat): (p: nat)
    ensures 0 < p
  {
    if n == 0 then 1 else 16 * Pow16(n - 1)
  }

  /** Hexadecimal digit number jj, from the least significant one. */
  function Nibble(hex: nat, jj: nat): (d: nat)
    ensures d < 16
  {
    hex / Pow16(jj) % 16
  }

  lemma NibbleAbove(hex: nat, jj: nat)
    ensures Nibble(hex, jj + 1) == Nibble(hex / 16, jj) && Nibble(hex, 0) == hex % 16
  {
    DivDiv(hex, 16, Pow16(jj));
  }

  /** Zero-padded hexadecimal text grows by its last nibble. */
  lemma PaddedHexSnoc(n: nat, hex: nat)
    requires 0 < n
    ensures NumText(hex, 16, n + 1, '0') == NumText(hex / 16, 16, n, '0') + [DigitChar(hex % 16)]
  {
    if hex < 16 {
      assert Show(hex, 16) == [DigitChar(hex)] && Show(0, 16) == ['0'];
    } else {
      var ds := Numeral(hex / 16, 16);
      assert Show(hex, 16) == Show(hex / 16, 16) + [DigitChar(hex % 16)];
    }
  }

  lemma {:induction false} NibblesAreDigits(n: nat, hex: nat)
    requires 0 < n && hex < Pow16(n)
    ensures |NumText(hex, 16, n, '0')| == n
    ensures forall k: nat | k < n :: NumText(hex, 16, n, '0')[k] == DigitChar(Nibble(hex, n - 1 - k))
  {
    NibbleAbove(hex, 0);
    if n == 1 {
      assert Pow16(1) == 16 * Pow16(0);
      assert Show(hex, 16) == [DigitChar(hex)];
    } else {
      NibblesAreDigits(n - 1, hex / 16);
      PaddedHexSnoc(n - 1, hex);
      forall k: nat | k < n ensures NumText(hex, 16, n, '0')[k] == DigitChar(Nibble(hex, n - 1 - k)) {
        if k < n - 1 { NibbleAbove(hex, n - 2 - k); }
      }
    }
  }

  /** `write_hex` after its "0x": one nibble at a time, from the highest of n down. */
  method WriteNibbles(n: nat, hex: nat) returns (out: string)
    requires 0 < n && hex < Pow16(n)
    ensures out == UpperAll(NumText(hex, 16, n, '0'))
  {
    out := "";
    var ii := n;
    while ii > 0
      invariant 0 <= ii <= n && |out| == n - ii
      invariant forall k: nat | k < n - ii :: out[k] == UpperHex(Nibble(hex, n - 1 - k))
    {
      var jj := ii - 1;
      out := out + [UpperHex(Nibble(hex, jj))];
      ii := ii - 1;
    }
    NibblesAreDigits(n, hex);
  }

  lemma UpperDigit(d: nat)
    requires d < 16
    ensures Upper(DigitChar(d)) == "0123456789ABCDEF"[d]
  {
  }

  lemma EightPowers()
    ensures Pow16(0) == 1 && Pow16(1) == 0x10 && Pow16(2) == 0x100 && Pow16(3) == 0x1000 && Pow16(4) == 0x1_0000
    ensures Pow16(5) == 0x10_0000 && Pow16(6) == 0x100_0000 && Pow16(7) == 0x1000_0000 && Pow16(8) == 0x1_0000_0000
  {
    assert Pow16(4) == 0x1_0000;
  }

  /** Digit k of the text, from the left, is the one for its place. */
  lemma HexDigitAt(hex: nat, k: nat, place: nat)
    requires hex < 0x1_0000_0000 && k < 8 && place == Pow16(7 - k)
    ensures |NumText(hex, 16, 8, '0')| == 8
    ensures ("0x" + UpperAll(NumText(hex, 16, 8, '0')))[2 + k] == "0123456789ABCDEF"[hex / place % 16]
  {
    EightPowers();
    NibblesAreDigits(8, hex);
    UpperDigit(Nibble(hex, 7 - k));
  }

  /** `write_hex` of a 32-bit word: the upper-case form of "%08x" after "0x". */
  method WriteHex(hex: nat) returns (out: string)
    requires hex < 0x1_0000_0000
    ensures out == "0x" + UpperAll(NumText(hex, 16, 8, '0'))
    ensures var d := "0123456789ABCDEF";
            && |out| == 10 && out[..2] == "0x"
            && out[2] == d[hex / 0x1000_0000 % 16] && out[3] == d[hex / 0x100_0000 % 16]
            && out[4] == d[hex / 0x10_0000 % 16] && out[5] == d[hex / 0x1_0000 % 16]
            && out[6] == d[hex / 0x1000 % 16] && out[7] == d[hex / 0x100 % 16]
            && out[8] == d[hex / 0x10 % 16] && out[9] == d[hex % 16]
  {
    EightPowers();
    var digits := WriteNibbles(8, hex);
    out := "0x" + digits;
    HexDigitAt(hex, 0, 0x1000_0000);
    HexDigitAt(hex, 1, 0x100_0000);
    HexDigitAt(hex, 2, 0x10_0000);
    HexDigitAt(hex, 3, 0x1_0000);
    HexDigitAt(hex, 4, 0x1000);
    HexDigitAt(hex, 5, 0x100);
    HexDigitAt(hex, 6, 0x10);
    HexDigitAt(hex, 7, 1);
  }
}
