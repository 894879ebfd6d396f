/** What each conversion of `vprintfmt` prints, for every argument and whatever stands before it.  Stated without the
    functions that choose base, sign and text. */
module Conversions {
  import opened Digits
  import opened Printf
  import opened PrintfPieces

  /** An escape in a format. */
  function Escaped(marks: seq<Mark>, c: char): string { "%" + Source(marks) + [c] }

  /** The text t with padding in front up to the width. */
  function Right(f: Fields, t: string): string { Pad(f.padc, f.width - |t|) + t }

  /** A C int in 32 bits, with its sign. */
  function AsInt(v: int): int { (v + 0x8000_0000) % 0x1_0000_0000 - 0x8000_0000 }

  function Magnitude(v: int): nat { if AsInt(v) < 0 then -AsInt(v) else AsInt(v) }

  lemma One(marks: seq<Mark>, c: char, arg: Arg, out: string)
    requires Legal(Convert(marks, c, arg)) && out == Printed(Convert(marks, c, arg))
    ensures Prints(Escaped(marks, c), StarArgs(marks) + [arg], out)
  {
    OnePiece(Convert(marks, c, arg));
  }

  lemma UnsignedIs(c: char, base: nat, f: Fields, v: int)
    requires (c == 'u' && base == 10) || (c == 'o' && base == 8) || (c == 'x' && base == 16)
    ensures IntText(c, f, v) == Right(f, Show(v % 0x1_0000_0000, base))
  {
    assert "" + Right(f, Show(v % 0x1_0000_0000, base)) == Right(f, Show(v % 0x1_0000_0000, base));
  }

  /** %u, %o and %x: the argument modulo 2^32 in base 10, 8 and 16, padded on the left. */
  lemma UnsignedPrints(marks: seq<Mark>, c: char, base: nat, v: int) returns (t: string)
    requires Readable(marks) && ((c == 'u' && base == 10) || (c == 'o' && base == 8) || (c == 'x' && base == 16))
    ensures Writes(t, base, v % 0x1_0000_0000)
    ensures Prints(Escaped(marks, c), StarArgs(marks) + [Int(v)], Right(FieldsOf(marks, Fresh), t))
  {
    t := Show(v % 0x1_0000_0000, base);
    ShowWrites(v % 0x1_0000_0000, base);
    UnsignedIs(c, base, FieldsOf(marks, Fresh), v);
    One(marks, c, Int(v), Right(FieldsOf(marks, Fresh), t));
  }

  /** %p: "0x" and then the argument modulo 2^32 in base 16; the width counts the digits alone. */
  lemma PointerPrints(marks: seq<Mark>, v: int) returns (t: string)
    requires Readable(marks)
    ensures Writes(t, 16, v % 0x1_0000_0000)
    ensures Prints(Escaped(marks, 'p'), StarArgs(marks) + [Int(v)], "0x" + Right(FieldsOf(marks, Fresh), t))
  {
    t := Show(v % 0x1_0000_0000, 16);
    ShowWrites(v % 0x1_0000_0000, 16);
    One(marks, 'p', Int(v), "0x" + Right(FieldsOf(marks, Fresh), t));
  }

  lemma SignedAsInt(v: int)
    ensures Signed(v) == AsInt(v)
  {
  }

  lemma SignedIs(f: Fields, v: int)
    ensures SignedText(f, v) == (if AsInt(v) < 0 then "-" else "") + Right(f, Show(Magnitude(v), 10))
  {
    SignedAsInt(v);
    assert "" + Right(f, Show(Magnitude(v), 10)) == Right(f, Show(Magnitude(v), 10));
  }

  /** %d: a minus sign if negative, then the padding, then the magnitude; the width does not count the sign. */
  lemma SignedPrints(marks: seq<Mark>, v: int) returns (t: string)
    requires Readable(marks)
    ensures Writes(t, 10, Magnitude(v))
    ensures Prints(Escaped(marks, 'd'), StarArgs(marks) + [Int(v)],
                   (if AsInt(v) < 0 then "-" else "") + Right(FieldsOf(marks, Fresh), t))
  {
    t := Show(Magnitude(v), 10);
    ShowWrites(Magnitude(v), 10);
    SignedIs(FieldsOf(marks, Fresh), v);
    One(marks, 'd', Int(v), (if AsInt(v) < 0 then "-" else "") + Right(FieldsOf(marks, Fresh), t));
  }

  lemma CharIs(f: Fields, v: int)
    ensures IntText('c', f, v) == [(v % 256) as char]
  {
    assert v % 0x1_0000_0000 % 256 == v % 256;
  }

  /** %c: the one character with the code of the argument's low byte, whatever the width. */
  lemma CharPrints(marks: seq<Mark>, v: int)
    requires Readable(marks)
    ensures Prints(Escaped(marks, 'c'), StarArgs(marks) + [Int(v)], [(v % 256) as char])
  {
    CharIs(FieldsOf(marks, Fresh), v);
    One(marks, 'c', Int(v), [(v % 256) as char]);
  }

  /** As much of a string as the precision allows. */
  function Shown(f: Fields, s: string): string { if f.precision < 0 || |s| < f.precision then s else s[..f.precision] }

  lemma StringIs(f: Fields, s: string)
    ensures StringText(f, s) ==
            if f.width > 0 && f.padc != '-' then Right(f, Shown(f, s))
            else Shown(f, s) + Pad(' ', f.width - |Shown(f, s)|)
  {
    if |s| == f.precision { assert s[..f.precision] == s; }
  }

  /** %s: on the right after padding with a width and without the '-' flag, on the left before spaces otherwise;
      "(null)" for a null pointer. */
  lemma StringPrints(marks: seq<Mark>, arg: Arg, s: CString)
    requires Readable(marks) && (arg == Str(s) || (arg == Null && s == "(null)"))
    ensures var f := FieldsOf(marks, Fresh);
            Prints(Escaped(marks, 's'), StarArgs(marks) + [arg],
                   if f.width > 0 && f.padc != '-' then Right(f, Shown(f, s))
                   else Shown(f, s) + Pad(' ', f.width - |Shown(f, s)|))
  {
    StringIs(FieldsOf(marks, Fresh), s);
    One(marks, 's', arg, StringText(FieldsOf(marks, Fresh), s));
  }

  /** %f prints nothing and %% a percent sign, without an argument. */
  lemma BarePrints(marks: seq<Mark>)
    requires Readable(marks)
    ensures Prints(Escaped(marks, 'f'), StarArgs(marks), "") && Prints(Escaped(marks, '%'), StarArgs(marks), "%")
  {
    OnePiece(Bare(marks, 'f'));
    OnePiece(Bare(marks, '%'));
  }

  lemma DigitIn(c: char)
    requires IsDigit(c)
    ensures c in "0123456789"
  {
    assert c == "0123456789"[c as int - '0' as int];
  }

  /** Any other character after the marks: the escape prints itself, and only its stars take arguments. */
  lemma UnknownPrintsItself(marks: seq<Mark>, c: char)
    requires Readable(marks) && c != NUL && c !in "0123456789-*.#l" && c !in "csduopxf%"
    ensures Prints(Escaped(marks, c), StarArgs(marks), Escaped(marks, c))
  {
    if IsDigit(c) {
      DigitIn(c);
      assert false;
    }
    OnePiece(Bare(marks, c));
  }

  // ---------- without flags or a width ----------

  lemma NoPadding(f: Fields, t: string)
    requires f.width <= 0
    ensures Right(f, t) == t
  {
    assert Pad(f.padc, f.width - |t|) == "";
  }

  lemma NoMarks(c: char, v: int)
    ensures Escaped([], c) == "%" + [c] && StarArgs([]) + [Int(v)] == [Int(v)] && FieldsOf([], Fresh).width <= 0
    ensures Escaped([Flag('l')], c) == "%l" + [c] && StarArgs([Flag('l')]) + [Int(v)] == [Int(v)]
    ensures Readable([Flag('l')]) && FieldsOf([Flag('l')], Fresh).width <= 0
  {
  }

  /** A format that prints its one argument as the number n. */
  ghost predicate PrintsNumber(fmt: string, v: int, base: nat, n: nat)
    requires base <= 16
  {
    exists t :: Writes(t, base, n) && Prints(fmt, [Int(v)], t)
  }

  lemma PlainOne(c: char, base: nat, v: int)
    requires (c == 'u' && base == 10) || (c == 'o' && base == 8) || (c == 'x' && base == 16)
    ensures PrintsNumber("%" + [c], v, base, v % 0x1_0000_0000) && PrintsNumber("%l" + [c], v, base, v % 0x1_0000_0000)
  {
    NoMarks(c, v);
    var t := UnsignedPrints([], c, base, v);
    NoPadding(FieldsOf([], Fresh), t);
    var u := UnsignedPrints([Flag('l')], c, base, v);
    NoPadding(FieldsOf([Flag('l')], Fresh), u);
  }

  /** "%u", "%lu", "%o" and "%x" print the number itself. */
  lemma PlainUnsigned(v: int)
    ensures PrintsNumber("%u", v, 10, v % 0x1_0000_0000) && PrintsNumber("%lu", v, 10, v % 0x1_0000_0000)
    ensures PrintsNumber("%o", v, 8, v % 0x1_0000_0000) && PrintsNumber("%x", v, 16, v % 0x1_0000_0000)
  {
    PlainOne('u', 10, v);
    PlainOne('o', 8, v);
    PlainOne('x', 16, v);
    assert "%" + ['u'] == "%u" && "%l" + ['u'] == "%lu" && "%" + ['o'] == "%o" && "%" + ['x'] == "%x";
  }
}
