/** `vprintfmt`: the format interpreter behind `printf` and `sprintf`.  A format is its characters before the
    NUL; the output is the sequence of characters handed to `putch`, in order. */
module Printf {
  import opened Digits

  const NUL: char := '\0'

  /** The characters of a C string, before its NUL. */
  type CString = s: string | NUL !in s

  datatype Arg = Int(v: int) | Str(s: CString) | Null

  /** `Undefined`: a missing or mistyped argument, or a width beyond the range of int. */
  datatype Outcome = Done(out: string) | Undefined

  function Prepend(s: string, o: Outcome): Outcome {
    match o
    case Done(t) => Done(s + t)
    case Undefined => Undefined
  }

  /** Reading the format never goes past its NUL. */
  function At(fmt: CString, i: nat): char
    requires i <= |fmt|
  {
    if i < |fmt| then fmt[i] else NUL
  }

  function Unsigned(v: int): nat { v % 0x1_0000_0000 }
  function Signed(v: int): int {
    if Unsigned(v) < 0x8000_0000 then Unsigned(v) else Unsigned(v) - 0x1_0000_0000
  }

  // ---------- specification: what a format renders to ----------

  /** The state of one %-escape. */
  datatype Fields = Fields(padc: char, width: int, precision: int)

  const Fresh: Fields := Fields(' ', -1, -1)

  /** The first number or `*` is the width, a later one the precision. */
  function SetNumber(f: Fields, n: int): Fields {
    if f.width < 0 then f.(width := n, precision := -1) else f.(precision := n)
  }

  predicate IsDigit(c: char) { '0' <= c <= '9' }

  /** The number that continues at i after the value v so far, and where it ends; -1 beyond the range of int. */
  function Number(fmt: CString, i: nat, v: int): (r: (int, nat))
    requires i <= |fmt|
    ensures i <= r.1 <= |fmt| && (v <= 0x7FFF_FFFF ==> r.0 <= 0x7FFF_FFFF)
    decreases |fmt| - i
  {
    var c := At(fmt, i);
    if !IsDigit(c) then (v, i)
    else if v * 10 + c as int > 0x7FFF_FFFF then (-1, i)
    else Number(fmt, i + 1, v * 10 + c as int - '0' as int)
  }

  /** What an escape comes to: its text, the position after it and the arguments left; or no escape at all. */
  datatype Escape = Text(out: string, next: nat, args: seq<Arg>) | Bad(args: seq<Arg>) | Fault

  function StringText(f: Fields, s: string): string {
    var shown := if 0 <= f.precision < |s| then s[..f.precision] else s;
    if f.width > 0 && f.padc != '-' then Pad(f.padc, f.width - |shown|) + shown
    else shown + Pad(' ', f.width - |shown|)
  }

  /** The sign comes before the padding and does not count in the width. */
  function SignedText(f: Fields, v: int): string {
    if Signed(v) < 0 then "-" + NumText(-Signed(v), 10, f.width, f.padc)
    else NumText(Signed(v), 10, f.width, f.padc)
  }

  function Base(c: char): (b: nat)
    ensures 2 <= b <= 16
  {
    if c == 'u' then 10 else if c == 'o' then 8 else 16
  }

  function UnsignedText(c: char, f: Fields, v: int): string {
    (if c == 'p' then "0x" else "") + NumText(Unsigned(v), Base(c), f.width, f.padc)
  }

  predicate TakesInt(c: char) { c == 'c' || c == 'd' || c == 'u' || c == 'o' || c == 'p' || c == 'x' }

  function IntText(c: char, f: Fields, v: int): string {
    if c == 'c' then [(Unsigned(v) % 256) as char]
    else if c == 'd' then SignedText(f, v)
    else UnsignedText(c, f, v)
  }

  /** A conversion consumes its argument; a wrong or missing one is undefined. */
  function IntConversion(c: char, f: Fields, next: nat, args: seq<Arg>): Escape {
    if args == [] || !args[0].Int? then Fault
    else Text(IntText(c, f, args[0].v), next, args[1..])
  }

  function StringConversion(f: Fields, next: nat, args: seq<Arg>): Escape {
    if args == [] || args[0].Int? then Fault
    else Text(StringText(f, if args[0].Null? then "(null)" else args[0].s), next, args[1..])
  }

  function Conversion(c: char, f: Fields, next: nat, args: seq<Arg>): Escape {
    if TakesInt(c) then IntConversion(c, f, next, args)
    else if c == 's' then StringConversion(f, next, args)
    else if c == 'f' then Text("", next, args)
    else if c == '%' then Text("%", next, args)
    else Bad(args)
  }

  /** The escape whose flags so far are f and that continues at i. */
  function Scan(fmt: CString, i: nat, f: Fields, args: seq<Arg>): (e: Escape)
    requires i <= |fmt|
    ensures e.Text? ==> i < e.next <= |fmt|
    decreases |fmt| - i
  {
    var c := At(fmt, i);
    if c == NUL then Bad(args)
    else if c == '-' || c == '0' then Scan(fmt, i + 1, f.(padc := c), args)
    else if IsDigit(c) then
      var (n, j) := Number(fmt, i, 0);
      if n < 0 || j == i then Fault else Scan(fmt, j, SetNumber(f, n), args)
    else if c == '*' then
      if args == [] || !args[0].Int? then Fault
      else Scan(fmt, i + 1, SetNumber(f, Signed(args[0].v)), args[1..])
    else if c == '.' then Scan(fmt, i + 1, if f.width < 0 then f.(width := 0) else f, args)
    else if c == '#' || c == 'l' then Scan(fmt, i + 1, f, args)
    else Conversion(c, f, i + 1, args)
  }

  /** What the format renders to from position i on.  An unknown escape prints its '%' and starts over right
      after it, with the arguments it consumed gone. */
  function Render(fmt: CString, i: nat, args: seq<Arg>): Outcome
    requires i <= |fmt|
    decreases |fmt| - i
  {
    if i == |fmt| then Done("")
    else if fmt[i] != '%' then Prepend([fmt[i]], Render(fmt, i + 1, args))
    else match Scan(fmt, i + 1, Fresh, args)
         case Text(out, next, rest) => Prepend(out, Render(fmt, next, rest))
         case Bad(rest) => Prepend("%", Render(fmt, i + 1, rest))
         case Fault => Undefined
  }

  // ---------- vprintfmt ----------

  /** The digits of a width or precision, at least one. */
  method ScanNumber(fmt: CString, start: nat) returns (precision: int, pos: nat)
    requires start < |fmt| && IsDigit(fmt[start])
    ensures start <= pos <= |fmt| && (precision, pos) == Number(fmt, start, 0) && (0 <= precision ==> start < pos)
  {
    precision, pos := 0, start;
    while IsDigit(At(fmt, pos))
      invariant start <= pos <= |fmt| && 0 <= precision && (pos == start ==> precision == 0)
      invariant Number(fmt, start, 0) == Number(fmt, pos, precision)
      decreases |fmt| - pos
    {
      if precision * 10 + fmt[pos] as int > 0x7FFF_FFFF {
        return -1, pos;
      }
      precision := precision * 10 + fmt[pos] as int - '0' as int;
      pos := pos + 1;
    }
  }

  /** The %s conversion: pad on the left, copy at most `precision` characters, pad on the right. */
  method PutString(f: Fields, s: string) returns (out: string)
    ensures out == StringText(f, s)
  {
    var width, precision := f.width, f.precision;
    ghost var shown := if 0 <= precision < |s| then s[..precision] else s;
    out := "";
    if width > 0 && f.padc != '-' {
      var strnlen := if 0 <= precision < |s| then precision else |s|;
      out := PutPadding(width, strnlen, f.padc);
      width := if width > strnlen then 0 else width - strnlen;
    }
    ghost var before, left := out, width;
    var p := 0;
    while p < |s| && (precision < 0 || precision > 0)
      invariant p <= |s| && width == left - p
      invariant precision == (if f.precision < 0 then f.precision else f.precision - p)
      invariant f.precision < 0 || p <= f.precision
      invariant out == before + s[..p]
    {
      precision := if precision < 0 then precision else precision - 1;
      out := out + [s[p]];
      p, width := p + 1, width - 1;
    }
    assert s[..p] == shown;
    var right := PutPadding(width, 0, ' ');
    out := out + right;
  }

  /** The conversion that ends an escape, at position pos - 1. */
  method Convert(ch: char, f: Fields, pos: nat, args: seq<Arg>) returns (e: Escape)
    ensures e == Conversion(ch, f, pos, args)
  {
    match ch {
      case 'f' => return Text("", pos, args);
      case '%' => return Text([ch], pos, args);
      case 's' =>
        if args == [] || args[0].Int? {
          return Fault;
        }
        var text := PutString(f, if args[0].Null? then "(null)" else args[0].s);
        return Text(text, pos, args[1..]);
      case _ =>
        if !TakesInt(ch) {
          return Bad(args);
        } else if args == [] || !args[0].Int? {
          return Fault;
        }
        var text := PutInt(ch, f, args[0].v);
        return Text(text, pos, args[1..]);
    }
  }

  /** The conversions of an integer argument. */
  method PutInt(ch: char, f: Fields, v: int) returns (out: string)
    requires TakesInt(ch)
    ensures out == IntText(ch, f, v)
  {
    if ch == 'c' {
      out := [(Unsigned(v) % 256) as char];
    } else if ch == 'd' {
      out := PutSigned(f, v);
    } else {
      var num := PrintNum(Unsigned(v), Base(ch), f.width, f.padc);
      out := (if ch == 'p' then "0x" else "") + num;
    }
  }

  /** The %d conversion: the sign first, then the magnitude. */
  method PutSigned(f: Fields, v: int) returns (out: string)
    ensures out == SignedText(f, v)
  {
    var num := Signed(v);
    var sign := "";
    if num < 0 {
      sign, num := "-", -num;
    }
    var digits := PrintNum(num, 10, f.width, f.padc);
    out := sign + digits;
  }

  /** One %-escape, from the character after the '%': the `reswitch` loop. */
  method Reswitch(fmt: CString, start: nat, all: seq<Arg>) returns (e: Escape)
    requires start <= |fmt|
    ensures e == Scan(fmt, start, Fresh, all)
  {
    var pos, f, args := start, Fresh, all;
    while true
      invariant start <= pos <= |fmt|
      invariant Scan(fmt, start, Fresh, all) == Scan(fmt, pos, f, args)
      decreases |fmt| - pos
    {
      var ch := At(fmt, pos);
      if ch == NUL {
        return Bad(args);
      }
      if ch == '-' || ch == '0' {
        f, pos := f.(padc := ch), pos + 1;
      } else if IsDigit(ch) {
        var precision, next := ScanNumber(fmt, pos);
        if precision < 0 {
          return Fault;
        }
        f, pos := SetNumber(f, precision), next;
      } else if ch == '*' {
        if args == [] || !args[0].Int? {
          return Fault;
        }
        f, pos, args := SetNumber(f, Signed(args[0].v)), pos + 1, args[1..];
      } else if ch == '.' {
        f, pos := if f.width < 0 then f.(width := 0) else f, pos + 1;
      } else if ch == '#' || ch == 'l' {
        pos := pos + 1;
      } else {
        e := Convert(ch, f, pos + 1, args);
        return;
      }
    }
  }

  /** `vprintfmt`, for every format and every list of arguments. */
  method Vprintfmt(fmt: CString, all: seq<Arg>) returns (r: Outcome)
    ensures r == Render(fmt, 0, all)
  {
    var pos, args, out := 0, all, "";
    while pos < |fmt|
      invariant pos <= |fmt|
      invariant Render(fmt, 0, all) == Prepend(out, Render(fmt, pos, args))
      decreases |fmt| - pos
    {
      var ch := fmt[pos];
      PrependTwice(out, [ch], if pos < |fmt| then Render(fmt, pos + 1, args) else Undefined);
      pos := pos + 1;
      if ch != '%' {
        out := out + [ch];
      } else {
        var e := Reswitch(fmt, pos, args);
        match e {
          case Text(text, next, rest) =>
            PrependTwice(out, text, Render(fmt, next, rest));
            out, pos, args := out + text, next, rest;
          case Bad(rest) =>
            PrependTwice(out, "%", Render(fmt, pos, rest));
            out, args := out + "%", rest;
          case Fault =>
            return Undefined;
        }
      }
    }
    assert Prepend(out, Done("")) == Done(out);
    r := Done(out);
  }

  lemma PrependTwice(s: string, t: string, o: Outcome)
    ensures Prepend(s, Prepend(t, o)) == Prepend(s + t, o)
  {
    if o.Done? { assert s + (t + o.out) == s + t + o.out; }
  }
}
