/** What `vprintfmt` promises, as laws of its rendering. */
module PrintfLaws {
  import opened Digits
  import opened Printf

  // ---------- plain text ----------

  /** Text made into a format by doubling every '%'. */
  function Quote(s: CString): (q: CString)
    ensures |s| <= |q|
  {
    if s == [] then ""
    else
      var rest := Quote(s[1..]);
      (if s[0] == '%' then "%%" else [s[0]]) + rest
  }

  /** The format a from i on is the format b from j on. */
  ghost predicate Aligned(a: string, i: nat, b: string, j: nat) {
    && i <= |a| && j <= |b| && |a| - i == |b| - j
    && forall k | i <= k < |a| :: a[k] == b[k + (j - i)]
  }

  lemma {:induction false} NumberFrom(a: CString, i: nat, b: CString, j: nat, v: int)
    requires Aligned(a, i, b, j)
    ensures var (n, k) := Number(a, i, v); Number(b, j, v) == (n, j + k - i)
    decreases |a| - i
  {
    if i < |a| && IsDigit(a[i]) && v * 10 + a[i] as int <= 0x7FFF_FFFF {
      NumberFrom(a, i + 1, b, j + 1, v * 10 + a[i] as int - '0' as int);
    }
  }

  function Moved(e: Escape, d: int): Escape
    requires e.Text? ==> 0 <= e.next + d
  {
    if e.Text? then e.(next := e.next + d) else e
  }

  /** Scanning and rendering depend on the rest of the format only. */
  lemma {:induction false} ScanFrom(a: CString, i: nat, b: CString, j: nat, f: Fields, args: seq<Arg>)
    requires Aligned(a, i, b, j)
    ensures Scan(b, j, f, args) == Moved(Scan(a, i, f, args), j - i)
    decreases |a| - i, 1
  {
    if i < |a| {
      if a[i] in "-0.#l" {
        ScanFromFlag(a, i, b, j, f, args);
      } else if IsDigit(a[i]) {
        ScanFromNumber(a, i, b, j, f, args);
      } else if a[i] == '*' {
        ScanFromStar(a, i, b, j, f, args);
      } else {
        ConversionMoved(a[i], f, i + 1, j + 1, args);
      }
    }
  }

  lemma {:induction false} ScanFromFlag(a: CString, i: nat, b: CString, j: nat, f: Fields, args: seq<Arg>)
    requires Aligned(a, i, b, j) && i < |a| && a[i] in "-0.#l"
    ensures Scan(b, j, f, args) == Moved(Scan(a, i, f, args), j - i)
    decreases |a| - i, 0
  {
    var c := a[i];
    var g := if c == '-' || c == '0' then f.(padc := c) else if c == '.' && f.width < 0 then f.(width := 0) else f;
    ScanFrom(a, i + 1, b, j + 1, g, args);
  }

  lemma ConversionMoved(c: char, f: Fields, i: nat, j: nat, args: seq<Arg>)
    ensures (Conversion(c, f, i, args).Text? ==> Conversion(c, f, i, args).next == i)
    ensures Conversion(c, f, j, args) == Moved(Conversion(c, f, i, args), j - i)
  {
  }

  lemma {:induction false} ScanFromStar(a: CString, i: nat, b: CString, j: nat, f: Fields, args: seq<Arg>)
    requires Aligned(a, i, b, j) && i < |a| && a[i] == '*'
    ensures Scan(b, j, f, args) == Moved(Scan(a, i, f, args), j - i)
    decreases |a| - i, 0
  {
    if args != [] && args[0].Int? { ScanFrom(a, i + 1, b, j + 1, SetNumber(f, Signed(args[0].v)), args[1..]); }
  }

  lemma {:induction false} ScanFromNumber(a: CString, i: nat, b: CString, j: nat, f: Fields, args: seq<Arg>)
    requires Aligned(a, i, b, j) && i < |a| && IsDigit(a[i]) && a[i] != '0'
    ensures Scan(b, j, f, args) == Moved(Scan(a, i, f, args), j - i)
    decreases |a| - i, 0
  {
    NumberFrom(a, i, b, j, 0);
    var (n, k) := Number(a, i, 0);
    if n >= 0 && k > i {
      ScanFrom(a, k, b, j + k - i, SetNumber(f, n), args);
    }
  }

  lemma {:induction false} RenderFrom(a: CString, i: nat, b: CString, j: nat, args: seq<Arg>)
    requires Aligned(a, i, b, j)
    ensures Render(a, i, args) == Render(b, j, args)
    decreases |a| - i, 1
  {
    if i < |a| {
      if a[i] == '%' {
        RenderFromEscape(a, i, b, j, args);
      } else {
        RenderFrom(a, i + 1, b, j + 1, args);
      }
    }
  }

  lemma {:induction false} RenderFromEscape(a: CString, i: nat, b: CString, j: nat, args: seq<Arg>)
    requires Aligned(a, i, b, j) && i < |a| && a[i] == '%'
    ensures Render(a, i, args) == Render(b, j, args)
    decreases |a| - i, 0
  {
    ScanFrom(a, i + 1, b, j + 1, Fresh, args);
    match Scan(a, i + 1, Fresh, args) {
      case Text(out, next, rest) => RenderFrom(a, next, b, j + next - i, rest);
      case Bad(rest) => RenderFrom(a, i + 1, b, j + 1, rest);
      case Fault =>
    }
  }

  lemma Behind(head: string, t: string)
    ensures Aligned(t, 0, head + t, |head|)
  {
  }

  /** Scanning and rendering after a head. */
  lemma ScanAfter(head: string, t: CString, fmt: CString, f: Fields, args: seq<Arg>)
    requires fmt == head + t
    ensures Scan(fmt, |head|, f, args) == Moved(Scan(t, 0, f, args), |head|)
  {
    Behind(head, t);
    ScanFrom(t, 0, fmt, |head|, f, args);
  }

  lemma RenderAfter(head: string, t: CString, fmt: CString, args: seq<Arg>)
    requires fmt == head + t
    ensures Render(fmt, |head|, args) == Render(t, 0, args)
  {
    Behind(head, t);
    RenderFrom(t, 0, fmt, |head|, args);
  }

  function Quoted(c: char): string { if c == '%' then "%%" else [c] }

  lemma QuotedThen(c: char, t: CString, args: seq<Arg>)
    requires c != NUL
    ensures Render(Quoted(c) + t, 0, args) == Prepend([c], Render(t, 0, args))
  {
    var fmt: CString := Quoted(c) + t;
    RenderAfter(Quoted(c), t, fmt, args);
    if c == '%' { assert Scan(fmt, 1, Fresh, args) == Text("%", 2, args); }
  }

  /** Quoted text in front of a format prints that text. */
  lemma {:induction false} QuoteThen(s: CString, t: CString, args: seq<Arg>)
    ensures Render(Quote(s) + t, 0, args) == Prepend(s, Render(t, 0, args))
  {
    if s == [] {
      assert Quote(s) + t == t;
      PrependNothing(Render(t, 0, args));
    } else {
      QuoteThen(s[1..], t, args);
      QuotedThen(s[0], Quote(s[1..]) + t, args);
      assert Quote(s) + t == Quoted(s[0]) + (Quote(s[1..]) + t);
      PrependTwice([s[0]], s[1..], Render(t, 0, args));
      assert [s[0]] + s[1..] == s;
    }
  }

  lemma PrependNothing(o: Outcome)
    ensures Prepend("", o) == o
  {
    if o.Done? { assert "" + o.out == o.out; }
  }

  /** Every text can be printed literally: rendering undoes quoting. */
  lemma QuoteRoundTrip(s: CString, args: seq<Arg>)
    ensures Render(Quote(s), 0, args) == Done(s)
  {
    QuoteThen(s, "", args);
    assert Quote(s) + "" == Quote(s) && s + "" == s;
  }

  // ---------- strings ----------

  function Max(a: int, b: int): int { if a < b then b else a }
  function Min(a: int, b: int): int { if a < b then a else b }

  /** %s shows min(length, precision) characters of the string, in order, in max(width, that many). */
  lemma StringWidth(f: Fields, s: string)
    ensures var n := if f.precision < 0 then |s| else Min(|s|, f.precision);
            var left := f.width > 0 && f.padc != '-';
            var out := StringText(f, s);
            && |out| == Max(f.width, n)
            && (if left then out[|out| - n..] else out[..n]) == s[..n]
            && forall k | 0 <= k < |out| && (if left then k < |out| - n else n <= k) ::
                 out[k] == if left then f.padc else ' '
  {
  }

  // ---------- numbers ----------

  lemma FirstShown(num: nat, base: nat)
    requires 2 <= base <= 16
    ensures |Show(num, base)| == |Numeral(num, base)| && (1 < |Show(num, base)| ==> Show(num, base)[0] != '0')
  {
    var ds := Numeral(num, base);
    assert ds[0] in ds;
    assert Show(num, base)[0] == DigitChar(ds[0]);
  }

  /** A number takes max(width, digits) characters; the digits carry no leading zero. */
  lemma NumWidth(num: nat, base: nat, width: int, padc: char)
    requires 2 <= base <= 16
    ensures var n := |Show(num, base)|; var out := NumText(num, base, width, padc);
            && |out| == Max(width, n) && out[|out| - n..] == Show(num, base)
            && (forall k | 0 <= k < |out| - n :: out[k] == padc)
            && (1 < n ==> out[|out| - n] != '0')
  {
    FirstShown(num, base);
    PadThen(padc, width - |Show(num, base)|, Show(num, base));
  }

  lemma PadThen(c: char, n: int, s: string)
    ensures var out := Pad(c, n) + s;
            |out| == Max(0, n) + |s| && out[|out| - |s|..] == s && forall k | 0 <= k < |out| - |s| :: out[k] == c
  {
  }

  /** The '-' flag is to pad on the right; numbers are padded on the left with '-' characters instead, so it
      is honoured exactly when there is nothing to pad. */
  lemma MinusFlag(num: nat, base: nat, width: int)
    requires 2 <= base <= 16
    ensures NumText(num, base, width, '-') == Show(num, base) + Pad(' ', width - |Show(num, base)|)
            <==> width <= |Show(num, base)|
  {
    var digits := Show(num, base);
    if width <= |digits| {
      assert Pad('-', width - |digits|) == [] && Pad(' ', width - |digits|) == [];
    } else {
      var a, b := NumText(num, base, width, '-'), digits + Pad(' ', width - |digits|);
      assert a[0] == '-' && b[0] == digits[0] == DigitChar(Numeral(num, base)[0]);
      assert Numeral(num, base)[0] in Numeral(num, base);
    }
  }

  function ParseSigned(s: string): int {
    if s != [] && s[0] == '-' then -(ParseNum(s[1..], 10) as int) else ParseNum(s, 10)
  }

  lemma ParseMinus(t: string)
    ensures ParseSigned("-" + t) == -(ParseNum(t, 10) as int)
  {
    assert ("-" + t)[1..] == t;
  }

  lemma NoMinus(num: nat, width: int, padc: char)
    requires padc == '0' || width <= 0
    ensures NumText(num, 10, width, padc)[0] != '-'
  {
    var ds := Numeral(num, 10);
    assert ds[0] in ds;
    NumWidth(num, 10, width, padc);
    var text := NumText(num, 10, width, padc);
    if |text| == |ds| { assert text[0] == DigitChar(ds[0]); } else { assert text[0] == padc; }
  }

  /** %d, unpadded or padded with zeros, reads back to the argument, the least int included. */
  lemma SignedRoundTrip(f: Fields, v: int)
    requires f.padc == '0' || f.width <= 0
    ensures ParseSigned(SignedText(f, v)) == Signed(v)
  {
    var n := if Signed(v) < 0 then -Signed(v) else Signed(v);
    NumRoundTrip(n, 10, f.width, f.padc);
    ParseMinus(NumText(n, 10, f.width, f.padc));
    NoMinus(n, f.width, f.padc);
  }

  // ---------- widths written into the format ----------

  lemma {:induction false} ValuePrefix(ds: seq<nat>, k: nat)
    requires k <= |ds|
    ensures Value(ds[..k], 10) <= Value(ds, 10)
    decreases |ds|
  {
    if k < |ds| {
      var init := ds[..|ds| - 1];
      assert ds[..k] == init[..k];
      ValuePrefix(init, k);
    } else {
      assert ds[..k] == ds;
    }
  }

  /** The interpreter reads back the digits `printnum` writes. */
  lemma {:induction false} NumberReads(fmt: CString, i: nat, ds: seq<nat>, k: nat)
    requires i + |ds| <= |fmt| && k <= |ds|
    requires forall n | 0 <= n < |ds| :: ds[n] < 10 && fmt[i + n] == DigitChar(ds[n])
    requires Value(ds, 10) + '0' as int <= 0x7FFF_FFFF
    ensures Number(fmt, i, 0) == Number(fmt, i + k, Value(ds[..k], 10))
  {
    if k > 0 {
      NumberReads(fmt, i, ds, k - 1);
      assert ds[..k][..k - 1] == ds[..k - 1];
      ValuePrefix(ds, k);
    }
  }

  /** A number in the format is read back, up to the largest int less '0', which is what
      `precision * 10 + ch - '0'` can hold on the way. */
  lemma NumberOfShow(fmt: CString, i: nat, w: nat)
    requires w + '0' as int <= 0x7FFF_FFFF
    requires i + |Show(w, 10)| <= |fmt| && fmt[i..i + |Show(w, 10)|] == Show(w, 10)
    ensures Number(fmt, i, 0) == Number(fmt, i + |Show(w, 10)|, w)
  {
    var ds := Numeral(w, 10);
    ShownDigits(fmt, i, ds);
    ValueOfDigits(w, 10);
    NumberReads(fmt, i, ds, |ds|);
    assert ds[..|ds|] == ds;
  }

  lemma ShownDigits(fmt: string, i: nat, ds: seq<nat>)
    requires forall d | d in ds :: d < 10
    requires i + |ds| <= |fmt| && fmt[i..i + |ds|] == Chars(ds)
    ensures forall k | 0 <= k < |ds| :: ds[k] < 10 && fmt[i + k] == DigitChar(ds[k])
  {
    forall k | 0 <= k < |ds| ensures ds[k] < 10 && fmt[i + k] == DigitChar(ds[k]) {
      assert ds[k] in ds;
      assert fmt[i + k] == fmt[i..i + |ds|][k];
    }
  }

  /** A first number w and the conversion after it: scanned as that width. */
  lemma ScanWidth(fmt: CString, i: nat, w: nat, f: Fields, args: seq<Arg>, k: nat)
    requires 0 < w && w + '0' as int <= 0x7FFF_FFFF && f.width < 0
    requires k == i + |Show(w, 10)| < |fmt| && fmt[i..k] == Show(w, 10)
    requires !IsDigit(fmt[k]) && fmt[k] !in "-*.#l" && fmt[k] != NUL
    ensures Scan(fmt, i, f, args) == Conversion(fmt[k], f.(width := w, precision := -1), k + 1, args)
  {
    NumberOfShow(fmt, i, w);
    FirstDigit(w);
    assert fmt[i] == fmt[i..k][0];
    ScanNumberStep(fmt, i, k, w, f, args);
    ScanEnd(fmt, k, f.(width := w, precision := -1), args);
  }

  lemma ScanNumberStep(fmt: CString, i: nat, j: nat, w: nat, f: Fields, args: seq<Arg>)
    requires i < j <= |fmt| && '1' <= fmt[i] <= '9' && Number(fmt, i, 0) == Number(fmt, j, w) && !IsDigit(At(fmt, j))
    ensures Scan(fmt, i, f, args) == Scan(fmt, j, SetNumber(f, w), args)
  {
  }

  lemma ScanEnd(fmt: CString, i: nat, f: Fields, args: seq<Arg>)
    requires i < |fmt| && !IsDigit(fmt[i]) && fmt[i] !in "-*.#l" && fmt[i] != NUL
    ensures Scan(fmt, i, f, args) == Conversion(fmt[i], f, i + 1, args)
  {
  }

  lemma FirstDigit(w: nat)
    requires 0 < w
    ensures '1' <= Show(w, 10)[0] <= '9'
  {
    var ds := Numeral(w, 10);
    assert ds[0] in ds;
  }

  /** A format that is one escape renders to that escape's text. */
  lemma OneEscape(fmt: CString, args: seq<Arg>, out: string)
    requires 1 < |fmt| && fmt[0] == '%' && Scan(fmt, 1, Fresh, args) == Text(out, |fmt|, [])
    ensures Render(fmt, 0, args) == Done(out)
  {
    assert Render(fmt, |fmt|, []) == Done("");
    assert out + "" == out;
  }

  lemma DigitsAreNotNul(w: nat)
    ensures NUL !in Show(w, 10)
  {
    var ds := Numeral(w, 10);
    forall k | 0 <= k < |ds| ensures Show(w, 10)[k] != NUL { assert ds[k] in ds; }
  }

  /** "%<w>d" prints with width w. */
  lemma WidthFromFormat(w: nat, v: int)
    requires 0 < w && w + '0' as int <= 0x7FFF_FFFF
    ensures NUL !in "%" + Show(w, 10) + "d"
    ensures Render("%" + Show(w, 10) + "d", 0, [Int(v)]) == Done(SignedText(Fields(' ', w, -1), v))
  {
    DigitsAreNotNul(w);
    var fmt: CString := "%" + Show(w, 10) + "d";
    assert fmt[1..1 + |Show(w, 10)|] == Show(w, 10);
    ScanWidth(fmt, 1, w, Fresh, [Int(v)], 1 + |Show(w, 10)|);
    assert [Int(v)][1..] == [];
    OneEscape(fmt, [Int(v)], SignedText(Fields(' ', w, -1), v));
  }

  /** `write_hex` is "0x" and the upper-case form of "%08x". */
  lemma WriteHexIsFormat(v: nat)
    requires v < 0x1_0000_0000
    ensures Render("%08x", 0, [Int(v)]) == Done(NumText(v, 16, 8, '0'))
  {
    var fmt: CString := "%08x";
    assert Show(8, 10) == "8" && fmt[2..3] == "8";
    ScanWidth(fmt, 2, 8, Fields('0', -1, -1), [Int(v)], 3);
    ScanZero(fmt, 1, Fresh, [Int(v)]);
    HexConversion(v);
    OneEscape(fmt, [Int(v)], NumText(v, 16, 8, '0'));
  }

  lemma ScanZero(fmt: CString, i: nat, f: Fields, args: seq<Arg>)
    requires i < |fmt| && fmt[i] == '0'
    ensures Scan(fmt, i, f, args) == Scan(fmt, i + 1, f.(padc := '0'), args)
  {
  }

  lemma HexConversion(v: nat)
    requires v < 0x1_0000_0000
    ensures Conversion('x', Fields('0', 8, -1), 4, [Int(v)]) == Text(NumText(v, 16, 8, '0'), 4, [])
  {
    var f := Fields('0', 8, -1);
    HexText(f, v);
    assert [Int(v)][1..] == [];
  }

  lemma HexText(f: Fields, v: nat)
    requires v < 0x1_0000_0000
    ensures IntText('x', f, v) == NumText(v, 16, f.width, f.padc)
  {
    var text := NumText(v, 16, f.width, f.padc);
    assert Unsigned(v) == v;
    assert "" + text == text;
  }
}
