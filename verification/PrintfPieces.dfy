/** Formats put together from pieces: literal text, conversions with all that may stand between '%' and the
    conversion character, and unknown escapes.  Rendering gives the texts of the pieces, one after the other. */
module PrintfPieces {
  import opened Digits
  import opened Printf
  import opened PrintfLaws

  /** What may stand between '%' and the conversion character, in any order; `Star` takes an argument. */
  datatype Mark = Flag(c: char) | Number(n: nat) | Star(v: int) | Dot

  datatype Piece =
    | Literal(s: CString)
    | Convert(marks: seq<Mark>, c: char, arg: Arg)
    | Bare(marks: seq<Mark>, c: char)      // %f, %% and unknown escapes: the conversion takes no argument

  /** A mark whose text would continue a number before it. */
  predicate Continues(m: Mark) { m.Number? || m == Flag('0') }

  predicate Writable(m: Mark) {
    match m
    case Flag(c) => c == '-' || c == '0' || c == '#' || c == 'l'
    case Number(n) => 0 < n && n + '0' as int <= 0x7FFF_FFFF
    case _ => true
  }

  /** Marks that are read back one by one: no number runs into a digit after it. */
  predicate Readable(marks: seq<Mark>) {
    marks == [] ||
    (Writable(marks[0]) && Readable(marks[1..]) && !(marks[0].Number? && |marks| > 1 && Continues(marks[1])))
  }

  /** A character that ends an escape. */
  predicate Ends(c: char) { !IsDigit(c) && c !in "-*.#l" && c != NUL }

  predicate Legal(p: Piece) {
    match p
    case Literal(_) => true
    case Convert(marks, c, arg) => Readable(marks) && if arg.Int? then TakesInt(c) else c == 's'
    case Bare(marks, c) => Readable(marks) && Ends(c) && !TakesInt(c) && c != 's'
  }

  function MarkText(m: Mark): string {
    match m
    case Flag(c) => [c]
    case Number(n) => Show(n, 10)
    case Star(_) => "*"
    case Dot => "."
  }

  function Source(marks: seq<Mark>): string {
    if marks == [] then "" else MarkText(marks[0]) + Source(marks[1..])
  }

  /** How a piece is written into a format. */
  function Written(p: Piece): string {
    match p
    case Literal(s) => Quote(s)
    case Convert(marks, c, _) => "%" + Source(marks) + [c]
    case Bare(marks, c) => "%" + Source(marks) + [c]
  }

  function AtPoint(f: Fields): Fields { if f.width < 0 then f.(width := 0) else f }

  /** The fields after one more mark, and after all of them. */
  function Marked(f: Fields, m: Mark): Fields {
    match m
    case Flag(c) => if c == '-' || c == '0' then f.(padc := c) else f
    case Number(n) => SetNumber(f, n)
    case Star(v) => SetNumber(f, Signed(v))
    case Dot => AtPoint(f)
  }

  function FieldsOf(marks: seq<Mark>, f: Fields): Fields {
    if marks == [] then f else FieldsOf(marks[1..], Marked(f, marks[0]))
  }

  function OwnArgs(m: Mark): seq<Arg> { if m.Star? then [Int(m.v)] else [] }

  function StarArgs(marks: seq<Mark>): seq<Arg> {
    if marks == [] then [] else OwnArgs(marks[0]) + StarArgs(marks[1..])
  }

  /** What a piece prints: an unknown escape prints itself. */
  function Printed(p: Piece): string {
    match p
    case Literal(s) => s
    case Convert(marks, c, Int(v)) => IntText(c, FieldsOf(marks, Fresh), v)
    case Convert(marks, _, Str(s)) => StringText(FieldsOf(marks, Fresh), s)
    case Convert(marks, _, Null) => StringText(FieldsOf(marks, Fresh), "(null)")
    case Bare(marks, c) => if c == 'f' then "" else if c == '%' then "%" else "%" + Source(marks) + [c]
  }

  function ArgsOf(p: Piece): seq<Arg> {
    match p
    case Literal(_) => []
    case Convert(marks, _, arg) => StarArgs(marks) + [arg]
    case Bare(marks, _) => StarArgs(marks)
  }

  predicate AllLegal(ps: seq<Piece>) { forall i | 0 <= i < |ps| :: Legal(ps[i]) }

  predicate Plain(s: string) { forall k | 0 <= k < |s| :: s[k] != NUL && s[k] != '%' }

  lemma MarkIsPlain(m: Mark)
    requires Writable(m)
    ensures Plain(MarkText(m))
  {
    if m.Number? {
      var ds := Numeral(m.n, 10);
      forall k | 0 <= k < |ds| ensures Show(m.n, 10)[k] != NUL && Show(m.n, 10)[k] != '%' { assert ds[k] in ds; }
    }
  }

  lemma {:induction false} SourceIsPlain(marks: seq<Mark>)
    requires Readable(marks)
    ensures Plain(Source(marks))
  {
    if marks != [] {
      MarkIsPlain(marks[0]);
      SourceIsPlain(marks[1..]);
    }
  }

  function Format(ps: seq<Piece>): (fmt: CString)
    requires AllLegal(ps)
  {
    if ps == [] then ""
    else
      WrittenIsString(ps[0]);
      Written(ps[0]) + Format(ps[1..])
  }

  function Arguments(ps: seq<Piece>): seq<Arg> { if ps == [] then [] else ArgsOf(ps[0]) + Arguments(ps[1..]) }

  function Texts(ps: seq<Piece>): string { if ps == [] then "" else Printed(ps[0]) + Texts(ps[1..]) }

  // ---------- the usual order ----------

  /** A width or precision. */
  datatype Size = Unset | Given(n: nat) | ByArg(v: int)

  function SizeMarks(s: Size): seq<Mark> {
    match s
    case Unset => []
    case Given(n) => [Number(n)]
    case ByArg(v) => [Star(v)]
  }

  function SizeValue(s: Size): int {
    match s
    case Unset => -1
    case Given(n) => n
    case ByArg(v) => Signed(v)
  }

  /** The last of the flags that says how to pad. */
  function Padding(flags: string, padc: char): char {
    if flags == "" then padc
    else if flags[|flags| - 1] == '-' || flags[|flags| - 1] == '0' then flags[|flags| - 1]
    else Padding(flags[..|flags| - 1], padc)
  }

  function FlagMarks(flags: string): seq<Mark> { seq(|flags|, k requires 0 <= k < |flags| => Flag(flags[k])) }

  /** Flags, then a width, then a point and a precision. */
  function Usual(flags: string, width: Size, precision: Size): seq<Mark> {
    FlagMarks(flags) + SizeMarks(width) + if precision.Unset? then [] else [Dot] + SizeMarks(precision)
  }

  /** The padding is the last '-' or '0', a precision sets a negative or missing width to 0, and a negative precision
      is none. */
  lemma UsualFields(flags: string, width: Size, precision: Size)
    ensures FieldsOf(Usual(flags, width, precision), Fresh) ==
      Fields(Padding(flags, ' '),
             if SizeValue(width) < 0 && !precision.Unset? then 0 else SizeValue(width),
             SizeValue(precision))
  {
    var f, sizes := Fresh.(padc := Padding(flags, ' ')), SizeMarks(width);
    var point := if precision.Unset? then [] else [Dot] + SizeMarks(precision);
    FlagFields(flags, Fresh);
    FieldsInParts(FlagMarks(flags) + sizes, point, Fresh);
    FieldsInParts(FlagMarks(flags), sizes, Fresh);
    SizeFields(width, f);
    if !precision.Unset? { PointFields(precision, FieldsOf(sizes, f)); }
  }

  lemma SizeFields(width: Size, f: Fields)
    ensures FieldsOf(SizeMarks(width), f) == if width.Unset? then f else SetNumber(f, SizeValue(width))
  {
    if !width.Unset? { assert FieldsOf([], SetNumber(f, SizeValue(width))) == SetNumber(f, SizeValue(width)); }
  }

  lemma PointFields(precision: Size, f: Fields)
    requires !precision.Unset?
    ensures FieldsOf([Dot] + SizeMarks(precision), f) == SetNumber(AtPoint(f), SizeValue(precision))
  {
    assert ([Dot] + SizeMarks(precision))[1..] == SizeMarks(precision);
    SizeFields(precision, AtPoint(f));
  }

  lemma {:induction false} FieldsInParts(a: seq<Mark>, b: seq<Mark>, f: Fields)
    ensures FieldsOf(a + b, f) == FieldsOf(b, FieldsOf(a, f))
    decreases |a|
  {
    if a == [] {
      assert a + b == b;
    } else {
      assert (a + b)[1..] == a[1..] + b;
      FieldsInParts(a[1..], b, Marked(f, a[0]));
    }
  }

  lemma {:induction false} FlagFields(flags: string, f: Fields)
    ensures FieldsOf(FlagMarks(flags), f) == f.(padc := Padding(flags, f.padc))
    decreases |flags|
  {
    if flags != "" {
      var init, last := flags[..|flags| - 1], flags[|flags| - 1];
      FlagFields(init, f);
      assert FlagMarks(flags) == FlagMarks(init) + [Flag(last)];
      FieldsInParts(FlagMarks(init), [Flag(last)], f);
    }
  }

  // ---------- scanning what was written ----------

  /** A text that does not continue a number in front of it. */
  predicate Apart(t: string) { t == "" || !IsDigit(t[0]) }

  lemma ScanShown(fmt: CString, n: nat, t: CString, f: Fields, args: seq<Arg>)
    requires Writable(Number(n)) && fmt == Show(n, 10) + t && Apart(t)
    ensures Scan(fmt, 0, f, args) == Scan(fmt, |Show(n, 10)|, SetNumber(f, n), args)
  {
    var j := |Show(n, 10)|;
    assert fmt[0..j] == Show(n, 10);
    NumberOfShow(fmt, 0, n);
    FirstDigit(n);
    ScanNumberStep(fmt, 0, j, n, f, args);
  }

  /** Flags, points and stars. */
  lemma ScanSign(fmt: CString, m: Mark, f: Fields, args: seq<Arg>)
    requires Writable(m) && !m.Number? && fmt != "" && [fmt[0]] == MarkText(m)
    ensures Scan(fmt, 0, f, OwnArgs(m) + args) == Scan(fmt, 1, Marked(f, m), args)
  {
    if m.Star? {
      assert ([Int(m.v)] + args)[1..] == args;
    } else {
      assert [] + args == args;
    }
  }

  /** One mark in front of the rest of an escape, with its argument if it is a star. */
  lemma MarkThen(m: Mark, t: CString, fmt: CString, f: Fields, args: seq<Arg>)
    requires Writable(m) && fmt == MarkText(m) + t && (m.Number? ==> Apart(t))
    ensures Scan(fmt, 0, f, OwnArgs(m) + args) == Moved(Scan(t, 0, Marked(f, m), args), |MarkText(m)|)
  {
    if m.Number? {
      assert OwnArgs(m) + args == args;
      ScanShown(fmt, m.n, t, f, args);
    } else {
      ScanSign(fmt, m, f, args);
    }
    ScanAfter(MarkText(m), t, fmt, Marked(f, m), args);
  }

  /** What follows a number does not continue it. */
  lemma NoDigitNext(marks: seq<Mark>, t: string)
    requires Readable(marks) && Apart(t) && (marks != [] ==> !Continues(marks[0]))
    ensures Apart(Source(marks) + t)
  {
    if marks != [] { assert Source(marks)[0] == MarkText(marks[0])[0]; }
  }

  lemma MovedTwice(e: Escape, a: nat, b: nat)
    ensures Moved(Moved(e, a), b) == Moved(e, a + b)
  {
  }

  lemma FirstOfSource(marks: seq<Mark>, t: string)
    requires marks != []
    ensures Source(marks) + t == MarkText(marks[0]) + (Source(marks[1..]) + t)
  {
  }

  lemma FirstOfArgs(marks: seq<Mark>, args: seq<Arg>)
    requires marks != []
    ensures StarArgs(marks) + args == OwnArgs(marks[0]) + (StarArgs(marks[1..]) + args)
  {
  }

  /** Marks in front of the rest of an escape are scanned as the fields they stand for. */
  lemma {:induction false} ScanMarks(marks: seq<Mark>, t: CString, fmt: CString, f: Fields, args: seq<Arg>)
    requires Readable(marks) && Apart(t) && fmt == Source(marks) + t
    ensures Scan(fmt, 0, f, StarArgs(marks) + args) == Moved(Scan(t, 0, FieldsOf(marks, f), args), |Source(marks)|)
    decreases |marks|
  {
    if marks == [] {
      assert [] + args == args && fmt == t;
    } else {
      var m, rest := marks[0], marks[1..];
      SourceIsPlain(rest);
      var after: CString := Source(rest) + t;
      FirstOfSource(marks, t);
      FirstOfArgs(marks, args);
      if m.Number? { NoDigitNext(rest, t); }
      MarkThen(m, after, fmt, f, StarArgs(rest) + args);
      ScanMarks(rest, t, after, Marked(f, m), args);
      MovedTwice(Scan(t, 0, FieldsOf(rest, Marked(f, m)), args), |Source(rest)|, |MarkText(m)|);
    }
  }

  // ---------- rendering what was written ----------

  /** Characters other than '%' print themselves. */
  lemma {:induction false} PlainThen(fmt: CString, i: nat, j: nat, args: seq<Arg>)
    requires i <= j <= |fmt| && forall k | i <= k < j :: fmt[k] != '%'
    ensures Render(fmt, i, args) == Prepend(fmt[i..j], Render(fmt, j, args))
    decreases j - i
  {
    if i == j {
      PrependNothing(Render(fmt, j, args));
    } else {
      PlainThen(fmt, i + 1, j, args);
      PrependTwice([fmt[i]], fmt[i + 1..j], Render(fmt, j, args));
      assert [fmt[i]] + fmt[i + 1..j] == fmt[i..j];
    }
  }

  lemma EscapeRead(escape: CString, marks: seq<Mark>, c: char, last: CString, args: seq<Arg>)
    requires Readable(marks) && Ends(c) && last != "" && last[0] == c && escape == Source(marks) + last
    ensures Scan(escape, 0, Fresh, StarArgs(marks) + args)
            == Conversion(c, FieldsOf(marks, Fresh), |Source(marks)| + 1, args)
  {
    ScanMarks(marks, last, escape, Fresh, args);
    ScanEnd(last, 0, FieldsOf(marks, Fresh), args);
    ConversionMoved(c, FieldsOf(marks, Fresh), 1, |Source(marks)| + 1, args);
  }

  lemma EscapeScanned(fmt: CString, marks: seq<Mark>, c: char, t: CString, args: seq<Arg>)
    requires Readable(marks) && Ends(c) && fmt == "%" + Source(marks) + [c] + t
    ensures Scan(fmt, 1, Fresh, StarArgs(marks) + args)
            == Conversion(c, FieldsOf(marks, Fresh), |Source(marks)| + 2, args)
  {
    SourceIsPlain(marks);
    var escape: CString := Source(marks) + ([c] + t);
    EscapeRead(escape, marks, c, [c] + t, args);
    assert fmt == "%" + escape;
    ScanAfter("%", escape, fmt, Fresh, StarArgs(marks) + args);
    ConversionMoved(c, FieldsOf(marks, Fresh), |Source(marks)| + 1, |Source(marks)| + 2, args);
  }

  lemma ArgsInFront(p: Piece, args: seq<Arg>)
    requires p.Convert?
    ensures ArgsOf(p) + args == StarArgs(p.marks) + ([p.arg] + args)
  {
  }

  /** A conversion in front of a format prints its text and takes its arguments. */
  lemma ConvertThen(p: Piece, t: CString, args: seq<Arg>)
    requires Legal(p) && p.Convert? && NUL !in Written(p)
    ensures Render(Written(p) + t, 0, ArgsOf(p) + args) == Prepend(Printed(p), Render(t, 0, args))
  {
    var fmt: CString := Written(p) + t;
    EscapeScanned(fmt, p.marks, p.c, t, [p.arg] + args);
    ArgsInFront(p, args);
    ConversionText(p, |Written(p)|, args);
    RenderAfter(Written(p), t, fmt, args);
  }

  lemma ConversionText(p: Piece, j: nat, args: seq<Arg>)
    requires Legal(p) && p.Convert?
    ensures Conversion(p.c, FieldsOf(p.marks, Fresh), j, [p.arg] + args) == Text(Printed(p), j, args)
  {
    assert ([p.arg] + args)[1..] == args;
  }

  /** An escape whose conversion takes no argument, known or not: arguments of stars are taken all the same. */
  lemma BareThen(p: Piece, t: CString, args: seq<Arg>)
    requires Legal(p) && p.Bare? && NUL !in Written(p)
    ensures Render(Written(p) + t, 0, ArgsOf(p) + args) == Prepend(Printed(p), Render(t, 0, args))
  {
    var fmt: CString := Written(p) + t;
    EscapeScanned(fmt, p.marks, p.c, t, args);
    RenderAfter(Written(p), t, fmt, args);
    if p.c != 'f' && p.c != '%' { UnknownThen(p, fmt, t, ArgsOf(p) + args, args); }
  }

  lemma UnknownThen(p: Piece, fmt: CString, t: CString, all: seq<Arg>, args: seq<Arg>)
    requires Legal(p) && p.Bare? && p.c != '%' && fmt == Written(p) + t && Scan(fmt, 1, Fresh, all) == Bad(args)
    ensures Render(fmt, 0, all) == Prepend(Written(p), Render(fmt, |Written(p)|, args))
  {
    SourceIsPlain(p.marks);
    assert fmt[..|Written(p)|] == Written(p);
    assert forall k | 1 <= k < |Written(p)| :: fmt[k] == (Source(p.marks) + [p.c])[k - 1];
    UnknownPrints(fmt, |Written(p)|, all, args);
  }

  /** An escape that is none: its '%' and then the characters after it print themselves. */
  lemma UnknownPrints(fmt: CString, j: nat, all: seq<Arg>, args: seq<Arg>)
    requires 1 <= j <= |fmt| && fmt[0] == '%' && Scan(fmt, 1, Fresh, all) == Bad(args)
    requires forall k | 1 <= k < j :: fmt[k] != '%'
    ensures Render(fmt, 0, all) == Prepend(fmt[..j], Render(fmt, j, args))
  {
    PlainThen(fmt, 1, j, args);
    PrependTwice("%", fmt[1..j], Render(fmt, j, args));
    assert "%" + fmt[1..j] == fmt[..j];
  }

  /** A piece in front of a format. */
  lemma PieceThen(p: Piece, t: CString, args: seq<Arg>)
    requires Legal(p) && NUL !in Written(p)
    ensures Render(Written(p) + t, 0, ArgsOf(p) + args) == Prepend(Printed(p), Render(t, 0, args))
  {
    match p
    case Literal(s) =>
      assert [] + args == args;
      QuoteThen(s, t, args);
    case Convert(_, _, _) => ConvertThen(p, t, args);
    case Bare(_, _) => BareThen(p, t, args);
  }

  lemma WrittenIsString(p: Piece)
    requires Legal(p)
    ensures NUL !in Written(p)
  {
    if !p.Literal? { SourceIsPlain(p.marks); }
  }

  lemma FirstOfArguments(ps: seq<Piece>, more: seq<Arg>)
    requires ps != []
    ensures Arguments(ps) + more == ArgsOf(ps[0]) + (Arguments(ps[1..]) + more)
  {
  }

  /** Pieces in front of a format. */
  lemma {:induction false} PiecesThen(ps: seq<Piece>, t: CString, args: seq<Arg>)
    requires AllLegal(ps)
    ensures Render(Format(ps) + t, 0, Arguments(ps) + args) == Prepend(Texts(ps), Render(t, 0, args))
    decreases |ps|
  {
    if ps == [] {
      assert Format(ps) + t == t && Arguments(ps) + args == args;
      PrependNothing(Render(t, 0, args));
    } else {
      var rest: CString := Format(ps[1..]) + t;
      PiecesThen(ps[1..], t, args);
      WrittenIsString(ps[0]);
      FirstOfArguments(ps, args);
      assert Format(ps) + t == Written(ps[0]) + rest;
      PieceThen(ps[0], rest, Arguments(ps[1..]) + args);
      PrependTwice(Printed(ps[0]), Texts(ps[1..]), Render(t, 0, args));
    }
  }

  /** The law: a format of pieces, with the arguments of its pieces and any more, prints the texts of its pieces. */
  lemma PiecesPrint(ps: seq<Piece>, more: seq<Arg>)
    requires AllLegal(ps)
    ensures Render(Format(ps), 0, Arguments(ps) + more) == Done(Texts(ps))
  {
    PiecesThen(ps, "", more);
    assert Format(ps) + "" == Format(ps) && Texts(ps) + "" == Texts(ps);
  }

  /** An escape that the format ends in the middle of prints itself. */
  lemma CutOff(marks: seq<Mark>, args: seq<Arg>)
    requires Readable(marks)
    ensures NUL !in "%" + Source(marks)
    ensures Render("%" + Source(marks), 0, StarArgs(marks) + args) == Done("%" + Source(marks))
  {
    SourceIsPlain(marks);
    var fmt: CString, escape: CString := "%" + Source(marks), Source(marks);
    assert Source(marks) + "" == escape;
    ScanMarks(marks, "", escape, Fresh, args);
    ScanAfter("%", escape, fmt, Fresh, StarArgs(marks) + args);
    UnknownPrints(fmt, |fmt|, StarArgs(marks) + args, args);
    assert fmt + "" == fmt && fmt[..|fmt|] == fmt;
  }

  /** Pieces and then such an escape, a lone '%' if there are no marks. */
  lemma CutOffPrints(ps: seq<Piece>, marks: seq<Mark>, args: seq<Arg>)
    requires AllLegal(ps) && Readable(marks)
    ensures NUL !in "%" + Source(marks)
    ensures Render(Format(ps) + ("%" + Source(marks)), 0, Arguments(ps) + (StarArgs(marks) + args))
            == Done(Texts(ps) + ("%" + Source(marks)))
  {
    CutOff(marks, args);
    PiecesThen(ps, "%" + Source(marks), StarArgs(marks) + args);
  }

  /** The format prints out, and takes the arguments. */
  ghost predicate Prints(fmt: string, args: seq<Arg>, out: string) {
    NUL !in fmt && Render(fmt, 0, args) == Done(out)
  }

  /** One piece alone. */
  lemma OnePiece(p: Piece)
    requires Legal(p)
    ensures Prints(Written(p), ArgsOf(p), Printed(p))
  {
    WrittenIsString(p);
    PieceThen(p, "", []);
    assert Written(p) + "" == Written(p) && ArgsOf(p) + [] == ArgsOf(p) && Printed(p) + "" == Printed(p);
  }
}
