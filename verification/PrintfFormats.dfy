/** What a format string denotes for the log engine: directives with their flags and widths, one by one. */
module PrintfFormats {
  import opened Words
  import opened PrintfSpec
  import opened PrintfTheorems

  /** A character to print, or a conversion: an optional zero flag, the digits of a width or none, a point and the
      digits of a precision or none, an optional l, and a letter. */
  datatype Directive =
    Literal(c: char) | Field(zero: bool, width: string, precision: Option<string>, isLong: bool, letter: char)

  predicate AllDigits(s: string) {
    forall i :: 0 <= i < |s| ==> IsDigit(s[i])
  }

  /** Without the zero flag a width does not start with a zero: that would be the flag. */
  predicate Written(d: Directive) {
    d.Field? ==>
      && AllDigits(d.width)
      && (d.precision.Some? ==> AllDigits(d.precision.value))
      && (!d.zero && d.width != "" ==> d.width[0] != '0')
      && d.letter in "diuoxXcs"
  }

  function Render(d: Directive): string {
    match d
    case Literal(c) => if c == '%' then "%%" else [c]
    case Field(zero, width, precision, isLong, letter) =>
      "%" + (if zero then "0" else "") + width + Point(precision) + (if isLong then "l" else "") + [letter]
  }

  function Point(precision: Option<string>): string {
    match precision case Some(digits) => "." + digits case None => ""
  }

  function RenderAll(ds: seq<Directive>): string {
    if ds == [] then "" else Render(ds[0]) + RenderAll(ds[1..])
  }

  /** The width as a number: the decimal value of its digits, -1 if there are none. */
  function WidthOf(width: string): int {
    if width == "" then -1 else match ReadNat(width, 10) case Some(n) => n case None => -1
  }

  /** The precision as a number; the engine reads it and then ignores it. */
  function PrecisionOf(precision: Option<string>): int {
    match precision
    case Some(digits) => if digits == "" then 0 else WidthOf(digits)
    case None => -1
  }

  function FormatOf(d: Directive): Format
    requires d.Field?
  {
    PLAIN.(leadingZero := d.zero, before := WidthOf(d.width), after := PrecisionOf(d.precision), isLong := d.isLong)
  }

  /** The directive finds an argument of its kind. */
  predicate Supplied(d: Directive, args: seq<Arg>) {
    d.Field? ==> args != [] && (if d.letter == 's' then args[0].Str? else args[0].Word?)
  }

  /** What one directive prints, and the arguments it leaves. */
  function Denote(d: Directive, args: seq<Arg>): Printed
    requires Written(d) && Supplied(d, args)
  {
    match d
    case Literal(c) => Printed([c], args)
    case Field(_, width, _, _, letter) =>
      if letter == 's' then Printed(Repeat(' ', WidthOf(width) - |args[0].s|) + args[0].s, args[1..])
      else if letter == 'c' then Printed(Repeat(' ', WidthOf(width) - 1) + [LowByte(args[0].v)], args[1..])
      else Printed(IntegerText(IntegerFormat(FormatOf(d), letter).value, args[0].v), args[1..])
  }

  ghost predicate AllSupplied(ds: seq<Directive>, args: seq<Arg>)
    requires forall d :: d in ds ==> Written(d)
    decreases |ds|
  {
    ds != [] ==> Supplied(ds[0], args) && AllSupplied(ds[1..], Denote(ds[0], args).args)
  }

  /** The fields of all directives joined, and the arguments left. */
  function DenoteAll(ds: seq<Directive>, args: seq<Arg>): Printed
    requires (forall d :: d in ds ==> Written(d)) && AllSupplied(ds, args)
    decreases |ds|
  {
    if ds == [] then Printed("", args)
    else
      var p := Denote(ds[0], args);
      Before(p.out, DenoteAll(ds[1..], p.args))
  }

  // ---------------------------------------------------------------- the format machine on a directive

  /** The machine runs through "s" and ends in "n". */
  ghost predicate Runs(m: Machine, s: string, n: Machine) {
    LogReady(m, s) && LogRun(m, s) == n
  }

  lemma {:induction false} RunsJoin(m: Machine, a: string, n: Machine, b: string, o: Machine)
    requires Runs(m, a, n) && Runs(n, b, o)
    ensures Runs(m, a + b, o)
    decreases |a|
  {
    hide LogStep, Ready;
    if a == "" {
      assert a + b == b;
    } else {
      assert (a + b)[0] == a[0] && (a + b)[1..] == a[1..] + b;
      RunsJoin(LogStep(m, a[0]), a[1..], n, b, o);
    }
  }

  lemma RunsOne(m: Machine, c: char)
    requires Ready(m, c)
    ensures Runs(m, [c], LogStep(m, c))
  {
    hide LogStep, Ready;
    assert [c][0] == c && [c][1..] == "";
    assert LogReady(LogStep(m, c), "") && LogRun(LogStep(m, c), "") == LogStep(m, c);
    assert LogReady(m, [c]);
  }

  lemma RunsNone(m: Machine)
    ensures Runs(m, "", m)
  {
  }

  /** The machine before the width: nothing read yet but perhaps the zero flag. */
  function Started(m: Machine, zero: bool): Machine {
    m.(mode := if zero then OtherFmtChar else FirstFmtChar, f := PLAIN.(leadingZero := zero))
  }

  lemma RunsStart(m: Machine, zero: bool)
    requires m.mode == Chars && ValidBase(m.f.base)
    ensures Runs(m, "%" + if zero then "0" else "", Started(m, zero))
  {
    var n := LogStep(m, '%');
    RunsOne(m, '%');
    if zero {
      RunsOne(n, '0');
      RunsJoin(m, "%", n, "0", LogStep(n, '0'));
    } else {
      assert "%" + "" == "%";
    }
  }

  /** The machine after the width: its digits have been added up. */
  function Sized(m: Machine, zero: bool, width: string): Machine {
    if width == "" then Started(m, zero)
    else m.(mode := OtherFmtChar, f := PLAIN.(leadingZero := zero, before := WidthOf(width)))
  }

  lemma {:induction false} WidthReads(width: string)
    requires AllDigits(width)
    ensures ReadNat(width, 10).Some?
  {
    hide ReadNat;
    if width == "" {
      ReadZero(10);
    } else {
      var init, c := width[..|width| - 1], width[|width| - 1];
      WidthReads(init);
      ReadSnoc(init, c, 10);
      assert init + [c] == width;
    }
  }

  lemma {:induction false} RunsWidth(m: Machine, zero: bool, width: string)
    requires AllDigits(width) && (!zero && width != "" ==> width[0] != '0')
    ensures Runs(Started(m, zero), width, Sized(m, zero, width))
    decreases |width|
  {
    hide Started, LogStep, Ready, Runs, WidthOf;
    if width == "" {
      RunsNone(Started(m, zero));
    } else {
      var init, c := width[..|width| - 1], width[|width| - 1];
      RunsWidth(m, zero, init);
      DigitAdds(m, zero, init, c);
      RunsOne(Sized(m, zero, init), c);
      assert init + [c] == width;
      RunsJoin(Started(m, zero), init, Sized(m, zero, init), [c], Sized(m, zero, width));
    }
  }

  /** One more digit of the width. */
  lemma WidthSnoc(init: string, c: char)
    requires AllDigits(init) && IsDigit(c)
    ensures WidthOf(init) >= 0 || init == ""
    ensures WidthOf(init + [c]) == (if init == "" then 0 else WidthOf(init) * 10) + (c as int - '0' as int)
  {
    hide ReadNat;
    WidthReads(init);
    ReadSnoc(init, c, 10);
    if init == "" {
      ReadZero(10);
    }
  }

  lemma DigitAdds(m: Machine, zero: bool, init: string, c: char)
    requires AllDigits(init) && IsDigit(c) && (init == "" && !zero ==> c != '0')
    ensures Ready(Sized(m, zero, init), c) && LogStep(Sized(m, zero, init), c) == Sized(m, zero, init + [c])
  {
    hide ReadNat, WidthOf, AllDigits, Convert;
    WidthSnoc(init, c);
  }

  /** The machine after the precision. */
  function Limited(m: Machine, precision: Option<string>): Machine {
    if precision.None? then m else m.(mode := OtherFmtChar, f := m.f.(after := PrecisionOf(precision)))
  }

  lemma {:induction false} RunsPrecision(m: Machine, digits: string)
    requires m.mode != Chars && ValidBase(m.f.base) && AllDigits(digits)
    ensures Runs(m, "." + digits, Limited(m, Some(digits)))
    decreases |digits|
  {
    hide LogStep, Ready, Runs, PrecisionOf;
    if digits == "" {
      assert "." + digits == ".";
      PointStarts(m);
      RunsOne(m, '.');
    } else {
      var init, c := digits[..|digits| - 1], digits[|digits| - 1];
      RunsPrecision(m, init);
      PrecisionAdds(m, init, c);
      RunsOne(Limited(m, Some(init)), c);
      assert init + [c] == digits && ("." + init) + [c] == "." + digits;
      RunsJoin(m, "." + init, Limited(m, Some(init)), [c], Limited(m, Some(digits)));
    }
  }

  lemma PointStarts(m: Machine)
    requires m.mode != Chars && ValidBase(m.f.base)
    ensures Ready(m, '.') && LogStep(m, '.') == Limited(m, Some(""))
  {
  }

  lemma PrecisionAdds(m: Machine, init: string, c: char)
    requires m.mode != Chars && ValidBase(m.f.base) && AllDigits(init) && IsDigit(c)
    ensures Ready(Limited(m, Some(init)), c) && LogStep(Limited(m, Some(init)), c) == Limited(m, Some(init + [c]))
  {
    hide ReadNat, WidthOf, AllDigits, Convert;
    WidthSnoc(init, c);
  }

  lemma PointRuns(m: Machine, precision: Option<string>)
    requires m.mode != Chars && ValidBase(m.f.base) && (precision.Some? ==> AllDigits(precision.value))
    ensures Runs(m, Point(precision), Limited(m, precision))
  {
    match precision
    case Some(digits) => RunsPrecision(m, digits);
    case None => RunsNone(m);
  }

  /** One directive: the machine is back between conversions and has printed what the directive denotes. */
  lemma DirectiveRuns(m: Machine, d: Directive) returns (n: Machine)
    requires m.mode == Chars && ValidBase(m.f.base) && Written(d) && Supplied(d, m.args)
    ensures Runs(m, Render(d), n) && n.mode == Chars && ValidBase(n.f.base)
    ensures n.out == m.out + Denote(d, m.args).out && n.args == Denote(d, m.args).args
  {
    match d
    case Literal(c) =>
      n := LiteralRuns(m, c);
    case Field(zero, width, precision, isLong, letter) =>
      hide ReadNat, Runs, IntegerText, Limited, Sized, LogStep;
      RunsStart(m, zero);
      RunsWidth(m, zero, width);
      var start, size := "%" + (if zero then "0" else ""), Sized(m, zero, width);
      RunsJoin(m, start, Started(m, zero), width, size);
      SizedFormat(m, d);
      var limit := Limited(size, precision);
      PointRuns(size, precision);
      RunsJoin(m, start + width, size, Point(precision), limit);
      var long := if isLong then LogStep(limit, 'l') else limit;
      LongRuns(limit, isLong);
      RunsJoin(m, start + width + Point(precision), limit, if isLong then "l" else "", long);
      n := LetterRuns(m, d, long);
      RunsJoin(m, start + width + Point(precision) + (if isLong then "l" else ""), long, [letter], n);
  }

  lemma LiteralRuns(m: Machine, c: char) returns (n: Machine)
    requires m.mode == Chars && ValidBase(m.f.base)
    ensures Runs(m, if c == '%' then "%%" else [c], n)
    ensures n.mode == Chars && ValidBase(n.f.base) && n.out == m.out + [c] && n.args == m.args
  {
    n := LogStep(m, c);
    RunsOne(m, c);
    if c == '%' {
      RunsOne(n, c);
      RunsJoin(m, "%", n, "%", LogStep(n, c));
      assert "%" + "%" == "%%";
      n := LogStep(n, c);
    }
  }

  lemma LongRuns(m: Machine, isLong: bool)
    requires m.mode != Chars && ValidBase(m.f.base)
    ensures Runs(m, if isLong then "l" else "", if isLong then LogStep(m, 'l') else m)
  {
    if isLong {
      RunsOne(m, 'l');
    } else {
      RunsNone(m);
    }
  }

  /** The machine that is about to read the letter has the directive's format. */
  lemma SizedFormat(m: Machine, d: Directive)
    requires d.Field? && Written(d)
    ensures var size := Sized(m, d.zero, d.width);
            var limit := Limited(size, d.precision);
            var long := if d.isLong then LogStep(limit, 'l') else limit;
            && size.mode != Chars && ValidBase(size.f.base) && limit.mode != Chars && ValidBase(limit.f.base)
            && (d.isLong ==> Ready(limit, 'l'))
            && long == m.(mode := long.mode, f := FormatOf(d))
            && Converts(long, d.letter)
  {
    hide ReadNat;
  }

  lemma LetterRuns(m: Machine, d: Directive, long: Machine) returns (n: Machine)
    requires d.Field? && Written(d) && Supplied(d, m.args)
    requires long == m.(mode := long.mode, f := FormatOf(d)) && Converts(long, d.letter)
    ensures Runs(long, [d.letter], n) && n.mode == Chars && ValidBase(n.f.base)
    ensures n.out == m.out + Denote(d, m.args).out && n.args == Denote(d, m.args).args
  {
    hide ReadNat, Runs, IntegerText, Repeat, WidthOf;
    assert Ready(long, d.letter);
    RunsOne(long, d.letter);
    n := LogStep(long, d.letter);
  }

  /** For every list of directives and fitting arguments the log engine prints the directives' fields one after
      the other and consumes their arguments: each width is the decimal value written, each zero flag fills with
      zeros, and no directive disturbs the next. */
  lemma {:induction false} FormatDenotes(m: Machine, ds: seq<Directive>) returns (n: Machine)
    requires m.mode == Chars && ValidBase(m.f.base)
    requires (forall d :: d in ds ==> Written(d)) && AllSupplied(ds, m.args)
    ensures Runs(m, RenderAll(ds), n)
    ensures n.mode == Chars && ValidBase(n.f.base)
    ensures var p := DenoteAll(ds, m.args); n.out == m.out + p.out && n.args == p.args
    decreases |ds|
  {
    hide LogReady, LogRun, Render, Denote, Written, Supplied, Runs;
    if ds == [] {
      n := m;
      RunsNone(m);
    } else {
      assert ds[0] in ds && forall d :: d in ds[1..] ==> d in ds;
      var k := DirectiveRuns(m, ds[0]);
      n := FormatDenotes(k, ds[1..]);
      assert m.out + Denote(ds[0], m.args).out + DenoteAll(ds[1..], k.args).out
          == m.out + (Denote(ds[0], m.args).out + DenoteAll(ds[1..], k.args).out);
      RunsJoin(m, Render(ds[0]), k, RenderAll(ds[1..]), n);
    }
  }
}
