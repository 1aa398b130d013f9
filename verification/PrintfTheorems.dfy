/** What the printf engines are for: numbers can be read back, fields have the asked width, and the two
    engines print the same text for the formats they share. */
module PrintfTheorems {
  import opened Words
  import opened Digits
  import opened PrintfSpec

  // ---------------------------------------------------------------- reading a number back

  /** A reader that knows nothing of the printers. */
  function DigitValue(c: char): Option<nat> {
    if '0' <= c <= '9' then Some(c as int - '0' as int)
    else if 'a' <= c <= 'f' then Some(c as int - 'a' as int + 10)
    else if 'A' <= c <= 'F' then Some(c as int - 'A' as int + 10)
    else None
  }

  /** One more digit behind a number. */
  function Extend(n: Option<nat>, c: char, b: nat): Option<nat> {
    match (n, DigitValue(c))
    case (Some(n), Some(d)) => if d < b then Some(n * b + d) else None
    case _ => None
  }

  function ReadNat(t: string, b: nat): Option<nat> {
    if t == "" then Some(0) else Extend(ReadNat(t[..|t| - 1], b), t[|t| - 1], b)
  }

  lemma ReadSnoc(u: string, c: char, b: nat)
    ensures ReadNat(u + [c], b) == Extend(ReadNat(u, b), c, b)
  {
    hide Extend;
    assert (u + [c])[..|u|] == u;
  }

  function SkipSpaces(t: string): string {
    if t != "" && t[0] == ' ' then SkipSpaces(t[1..]) else t
  }

  function ReadInteger(t: string, b: nat): Option<int> {
    var u := SkipSpaces(t);
    if u == "" then None else ReadSigned(u, b)
  }

  function Signed(negative: bool, n: nat): int {
    var m: int := n;
    if negative then -m else m
  }

  function ReadSigned(u: string, b: nat): Option<int>
    requires u != ""
  {
    var negative := u[0] == '-';
    match ReadNat(if negative then u[1..] else u, b)
    case Some(n) => Some(Signed(negative, n))
    case None => None
  }

  lemma {:induction false} ReadText(ds: seq<nat>, b: nat, upper: bool)
    requires 2 <= b <= 16 && forall i :: 0 <= i < |ds| ==> ds[i] < b
    ensures ReadNat(Text(ds, upper), b) == Some(Value(ds, b))
  {
    hide ReadNat, Value, Text;
    if ds == [] {
      ReadNothing(b, upper);
    } else {
      var init, last := ds[..|ds| - 1], ds[|ds| - 1];
      ReadText(init, b, upper);
      TextSnoc(init, last, upper);
      ReadSnoc(Text(init, upper), DigitChar(last, upper), b);
      ValueSnoc(init, last, b);
      assert init + [last] == ds;
    }
  }

  lemma ReadNothing(b: nat, upper: bool)
    ensures Text([], upper) == "" && ReadNat("", b) == Some(Value([], b))
  {
  }

  lemma TextSnoc(ds: seq<nat>, d: nat, upper: bool)
    requires d < 16 && forall i :: 0 <= i < |ds| ==> ds[i] < 16
    ensures Text(ds + [d], upper) == Text(ds, upper) + [DigitChar(d, upper)]
  {
    hide DigitChar;
  }

  lemma {:induction false} ReadZeros(n: int, t: string, b: nat)
    requires b >= 2
    ensures ReadNat(Repeat('0', n) + t, b) == ReadNat(t, b)
    decreases |t|, n
  {
    hide Repeat, ReadNat, Extend;
    var zeros := Repeat('0', n);
    if t != "" {
      var u, c := t[..|t| - 1], t[|t| - 1];
      ReadZeros(n, u, b);
      ReadSnoc(zeros + u, c, b);
      ReadSnoc(u, c, b);
      assert u + [c] == t && (zeros + u) + [c] == zeros + t;
    } else {
      assert zeros + t == zeros;
      if n > 0 {
        ReadZeros(n - 1, t, b);
        assert Repeat('0', n - 1) + t == Repeat('0', n - 1);
        RepeatSnoc('0', n);
        ReadSnoc(Repeat('0', n - 1), '0', b);
        ReadZero(b);
      }
    }
  }

  lemma ReadZero(b: nat)
    requires b >= 2
    ensures ReadNat("", b) == Some(0) && Extend(Some(0), '0', b) == Some(0)
  {
  }

  lemma RepeatSnoc(c: char, n: int)
    requires n > 0
    ensures Repeat(c, n) == Repeat(c, n - 1) + [c]
  {
  }

  lemma {:induction false} SkipFill(n: int, t: string)
    requires t != "" && t[0] != ' '
    ensures SkipSpaces(Repeat(' ', n) + t) == t
  {
    if n > 0 {
      SkipFill(n - 1, t);
      assert (Repeat(' ', n) + t)[1..] == Repeat(' ', n - 1) + t;
    } else {
      assert Repeat(' ', n) + t == t;
    }
  }

  lemma DigitCharIsDigit(d: nat, upper: bool)
    requires d < 16
    ensures var c := DigitChar(d, upper); DigitValue(c) == Some(d) && c != ' ' && c != '-'
  {
  }

  /** The printed digits alone read back as the magnitude. */
  lemma ReadMagnitude(v: nat, b: nat, upper: bool)
    requires 2 <= b <= 16
    ensures var t := Text(Canonical(v, b), upper);
            && ReadNat(t, b) == Some(v)
            && t != "" && t[0] != ' ' && t[0] != '-'
            && (|t| > 1 ==> t[0] != '0')
  {
    var ds := Canonical(v, b);
    ReadText(ds, b, upper);
    ValueOfCanonical(v, b);
    DigitCharIsDigit(ds[0], upper);
  }

  /** A sign in front of something readable. */
  lemma ReadSign(negative: bool, u: string, b: nat, n: nat)
    requires u != "" && u[0] != ' ' && u[0] != '-' && ReadNat(u, b) == Some(n)
    ensures var t := (if negative then "-" else "") + u;
            t[0] != ' ' && ReadSigned(t, b) == Some(Signed(negative, n))
  {
    hide ReadNat;
    assert ("-" + u)[1..] == u && "" + u == u;
  }

  lemma ReadZeroFilled(negative: bool, fill: int, t: string, b: nat, n: nat)
    requires b >= 2 && t != "" && t[0] != ' ' && t[0] != '-' && ReadNat(t, b) == Some(n)
    ensures ReadInteger((if negative then "-" else "") + Repeat('0', fill) + t, b) == Some(Signed(negative, n))
  {
    hide ReadNat, ReadSigned, Repeat;
    ReadZeros(fill, t, b);
    var u, sign := Repeat('0', fill) + t, if negative then "-" else "";
    assert u[0] == if fill > 0 then '0' else t[0];
    ReadSign(negative, u, b, n);
    assert sign + Repeat('0', fill) + t == sign + u;
    SkipNothing(sign + u);
  }

  lemma SkipNothing(t: string)
    requires t != "" && t[0] != ' '
    ensures SkipSpaces(t) == t
  {
  }

  lemma ReadSpaceFilled(negative: bool, fill: int, t: string, b: nat, n: nat)
    requires b >= 2 && t != "" && t[0] != ' ' && t[0] != '-' && ReadNat(t, b) == Some(n)
    ensures ReadInteger(Repeat(' ', fill) + (if negative then "-" else "") + t, b) == Some(Signed(negative, n))
  {
    hide ReadNat, ReadSigned, Repeat, SkipSpaces;
    var sign := if negative then "-" else "";
    ReadSign(negative, t, b, n);
    assert Repeat(' ', fill) + sign + t == Repeat(' ', fill) + (sign + t);
    SkipFill(fill, sign + t);
  }

  /** Round trip: whatever the width, the fill, the base, the case and the sign (the least value included),
      the text printed for a word reads back as the number the format takes it for. */
  lemma IntegerRoundTrip(f: Format, v: u32)
    requires ValidBase(f.base)
    ensures ReadInteger(IntegerText(f, v), f.base) == Some(Meaning(f, v))
  {
    hide ReadNat, ReadInteger, SkipSpaces, Canonical, Repeat;
    var t := Text(Canonical(Magnitude(f, v), f.base), f.upper);
    var negative := Meaning(f, v) < 0;
    var fill := f.before - |t| - if negative then 1 else 0;
    ReadMagnitude(Magnitude(f, v), f.base, f.upper);
    if f.leadingZero {
      ReadZeroFilled(negative, fill, t, f.base, Magnitude(f, v));
    } else {
      ReadSpaceFilled(negative, fill, t, f.base, Magnitude(f, v));
    }
  }

  /** The field is as wide as asked, or as wide as the sign and the digits need if that is more; the digits
      have no superfluous zero in front. */
  lemma IntegerWidth(f: Format, v: u32)
    requires ValidBase(f.base)
    ensures var digits := Canonical(Magnitude(f, v), f.base);
            var needed := |digits| + if Meaning(f, v) < 0 then 1 else 0;
            && |IntegerText(f, v)| == (if f.before > needed then f.before else needed)
            && Text(digits, f.upper) == IntegerText(f, v)[|IntegerText(f, v)| - |digits|..]
            && (|digits| > 1 ==> digits[0] != 0)
  {
    hide Canonical, Repeat;
  }

  // ---------------------------------------------------------------- the two engines agree

  /** The formats both engines share: no percent sign is followed by a flag, a width or an integer
      conversion other than x. */
  ghost predicate Common(fmt: string)
    decreases |fmt|
  {
    if |fmt| < 2 then true
    else if fmt[0] != '%' then Common(fmt[1..])
    else !IsDigit(fmt[1]) && fmt[1] !in ".ldiuoX" && Common(fmt[2..])
  }

  /** After a percent sign and one more character of a shared format the log engine has printed what
      alt_printf prints for that conversion. */
  lemma ConversionAgrees(m: Machine, c: char)
    requires m.mode == Chars && AltArgReady(c, m.args) && ValidBase(m.f.base)
    requires !IsDigit(c) && c !in ".ldiuoX"
    ensures Ready(m, '%') && Ready(LogStep(m, '%'), c)
    ensures var n := LogStep(LogStep(m, '%'), c);
            var p := AltConvert(c, m.args);
            && n.mode == Chars && n.out == m.out + p.out && n.args == p.args && ValidBase(n.f.base)
  {
    if c == 'x' {
      BareHex(m.args[0].v);
    }
  }

  /** Without a width the log engine's hexadecimal text has no fill. */
  lemma BareHex(v: u32)
    ensures IntegerText(PLAIN.(signed := false, base := 16), v) == Hex(v)
  {
  }

  /** The two engines agree: for every shared format and fitting arguments the log engine finds its arguments
      too, prints the same characters and consumes the same arguments, although one divides by place values
      and the other masks and shifts. */
  lemma {:induction false} EnginesAgree(fmt: string, m: Machine)
    requires Common(fmt) && AltReady(fmt, m.args) && m.mode == Chars && ValidBase(m.f.base)
    ensures LogReady(m, fmt)
    ensures var end, p := LogRun(m, fmt), AltSpec(fmt, m.args);
            end.out == m.out + p.out && end.args == p.args
    decreases |fmt|
  {
    hide Convert, Modifier, AltConvert;
    if fmt == [] {
    } else if fmt[0] != '%' {
      EnginesAgree(fmt[1..], LogStep(m, fmt[0]));
    } else if |fmt| == 1 {
      assert fmt[1..] == [];
    } else {
      ConversionAgrees(m, fmt[1]);
      assert fmt[1..][0] == fmt[1] && fmt[1..][1..] == fmt[2..];
      EnginesAgree(fmt[2..], LogStep(LogStep(m, '%'), fmt[1]));
    }
  }

  /** Outside the shared formats they differ: for the integer conversions alt_printf does not know, it prints
      nothing and leaves the argument, while the log engine prints the number and consumes it. */
  lemma EnginesDiffer(c: char, v: u32)
    requires c in "diuoX"
    ensures var fmt, args := ['%', c], [Word(v)];
            && AltReady(fmt, args) && AltSpec(fmt, args) == Printed("", args)
            && LogReady(Initial(args), fmt)
            && LogRun(Initial(args), fmt).out != "" && LogRun(Initial(args), fmt).args == []
  {
    hide Canonical;
    var m := Initial([Word(v)]);
    var n := LogStep(m, '%');
    assert ['%', c][1..] == [c] && [c][1..] == [];
    assert Ready(m, '%') && Ready(n, c) && LogReady(LogStep(n, c), []);
    assert LogReady(n, [c]);
    assert LogRun(m, ['%', c]) == LogRun(LogStep(n, c), []) == LogStep(n, c);
    assert ['%', c][2..] == [];
  }
}
