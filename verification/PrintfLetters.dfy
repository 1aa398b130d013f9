/** What every conversion letter prints, said of the text alone: it reads back as the word, in the base and case of
    the letter and the field of the directive. Nothing here names the printers' own tables. */
module PrintfLetters {
  import opened Words
  import opened Digits
  import opened PrintfSpec
  import opened PrintfTheorems
  import opened PrintfFormats

  // ---------------------------------------------------------------- what the letters mean

  predicate NoneBetween(text: string, lo: char, hi: char) {
    forall i :: 0 <= i < |text| ==> !(lo <= text[i] <= hi)
  }

  /** The text is the word as a number: d and i take it as a two's-complement number, the others as it is. */
  ghost predicate Shows(letter: char, v: u32, text: string) {
    match letter
    case 'u' => ReadInteger(text, 10) == Some(v) && NoneBetween(text, '-', '-')
    case 'o' => ReadInteger(text, 8) == Some(v) && NoneBetween(text, '-', '-')
    case 'x' => ReadInteger(text, 16) == Some(v) && NoneBetween(text, '-', '-') && NoneBetween(text, 'A', 'F')
    case 'X' => ReadInteger(text, 16) == Some(v) && NoneBetween(text, '-', '-') && NoneBetween(text, 'a', 'f')
    case _ =>
      if v >= 0x8000_0000 then ReadInteger(text, 10) == Some(v - 0x1_0000_0000)
      else ReadInteger(text, 10) == Some(v) && NoneBetween(text, '-', '-')
  }

  /** The digits of a number without its fill and sign have no superfluous zero in front. */
  predicate Shortest(text: string) {
    var u := SkipSpaces(text);
    var digits := if u != "" && u[0] == '-' then u[1..] else u;
    |digits| > 1 ==> digits[0] != '0'
  }

  /** The text fills a field of the width: with zeros behind the sign if the zero flag is given, else with spaces in
      front, and not at all if it is wider by itself. */
  ghost predicate Fills(text: string, zero: bool, width: int) {
    && |text| >= width
    && (zero ==> NoneBetween(text, ' ', ' '))
    && (!zero || |text| > width ==> Shortest(text))
    && (|text| > width ==> NoneBetween(text, ' ', ' '))
  }

  /** The text is "s" behind as many spaces as the width asks for. */
  ghost predicate Padded(text: string, s: string, width: int) {
    && |text| == (if width > |s| then width else |s|)
    && text[|text| - |s|..] == s
    && forall i :: 0 <= i < |text| - |s| ==> text[i] == ' '
  }

  /** What a directive prints of its argument. */
  ghost predicate Prints(d: Directive, args: seq<Arg>, text: string)
    requires Supplied(d, args)
  {
    match d
    case Literal(c) => text == [c]
    case Field(zero, width, _, _, letter) =>
      if letter == 's' then Padded(text, args[0].s, WidthOf(width))
      else if letter == 'c' then Padded(text, [(args[0].v % 256) as char], WidthOf(width))
      else Shows(letter, args[0].v, text) && Fills(text, zero, WidthOf(width))
  }

  // ---------------------------------------------------------------- integer fields

  lemma DigitCase(d: nat, upper: bool)
    requires d < 16
    ensures var c := DigitChar(d, upper);
            && c != '-' && c != ' '
            && (upper ==> !('a' <= c <= 'f')) && (!upper ==> !('A' <= c <= 'F'))
            && (c == '0' <==> d == 0)
  {
  }

  /** The characters of an integer field. */
  lemma FieldChars(f: Format, v: u32, i: nat)
    requires ValidBase(f.base) && i < |IntegerText(f, v)|
    ensures var c := IntegerText(f, v)[i];
            && (c == '-' ==> Meaning(f, v) < 0)
            && (f.upper ==> !('a' <= c <= 'f')) && (!f.upper ==> !('A' <= c <= 'F'))
            && (f.leadingZero || |IntegerText(f, v)| > f.before ==> c != ' ')
  {
    hide Repeat, Canonical, DigitChar, Meaning, Magnitude;
    var ds := Canonical(Magnitude(f, v), f.base);
    var k := i as int - (|IntegerText(f, v)| - |ds|);
    if k >= 0 {
      DigitCase(ds[k], f.upper);
      assert IntegerText(f, v)[i] == DigitChar(ds[k], f.upper);
    }
  }

  lemma ShortestIs(fill: int, sign: string, t: string)
    requires t != "" && t[0] != ' ' && t[0] != '-' && (|t| > 1 ==> t[0] != '0') && (sign == "" || sign == "-")
    ensures Shortest(Repeat(' ', fill) + (sign + t))
  {
    hide SkipSpaces, Repeat;
    SkipFill(fill, sign + t);
    assert sign == "-" ==> (sign + t)[1..] == t;
  }

  /** What stands in a field that is not filled with zeros: spaces, the sign, the digits. */
  lemma FieldSplits(f: Format, v: u32, t: string) returns (fill: int, sign: string)
    requires ValidBase(f.base) && (!f.leadingZero || |IntegerText(f, v)| > f.before)
    requires t == Text(Canonical(Magnitude(f, v), f.base), f.upper)
    ensures IntegerText(f, v) == Repeat(' ', fill) + (sign + t) && (sign == "" || sign == "-")
  {
    hide Canonical, Magnitude, Meaning, Text;
    sign := if Meaning(f, v) < 0 then "-" else "";
    fill := if f.leadingZero then 0 else f.before - |t| - |sign|;
  }

  lemma FieldIsShortest(f: Format, v: u32)
    requires ValidBase(f.base) && (!f.leadingZero || |IntegerText(f, v)| > f.before)
    ensures Shortest(IntegerText(f, v))
  {
    hide Canonical, Shortest, ReadNat, Magnitude, Meaning, IntegerText;
    var t := Text(Canonical(Magnitude(f, v), f.base), f.upper);
    ReadMagnitude(Magnitude(f, v), f.base, f.upper);
    var fill, sign := FieldSplits(f, v, t);
    ShortestIs(fill, sign, t);
  }

  lemma FieldFills(f: Format, v: u32)
    requires ValidBase(f.base)
    ensures Fills(IntegerText(f, v), f.leadingZero, f.before)
  {
    hide IntegerText, Shortest;
    IntegerWidth(f, v);
    if !f.leadingZero || |IntegerText(f, v)| > f.before {
      FieldIsShortest(f, v);
    }
    forall i | 0 <= i < |IntegerText(f, v)|
      ensures f.leadingZero || |IntegerText(f, v)| > f.before ==> IntegerText(f, v)[i] != ' '
    {
      FieldChars(f, v, i);
    }
  }

  lemma LetterShows(f: Format, letter: char, v: u32)
    requires letter in "diuoxX" && f.base == 10 && f.signed && !f.upper
    ensures Shows(letter, v, IntegerText(IntegerFormat(f, letter).value, v))
  {
    hide IntegerText, ReadInteger;
    var g := IntegerFormat(f, letter).value;
    IntegerRoundTrip(g, v);
    forall i | 0 <= i < |IntegerText(g, v)|
      ensures var c := IntegerText(g, v)[i];
              && (c == '-' ==> Meaning(g, v) < 0)
              && (g.upper ==> !('a' <= c <= 'f')) && (!g.upper ==> !('A' <= c <= 'F'))
    {
      FieldChars(g, v, i);
    }
  }

  // ---------------------------------------------------------------- directives and formats

  /** The arguments a directive leaves. */
  function Left(d: Directive, args: seq<Arg>): seq<Arg>
    requires Supplied(d, args)
  {
    if d.Field? then args[1..] else args
  }

  /** Letter by letter: what a directive prints of its argument, with any flag, width, precision and l. */
  lemma DirectivePrints(d: Directive, args: seq<Arg>)
    requires Written(d) && Supplied(d, args)
    ensures Prints(d, args, Denote(d, args).out) && Denote(d, args).args == Left(d, args)
  {
    hide IntegerText, Shows, Fills, WidthOf;
    if d.Field? && d.letter !in "cs" {
      var g := IntegerFormat(FormatOf(d), d.letter).value;
      LetterShows(FormatOf(d), d.letter, args[0].v);
      FieldFills(g, args[0].v);
    }
  }

  /** Each directive prints its own text, of the arguments the ones before it left. */
  ghost predicate AllPrint(ds: seq<Directive>, args: seq<Arg>, texts: seq<string>)
    requires (forall d :: d in ds ==> Written(d)) && AllSupplied(ds, args)
    decreases |ds|
  {
    && |texts| == |ds|
    && (ds != [] ==>
          && Prints(ds[0], args, texts[0])
          && AllPrint(ds[1..], Denote(ds[0], args).args, texts[1..]))
  }

  function Concat(texts: seq<string>): string {
    if texts == [] then "" else texts[0] + Concat(texts[1..])
  }

  lemma {:induction false} DenotationPrints(ds: seq<Directive>, args: seq<Arg>) returns (texts: seq<string>)
    requires (forall d :: d in ds ==> Written(d)) && AllSupplied(ds, args)
    ensures AllPrint(ds, args, texts) && Concat(texts) == DenoteAll(ds, args).out
    decreases |ds|
  {
    hide Denote, Prints, Written, Supplied;
    if ds == [] {
      texts := [];
    } else {
      assert ds[0] in ds && forall d :: d in ds[1..] ==> d in ds;
      DirectivePrints(ds[0], args);
      var rest := DenotationPrints(ds[1..], Denote(ds[0], args).args);
      texts := [Denote(ds[0], args).out] + rest;
      assert texts[1..] == rest;
    }
  }

  /** The log engine on a whole format: it prints, one after the other, a text for each directive that shows the
      directive's own argument in the base, case and field written there. */
  lemma FormatPrints(args: seq<Arg>, ds: seq<Directive>) returns (n: Machine, texts: seq<string>)
    requires (forall d :: d in ds ==> Written(d)) && AllSupplied(ds, args)
    ensures Runs(Initial(args), RenderAll(ds), n) && AllPrint(ds, args, texts) && n.out == Concat(texts)
  {
    hide AllPrint, DenoteAll, AllSupplied, Written, Runs;
    n := FormatDenotes(Initial(args), ds);
    texts := DenotationPrints(ds, args);
  }

  // ---------------------------------------------------------------- the other engine

  /** What the small engine prints for a conversion letter. */
  ghost predicate AltPrints(c: char, args: seq<Arg>, text: string)
    requires AltArgReady(c, args)
  {
    if c == 'x' then Shows('x', args[0].v, text) && Fills(text, false, -1)
    else if c == 'c' then text == [(args[0].v % 256) as char]
    else if c == 's' then text == args[0].s
    else if c == '%' then text == "%"
    else text == ""
  }

  /** The small engine on a percent sign and a letter: the text of the letter, then the rest of the format with the
      arguments that are left; x, c and s take one each, every other letter none. */
  lemma AltLetterPrints(c: char, rest: string, args: seq<Arg>)
    requires AltReady(['%', c] + rest, args)
    ensures AltArgReady(c, args)
    ensures var left := if c in "xcs" then args[1..] else args;
            var p := AltSpec(['%', c] + rest, args);
            && AltReady(rest, left)
            && |p.out| >= |AltSpec(rest, left).out|
            && var k := |p.out| - |AltSpec(rest, left).out|;
            && p == Printed(p.out[..k] + AltSpec(rest, left).out, AltSpec(rest, left).args)
            && AltPrints(c, args, p.out[..k])
  {
    hide Shows, Fills, IntegerText;
    assert (['%', c] + rest)[2..] == rest;
    if c == 'x' {
      var f := PLAIN.(signed := false, base := 16);
      BareHex(args[0].v);
      LetterShows(PLAIN, 'x', args[0].v);
      FieldFills(f, args[0].v);
    }
    var left := if c in "xcs" then args[1..] else args;
    var text := AltConvert(c, args).out;
    assert AltSpec(['%', c] + rest, args) == Before(text, AltSpec(rest, left));
  }

  /** Every other character is printed as it is; a percent sign at the end prints nothing. */
  lemma AltLiteralPrints(c: char, rest: string, args: seq<Arg>)
    requires c != '%' && AltReady([c] + rest, args)
    ensures AltReady(rest, args)
    ensures AltSpec([c] + rest, args) == Printed([c] + AltSpec(rest, args).out, AltSpec(rest, args).args)
    ensures AltReady("%", args) && AltSpec("%", args) == Printed("", args)
  {
    assert ([c] + rest)[1..] == rest;
  }
}
