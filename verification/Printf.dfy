/** The two printf engines as the HAL implements them: loops over the format string that print as they go. */
module Printf {
  import opened Words
  import opened Digits
  import opened Bits
  import opened PrintfSpec

  // ---------------------------------------------------------------- alt_printf

  /** The hexadecimal branch of alt_printf: find the first non-zero nibble, then mask and shift each one out. */
  method PrintHex(v: u32) returns (out: string)
    ensures out == Hex(v)
  {
    hide Quot, Rem, Pow, And, Shl, Shr, Low, Canonical, Text;
    if v == 0 {
      HexZero();
      return "0";
    }
    var shift := 28;
    ghost var k := 7;
    Pow16Eight();
    while And(v, Shl(15, shift)) == 0
      invariant 0 <= k <= 7 && shift == 4 * k && v < Pow(16, k + 1)
      decreases k
    {
      NibbleZero(v, k);
      shift, k := shift - 4, k - 1;
    }
    AllNibbles(v, k);
    out := PrintNibbles(v, shift, k);
  }

  /** Masks and shifts out the nibbles of "v" from the k-th down. */
  method PrintNibbles(v: u32, start: nat, ghost k0: nat) returns (out: string)
    requires k0 <= 7 && start == 4 * k0
    ensures out == Text(Low(Rem(v, Pow(16, k0 + 1)), 16, k0 + 1), false)
  {
    hide Quot, Rem, Pow, And, Shl, Shr, Low, Text;
    var shift: int := start;
    ghost var k: int := k0;
    out := "";
    while shift >= 0
      invariant -1 <= k <= 7 && shift == 4 * k
      invariant out + Text(Low(Rem(v, Pow(16, k + 1)), 16, k + 1), false)
             == Text(Low(Rem(v, Pow(16, k0 + 1)), 16, k0 + 1), false)
      decreases k
    {
      MaskedNibble(v, k);
      var digit := Shr(And(v, Shl(15, shift)), shift);
      NextNibble(v, k, digit);
      Emit(out, digit, Low(Rem(v, Pow(16, k)), 16, k), false);
      var c := if digit <= 9 then ('0' as int + digit) as char else ('a' as int + digit - 10) as char;
      out := out + [c];
      shift, k := shift - 4, k - 1;
    }
    LowNone(Rem(v, Pow(16, 0)), 16);
  }

  /** Printing the first of the digits that are left. */
  lemma Emit(out: string, digit: nat, left: seq<nat>, upper: bool)
    requires digit < 16 && forall i :: 0 <= i < |left| ==> left[i] < 16
    ensures (out + [DigitChar(digit, upper)]) + Text(left, upper) == out + Text([digit] + left, upper)
  {
  }

  lemma HexZero()
    ensures Hex(0) == "0"
  {
    assert Canonical(0, 16) == [0];
  }

  lemma LowNone(v: nat, b: nat)
    requires b >= 2
    ensures Low(v, b, 0) == [] && Text([], false) == ""
  {
  }

  /** A zero nibble at the top: the number fits in one nibble less. */
  lemma NibbleZero(v: u32, k: nat)
    requires v != 0 && k <= 7 && v < Pow(16, k + 1) && And(v, Shl(15, 4 * k)) == 0
    ensures v < Pow(16, k) && k > 0
  {
    hide Quot, Rem, And, Shl, Shr;
    TopNibble(v, k);
    ShrZero(4 * k);
    QuotRem(v, Pow(16, k));
  }

  lemma ShrZero(s: nat)
    ensures Shr(0, s) == 0
  {
    Unique(0, Pow(2, s), 0, 0);
  }

  /** The top nibble of a number of at most k + 1 nibbles is its quotient by 16^k. */
  lemma TopNibble(v: u32, k: nat)
    requires k <= 7 && v < Pow(16, k + 1)
    ensures var masked := And(v, Shl(15, 4 * k));
            masked < W32 && Shr(masked, 4 * k) == Quot(v, Pow(16, k)) < 16
  {
    hide Quot, Rem, And, Shl, Shr;
    MaskedNibble(v, k);
    PowStep(16, k + 1);
    QuotBound(v, Pow(16, k), 16);
    QuotRem(Quot(v, Pow(16, k)), 16);
  }

  /** Once the top nibble is found, the nibbles from there down are the canonical digits. */
  lemma AllNibbles(v: u32, k: nat)
    requires v != 0 && k <= 7 && v < Pow(16, k + 1) && And(v, Shl(15, 4 * k)) != 0
    ensures Low(Rem(v, Pow(16, k + 1)), 16, k + 1) == Canonical(v, 16)
  {
    hide Quot, Rem, And, Shl, Shr;
    QuotRem(v, Pow(16, k + 1));
    if v < Pow(16, k) {
      MaskBelow(v, k);
    }
    LowIsCanonical(v, 16, k);
  }

  lemma MaskBelow(v: u32, k: nat)
    requires k <= 7 && v < Pow(16, k)
    ensures And(v, Shl(15, 4 * k)) == 0
  {
    hide Quot, Rem, And;
    Pow16(k);
    Pow16Eight();
    PowMono(16, k + 1, 8);
    PowStep(16, k + 1);
    AndNibble(v, 4 * k);
    QuotRem(v, Pow(16, k));
    QuotRem(0, 16);
  }

  /** Shifting out nibble k leaves the lower ones. */
  lemma NextNibble(v: u32, k: nat, digit: nat)
    requires k <= 7 && digit == Rem(Quot(v, Pow(16, k)), 16)
    ensures digit < 16
    ensures Low(Rem(v, Pow(16, k + 1)), 16, k + 1) == [digit] + Low(Rem(v, Pow(16, k)), 16, k)
  {
    hide Quot, Rem, Low;
    QuotRem(Quot(v, Pow(16, k)), 16);
    QuotRem(v, Pow(16, k + 1));
    PowStep(16, k + 1);
    LeadingDigit(Rem(v, Pow(16, k + 1)), 16, k);
    Nest(v, Pow(16, k), 16, Pow(16, k + 1));
  }

  /** The conversion character after a '%'. */
  method AltConversion(c: char, args: seq<Arg>) returns (text: string, rest: seq<Arg>)
    requires AltArgReady(c, args)
    ensures Printed(text, rest) == AltConvert(c, args)
  {
    hide Hex;
    text, rest := "", args;
    if c == '%' {
      text := [c];
    } else if c == 'c' {
      text, rest := [LowByte(rest[0].v)], rest[1..];
    } else if c == 'x' {
      text := PrintHex(rest[0].v);
      rest := rest[1..];
    } else if c == 's' {
      text, rest := rest[0].s, rest[1..];
    }
  }

  /** alt_printf. */
  method AltPrintf(fmt: CString, args: seq<Arg>) returns (out: string, rest: seq<Arg>)
    requires AltReady(fmt, args)
    ensures Printed(out, rest) == AltSpec(fmt, args)
  {
    hide AltConvert, AltArgReady;
    out, rest := "", args;
    var w := 0;
    ghost var tail := fmt;
    while w < |fmt|
      invariant 0 <= w <= |fmt| && tail == fmt[w..]
      invariant AltReady(tail, rest)
      invariant AltSpec(fmt, args) == Before(out, AltSpec(tail, rest))
      decreases |fmt| - w
    {
      var c := fmt[w];
      w := w + 1;
      if c != '%' {
        out := out + [c];
        tail := tail[1..];
      } else if w < |fmt| {
        c := fmt[w];
        w := w + 1;
        var text;
        text, rest := AltConversion(c, rest);
        out := out + text;
        tail := tail[2..];
      } else {
        break;
      }
    }
  }

  // ---------------------------------------------------------------- alt_log_private_printf

  /** alt_log_repchar. */
  method PrintRepeated(c: char, r: int) returns (out: string)
    ensures out == Repeat(c, r)
  {
    out := "";
    var n := r;
    while n > 0
      invariant n > 0 || n == r || n == 0
      invariant out + Repeat(c, n) == Repeat(c, r)
    {
      out := out + [c];
      n := n - 1;
    }
  }

  /** The doIntegerPrint branch: strip the sign, count the digits and find the largest place value, print
      the fill and the sign, then divide the digits out place by place. "p" is a 32-bit word throughout. */
  method PrintInteger(f: Format, arg: u32) returns (out: string)
    requires ValidBase(f.base)
    ensures out == IntegerText(f, arg)
  {
    hide Canonical, Lead;
    var v: u32 := arg;
    var sign := false;
    if f.signed && v >= W31 {
      v := W32 - v;
      sign := true;
    }
    var p, digitCount := LargestPlace(v, f.base);
    var lead := PrintLead(f.leadingZero, f.before - digitCount, sign);
    var digits := PrintDigits(v, p, f.base, f.upper, digitCount - 1);
    out := lead + digits;
  }

  /** Prints the leading characters and the sign. */
  method PrintLead(leadingZero: bool, room: int, sign: bool) returns (out: string)
    ensures out == Lead(leadingZero, room, if sign then "-" else "")
  {
    var before, fill := room, "";
    if leadingZero {
      out := "";
      if sign {
        out := "-";
        before := before - 1;
      }
      fill := PrintRepeated('0', before);
      out := out + fill;
    } else {
      if sign {
        before := before - 1;
      }
      out := PrintRepeated(' ', before);
      if sign {
        out := out + "-";
      }
    }
  }

  /** Counts the digits of "v" and finds its largest place value. */
  method LargestPlace(v: u32, base: nat) returns (p: u32, digitCount: nat)
    requires ValidBase(base)
    ensures digitCount == |Canonical(v, base)| >= 1
    ensures p == Pow(base, digitCount - 1) && v < Pow(base, digitCount)
    ensures digitCount > 1 ==> p <= v
  {
    hide Quot, Rem, Pow, Canonical, Low;
    var shrink := Quot(v, base);
    p, digitCount := 1, 1;
    PowZero(base);
    Nest1(v, base);
    while shrink > 0
      invariant digitCount >= 1 && p == Pow(base, digitCount - 1)
      invariant shrink == Quot(v, Pow(base, digitCount))
      invariant digitCount > 1 ==> p <= v
      decreases shrink
    {
      PlaceFits(v, base, digitCount);
      p := p * base;
      QuotRem(shrink, base);
      NextPlace(v, base, digitCount);
      shrink := Quot(shrink, base);
      digitCount := digitCount + 1;
    }
    QuotRem(v, Pow(base, digitCount));
    LowIsCanonical(v, base, digitCount - 1);
  }

  lemma Nest1(v: nat, b: nat)
    requires b >= 1
    ensures Quot(v, b) == Quot(v, Pow(b, 1))
  {
    PowStep(b, 1);
    PowZero(b);
  }

  /** Each further division by the base reads the number at the next place. */
  lemma NextPlace(v: nat, b: nat, k: nat)
    requires b >= 1
    ensures Quot(Quot(v, Pow(b, k)), b) == Quot(v, Pow(b, k + 1))
  {
    hide Quot, Rem;
    PowStep(b, k + 1);
    Nest(v, Pow(b, k), b, Pow(b, k + 1));
  }

  /** While digits are left, the next place value does not exceed the number: it fits a word. */
  lemma PlaceFits(v: u32, b: nat, k: nat)
    requires b >= 1 && k >= 1 && Quot(v, Pow(b, k)) > 0
    ensures Pow(b, k - 1) * b == Pow(b, k) <= v
  {
    PowStep(b, k);
    QuotRem(v, Pow(b, k));
  }

  /** Prints the digits of "v" from place value "p0" down. */
  method PrintDigits(v0: u32, p0: u32, base: nat, upper: bool, ghost k: nat) returns (out: string)
    requires ValidBase(base) && p0 == Pow(base, k) && v0 < Pow(base, k + 1)
    requires k > 0 ==> p0 <= v0
    ensures out == Text(Canonical(v0, base), upper)
  {
    hide Quot, Rem, Pow, Canonical, Low, Text;
    var v: nat, p: nat := v0, p0;
    out := "";
    ghost var n: nat := k + 1;
    LowIsCanonical(v0, base, k);
    while p > 0
      invariant p == if n == 0 then 0 else Pow(base, n - 1)
      invariant v < Pow(base, n)
      invariant out + Text(Low(v, base, n), upper) == Text(Canonical(v0, base), upper)
      decreases n
    {
      NextDigit(v, base, n - 1);
      var digit := Quot(v, p);
      EmitDigit(out, v, base, n - 1, upper);
      var c := DigitByte(digit, upper);
      out := out + [c];
      v := Rem(v, p);
      p := Quot(p, base);
      n := n - 1;
    }
    LowNone(v, base);
  }

  lemma EmitDigit(out: string, v: nat, b: nat, k: nat, upper: bool)
    requires ValidBase(b) && v < Pow(b, k + 1)
    ensures Quot(v, Pow(b, k)) < 16
    ensures out + [DigitChar(Quot(v, Pow(b, k)), upper)] + Text(Low(Rem(v, Pow(b, k)), b, k), upper)
         == out + Text(Low(v, b, k + 1), upper)
  {
    hide Quot, Rem, Pow, Low, Text;
    NextDigit(v, b, k);
    Emit(out, Quot(v, Pow(b, k)), Low(Rem(v, Pow(b, k)), b, k), upper);
  }

  method DigitByte(digit: nat, upper: bool) returns (c: char)
    requires digit < 16
    ensures c == DigitChar(digit, upper)
  {
    var d := '0' as int + digit;
    if d > '9' as int {
      d := d + (if upper then 'A' else 'a') as int - '0' as int - 10;
    }
    c := d as char;
  }

  lemma NextDigit(v: nat, b: nat, k: nat)
    requires ValidBase(b) && v < Pow(b, k + 1)
    ensures Quot(v, Pow(b, k)) < b && Rem(v, Pow(b, k)) < Pow(b, k)
    ensures Quot(Pow(b, k), b) == if k == 0 then 0 else Pow(b, k - 1)
    ensures Low(v, b, k + 1) == [Quot(v, Pow(b, k))] + Low(Rem(v, Pow(b, k)), b, k)
  {
    hide Quot, Rem, Low;
    PowStep(b, k + 1);
    QuotRem(v, Pow(b, k));
    QuotBound(v, Pow(b, k), b);
    LeadingDigit(v, b, k);
    if k == 0 {
      QuotRem(1, b);
    } else {
      PowStep(b, k);
      Unique(Pow(b, k), b, Pow(b, k - 1), 0);
    }
  }

  /** alt_log_private_printf. */
  method AltLogPrintf(fmt: CString, args: seq<Arg>) returns (out: string, rest: seq<Arg>)
    requires LogReady(Initial(args), fmt)
    ensures var end := LogRun(Initial(args), fmt); out == end.out && rest == end.args
  {
    hide LogStep, Convert;
    out, rest := "", args;
    var state, f := Chars, PLAIN;
    var w := 0;
    ghost var tail := fmt;
    while w < |fmt|
      invariant 0 <= w <= |fmt| && tail == fmt[w..]
      invariant LogReady(Machine(state, f, out, rest), tail)
      invariant LogRun(Initial(args), fmt) == LogRun(Machine(state, f, out, rest), tail)
      decreases |fmt| - w
    {
      var c := fmt[w];
      w := w + 1;
      state, f, out, rest := LogChar(state, f, out, rest, c);
      tail := tail[1..];
    }
  }

  /** The switch on the machine's state for one format character. */
  method LogChar(state0: Mode, f0: Format, out0: string, args: seq<Arg>, c: char)
    returns (state: Mode, f: Format, out: string, rest: seq<Arg>)
    requires Ready(Machine(state0, f0, out0, args), c)
    ensures Machine(state, f, out, rest) == LogStep(Machine(state0, f0, out0, args), c)
  {
    hide IntegerText, Repeat;
    state, f, out, rest := state0, f0, out0, args;
    var otherFmtChar := false;
    match state {
      case Chars =>
        if c == '%' {
          f := Format(false, false, -1, -1, 10, true, false);
          state := FirstFmtChar;
        } else {
          out := out + [c];
        }
      case FirstFmtChar =>
        if c == '0' {
          f := f.(leadingZero := true);
          state := OtherFmtChar;
        } else if c == '%' {
          out := out + [c];
          state := Chars;
        } else {
          state := OtherFmtChar;
          otherFmtChar := true;
        }
      case OtherFmtChar =>
        otherFmtChar := true;
    }
    if otherFmtChar {
      if c == '.' {
        f := f.(after := 0);
      } else if '0' <= c <= '9' {
        var d := c as int - '0' as int;
        if f.after < 0 {
          var before := if f.before < 0 then 0 else f.before * 10;
          f := f.(before := before + d);
        } else {
          f := f.(after := f.after * 10 + d);
        }
      } else if c == 'l' {
        f := f.(isLong := true);
      } else {
        f, out, rest := LogConvert(f, out, rest, c);
        state := Chars;
      }
    }
  }

  /** The conversion letter. */
  method LogConvert(f0: Format, out0: string, args: seq<Arg>, c: char)
    returns (f: Format, out: string, rest: seq<Arg>)
    requires var m := Machine(OtherFmtChar, f0, out0, args); Converts(m, c) && Ready(m, c)
    ensures Machine(Chars, f, out, rest) == Convert(Machine(OtherFmtChar, f0, out0, args), c)
  {
    hide IntegerText, Repeat;
    f, out, rest := f0, out0, args;
    var integer := true;
    match c {
      case 'd' =>
      case 'i' =>
      case 'u' =>
        f := f.(signed := false);
      case 'o' =>
        f := f.(signed := false, base := 8);
      case 'x' =>
        f := f.(signed := false, base := 16);
      case 'X' =>
        f := f.(signed := false, base := 16, upper := true);
      case _ =>
        integer := false;
    }
    if integer {
      var text := PrintInteger(f, rest[0].v);
      out, rest := out + text, rest[1..];
    } else if c == 'c' {
      var fill := PrintRepeated(' ', f.before - 1);
      out, rest := out + fill + [LowByte(rest[0].v)], rest[1..];
    } else if c == 's' {
      var fill := PrintRepeated(' ', f.before - |rest[0].s|);
      out, rest := out + fill + rest[0].s, rest[1..];
    }
  }
}
