/** What the two printf engines print, as functions of the format string and the argument list. */
module PrintfSpec {
  import opened Words
  import opened Digits

  /** A C string: the terminating NUL is left out, so none can occur inside. */
  type CString = s: string | '\0' !in s

  /** One variable argument: a 32-bit word (int, long and char all travel as one) or a string pointer. */
  datatype Arg = Word(v: u32) | Str(s: CString)

  /** What has been printed and the arguments that are still to be consumed. */
  datatype Printed = Printed(out: string, args: seq<Arg>)

  function DigitChar(d: nat, upper: bool): char
    requires d < 16
  {
    if d <= 9 then ('0' as int + d) as char else ((if upper then 'A' else 'a') as int + d - 10) as char
  }

  function Text(ds: seq<nat>, upper: bool): (t: string)
    requires forall i :: 0 <= i < |ds| ==> ds[i] < 16
    ensures |t| == |ds|
    ensures forall i :: 0 <= i < |ds| ==> t[i] == DigitChar(ds[i], upper)
  {
    seq(|ds|, i requires 0 <= i < |ds| => DigitChar(ds[i], upper))
  }

  /** The character a word prints as: its low byte. */
  function LowByte(v: u32): char {
    (v % 256) as char
  }

  // ---------------------------------------------------------------- alt_printf

  function Hex(v: u32): string {
    Text(Canonical(v, 16), false)
  }

  /** The conversion finds an argument of its kind. */
  predicate AltArgReady(c: char, args: seq<Arg>) {
    && (c == 'c' || c == 'x' ==> args != [] && args[0].Word?)
    && (c == 's' ==> args != [] && args[0].Str?)
  }

  /** One conversion: the text it prints and the arguments it leaves. Other letters are swallowed. */
  function AltConvert(c: char, args: seq<Arg>): Printed
    requires AltArgReady(c, args)
  {
    if c == '%' then Printed("%", args)
    else if c == 'c' then Printed([LowByte(args[0].v)], args[1..])
    else if c == 'x' then Printed(Hex(args[0].v), args[1..])
    else if c == 's' then Printed(args[0].s, args[1..])
    else Printed("", args)
  }

  /** Every conversion of the format finds an argument of its kind. */
  ghost predicate AltReady(fmt: string, args: seq<Arg>)
    decreases |fmt|
  {
    if fmt == [] then true
    else if fmt[0] != '%' then AltReady(fmt[1..], args)
    else |fmt| > 1 ==> AltArgReady(fmt[1], args) && AltReady(fmt[2..], AltConvert(fmt[1], args).args)
  }

  function Before(prefix: string, p: Printed): Printed {
    p.(out := prefix + p.out)
  }

  function AltSpec(fmt: string, args: seq<Arg>): Printed
    requires AltReady(fmt, args)
    decreases |fmt|
  {
    if fmt == [] then Printed("", args)
    else if fmt[0] != '%' then Before([fmt[0]], AltSpec(fmt[1..], args))
    else if |fmt| == 1 then Printed("", args)
    else
      var p := AltConvert(fmt[1], args);
      Before(p.out, AltSpec(fmt[2..], p.args))
  }

  // ---------------------------------------------------------------- alt_log_private_printf

  datatype Mode = Chars | FirstFmtChar | OtherFmtChar

  /** The fmt* variables. */
  datatype Format = Format(leadingZero: bool, isLong: bool, before: int, after: int, base: nat, signed: bool,
                           upper: bool)

  const PLAIN := Format(false, false, -1, -1, 10, true, false)

  function Repeat(c: char, n: int): (t: string)
    ensures |t| == if n > 0 then n else 0
    ensures forall i :: 0 <= i < |t| ==> t[i] == c
  {
    if n <= 0 then "" else [c] + Repeat(c, n - 1)
  }

  /** A word read as the signed or unsigned number the format asks for. */
  function Meaning(f: Format, v: u32): int {
    if f.signed && v >= W31 then v - W32 else v
  }

  function Magnitude(f: Format, v: u32): u32 {
    if f.signed && v >= W31 then W32 - v else v
  }

  predicate ValidBase(base: nat) {
    base == 8 || base == 10 || base == 16
  }

  /** The fill and the sign in front of the digits: zeros go after the sign, spaces before it. */
  function Lead(leadingZero: bool, room: int, sign: string): string {
    var fill := room - |sign|;
    if leadingZero then sign + Repeat('0', fill) else Repeat(' ', fill) + sign
  }

  function IntegerText(f: Format, v: u32): string
    requires ValidBase(f.base)
  {
    var digits := Text(Canonical(Magnitude(f, v), f.base), f.upper);
    var sign := if Meaning(f, v) < 0 then "-" else "";
    Lead(f.leadingZero, f.before - |digits|, sign) + digits
  }

  /** The state of the format machine between two characters. */
  datatype Machine = Machine(mode: Mode, f: Format, out: string, args: seq<Arg>)

  predicate IsDigit(c: char) {
    '0' <= c <= '9'
  }

  /** The format an integer conversion letter selects; None for every other letter. */
  function IntegerFormat(f: Format, c: char): Option<Format> {
    match c
    case 'd' => Some(f)
    case 'i' => Some(f)
    case 'u' => Some(f.(signed := false))
    case 'o' => Some(f.(signed := false, base := 8))
    case 'x' => Some(f.(signed := false, base := 16))
    case 'X' => Some(f.(signed := false, base := 16, upper := true))
    case _ => None
  }

  /** Whether "c" ends a conversion in this state. */
  predicate Converts(m: Machine, c: char) {
    && (m.mode == OtherFmtChar || (m.mode == FirstFmtChar && c != '0' && c != '%'))
    && c != '.' && !IsDigit(c) && c != 'l'
  }

  /** If "c" is a conversion, an argument of its kind is there; bases are those the letters select. */
  predicate Ready(m: Machine, c: char) {
    && ValidBase(m.f.base)
    && (Converts(m, c) ==>
          && (IntegerFormat(m.f, c).Some? || c == 'c' ==> m.args != [] && m.args[0].Word?)
          && (c == 's' ==> m.args != [] && m.args[0].Str?))
  }

  function Convert(m: Machine, c: char): Machine
    requires Converts(m, c) && Ready(m, c)
  {
    var n := m.(mode := Chars);
    match IntegerFormat(m.f, c)
    case Some(f) =>
      n.(f := f, out := m.out + IntegerText(f, m.args[0].v), args := m.args[1..])
    case None =>
      if c == 'c' then
        n.(out := m.out + Repeat(' ', m.f.before - 1) + [LowByte(m.args[0].v)], args := m.args[1..])
      else if c == 's' then
        n.(out := m.out + Repeat(' ', m.f.before - |m.args[0].s|) + m.args[0].s, args := m.args[1..])
      else
        n
  }

  function Modifier(m: Machine, c: char): Machine {
    var n := m.(mode := OtherFmtChar);
    if c == '.' then
      n.(f := n.f.(after := 0))
    else if IsDigit(c) then
      var d := c as int - '0' as int;
      if n.f.after < 0 then
        n.(f := n.f.(before := (if n.f.before < 0 then 0 else n.f.before * 10) + d))
      else
        n.(f := n.f.(after := n.f.after * 10 + d))
    else
      n.(f := n.f.(isLong := true))
  }

  function LogStep(m: Machine, c: char): Machine
    requires Ready(m, c)
  {
    if m.mode == Chars then
      if c == '%' then m.(mode := FirstFmtChar, f := PLAIN) else m.(out := m.out + [c])
    else if m.mode == FirstFmtChar && c == '0' then
      m.(mode := OtherFmtChar, f := m.f.(leadingZero := true))
    else if m.mode == FirstFmtChar && c == '%' then
      m.(mode := Chars, out := m.out + [c])
    else if Converts(m, c) then
      Convert(m, c)
    else
      Modifier(m, c)
  }

  ghost predicate LogReady(m: Machine, fmt: string)
    decreases |fmt|
  {
    fmt != [] ==> Ready(m, fmt[0]) && LogReady(LogStep(m, fmt[0]), fmt[1..])
  }

  function LogRun(m: Machine, fmt: string): Machine
    requires LogReady(m, fmt)
    decreases |fmt|
  {
    if fmt == [] then m else LogRun(LogStep(m, fmt[0]), fmt[1..])
  }

  function Initial(args: seq<Arg>): Machine {
    Machine(Chars, PLAIN, "", args)
  }
}
