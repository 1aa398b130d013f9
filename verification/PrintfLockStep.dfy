/** For exactly which formats the two printf engines never part company while they read. */
module PrintfLockStep {
  import opened Words
  import opened Digits
  import opened PrintfSpec
  import opened PrintfTheorems

  /** A flag, a digit or a size letter: the log engine goes on reading, alt_printf takes it for a conversion. */
  predicate IsModifier(c: char) {
    c == '.' || c == 'l' || IsDigit(c)
  }

  /** An integer conversion that alt_printf does not know. */
  predicate IsForeign(c: char) {
    c in "diuoX"
  }

  /** Shared formats, which may end in a percent sign, in one with a single modifier, or in that and one more
      percent sign. */
  predicate LockStep(fmt: string)
    decreases |fmt|
  {
    if |fmt| < 2 then true
    else if fmt[0] != '%' then LockStep(fmt[1..])
    else if IsModifier(fmt[1]) then |fmt| == 2 || (|fmt| == 3 && fmt[2] == '%')
    else !IsForeign(fmt[1]) && LockStep(fmt[2..])
  }

  /** Where the arguments fit both engines they print the same characters and leave the same arguments. */
  ghost predicate Same(fmt: string, m: Machine) {
    AltReady(fmt, m.args) && LogReady(m, fmt) ==>
      var end, p := LogRun(m, fmt), AltSpec(fmt, m.args);
      end.out == m.out + p.out && end.args == p.args
  }

  /** The log engine between conversions. */
  function Idle(f: Format, out: string, args: seq<Arg>): Machine {
    Machine(Chars, f, out, args)
  }

  /** The engines agree on the format and on every beginning of it, whatever the arguments. */
  ghost predicate AgreeThroughout(fmt: string) {
    forall n: nat, args: seq<Arg> :: n <= |fmt| ==> Same(fmt[..n], Initial(args))
  }

  // ---------------------------------------------------------------- in step

  lemma LogCons(m: Machine, c: char, rest: string)
    ensures LogReady(m, [c] + rest) <==> Ready(m, c) && LogReady(LogStep(m, c), rest)
    ensures LogReady(m, [c] + rest) ==> LogRun(m, [c] + rest) == LogRun(LogStep(m, c), rest)
  {
    hide Ready, LogStep;
    assert ([c] + rest)[0] == c && ([c] + rest)[1..] == rest;
  }

  lemma AltLiteral(c: char, rest: string, args: seq<Arg>)
    requires c != '%'
    ensures AltReady([c] + rest, args) <==> AltReady(rest, args)
    ensures AltReady(rest, args) ==> AltSpec([c] + rest, args) == Before([c], AltSpec(rest, args))
  {
    assert ([c] + rest)[1..] == rest;
  }

  lemma AltPair(c: char, rest: string, args: seq<Arg>)
    ensures AltReady(['%', c] + rest, args) <==> AltArgReady(c, args) && AltReady(rest, AltConvert(c, args).args)
    ensures AltReady(['%', c] + rest, args) ==>
              var p := AltConvert(c, args);
              AltSpec(['%', c] + rest, args) == Before(p.out, AltSpec(rest, p.args))
  {
    hide AltConvert, AltArgReady;
    assert (['%', c] + rest)[1] == c && (['%', c] + rest)[2..] == rest;
  }

  lemma LogTwo(m: Machine, a: char, b: char)
    ensures LogReady(m, [a, b]) <==> Ready(m, a) && Ready(LogStep(m, a), b)
    ensures LogReady(m, [a, b]) ==> LogRun(m, [a, b]) == LogStep(LogStep(m, a), b)
  {
    hide Ready, LogStep;
    LogCons(m, a, [b]);
    assert [a] + [b] == [a, b] && [b] + "" == [b];
    if Ready(m, a) {
      LogCons(LogStep(m, a), b, "");
    }
  }

  lemma LogThree(m: Machine, a: char, b: char, c: char)
    ensures LogReady(m, [a, b, c]) <==> Ready(m, a) && Ready(LogStep(m, a), b) && Ready(LogStep(LogStep(m, a), b), c)
    ensures LogReady(m, [a, b, c]) ==> LogRun(m, [a, b, c]) == LogStep(LogStep(LogStep(m, a), b), c)
  {
    hide Ready, LogStep, LogReady, LogRun;
    LogCons(m, a, [b, c]);
    assert [a] + [b, c] == [a, b, c];
    if Ready(m, a) {
      LogTwo(LogStep(m, a), b, c);
    }
  }

  /** After a percent sign and a modifier the log engine is still reading the conversion. */
  lemma ModifierRead(m: Machine, c: char)
    requires m.mode == Chars && ValidBase(m.f.base) && IsModifier(c)
    ensures Ready(m, '%') && Ready(LogStep(m, '%'), c)
    ensures var n := LogStep(LogStep(m, '%'), c);
            n == m.(mode := OtherFmtChar, f := n.f) && n.f.signed && !n.f.upper && n.f.base == 10
  {
  }

  /** A percent sign there is a letter without a meaning. */
  lemma PercentDropped(n: Machine)
    requires n.mode == OtherFmtChar && ValidBase(n.f.base)
    ensures Ready(n, '%') && LogStep(n, '%') == n.(mode := Chars)
  {
  }

  /** The endings: both engines print nothing more and consume nothing more. */
  lemma EndingAgrees(fmt: string, m: Machine)
    requires m.mode == Chars && ValidBase(m.f.base)
    requires fmt == "%" || (|fmt| == 2 && fmt[0] == '%' && IsModifier(fmt[1]))
          || (|fmt| == 3 && fmt[0] == '%' && IsModifier(fmt[1]) && fmt[2] == '%')
    ensures AltReady(fmt, m.args) && AltSpec(fmt, m.args) == Printed("", m.args)
    ensures LogReady(m, fmt) && LogRun(m, fmt).out == m.out && LogRun(m, fmt).args == m.args
  {
    AltEnding(fmt, m.args);
    hide AltReady, AltSpec, LogReady, LogRun, Ready, LogStep, IsModifier;
    if |fmt| == 1 {
      LogPercent(m);
    } else {
      ModifierRead(m, fmt[1]);
      if |fmt| == 2 {
        assert fmt == ['%', fmt[1]];
        LogTwo(m, '%', fmt[1]);
      } else {
        assert fmt == ['%', fmt[1], '%'];
        LogThree(m, '%', fmt[1], '%');
        PercentDropped(LogStep(LogStep(m, '%'), fmt[1]));
      }
    }
  }

  lemma LogPercent(m: Machine)
    requires m.mode == Chars && ValidBase(m.f.base)
    ensures LogReady(m, "%") && LogRun(m, "%").out == m.out && LogRun(m, "%").args == m.args
  {
    LogCons(m, '%', "");
    assert "%" + "" == "%";
  }

  lemma AltEnding(fmt: string, args: seq<Arg>)
    requires fmt == "%" || (|fmt| == 2 && fmt[0] == '%' && IsModifier(fmt[1]))
          || (|fmt| == 3 && fmt[0] == '%' && IsModifier(fmt[1]) && fmt[2] == '%')
    ensures AltReady(fmt, args) && AltSpec(fmt, args) == Printed("", args)
  {
    if |fmt| == 2 {
      assert fmt[2..] == "";
    } else if |fmt| == 3 {
      assert fmt[2..] == "%";
    }
  }

  lemma {:induction false} LockStepAgrees(fmt: string, m: Machine)
    requires LockStep(fmt) && m.mode == Chars && ValidBase(m.f.base)
    ensures Same(fmt, m)
    decreases |fmt|
  {
    hide Convert, Modifier, AltConvert, IsDigit;
    if fmt == "" {
    } else if fmt[0] != '%' {
      LockStepAgrees(fmt[1..], LogStep(m, fmt[0]));
    } else if |fmt| == 1 || IsModifier(fmt[1]) {
      assert |fmt| == 1 ==> fmt == "%";
      EndingAgrees(fmt, m);
    } else {
      if AltReady(fmt, m.args) {
        PieceAgrees(fmt, m);
        LockStepAgrees(fmt[2..], LogStep(LogStep(m, '%'), fmt[1]));
      }
    }
  }

  /** A shared conversion at the start of a format. */
  lemma PieceAgrees(fmt: string, m: Machine)
    requires |fmt| >= 2 && fmt[0] == '%' && !IsModifier(fmt[1]) && !IsForeign(fmt[1])
    requires m.mode == Chars && ValidBase(m.f.base) && AltArgReady(fmt[1], m.args)
    ensures Ready(m, '%') && Ready(LogStep(m, '%'), fmt[1])
    ensures var n := LogStep(LogStep(m, '%'), fmt[1]);
            var p := AltConvert(fmt[1], m.args);
            && n.mode == Chars && ValidBase(n.f.base) && n.out == m.out + p.out && n.args == p.args
            && (LogReady(m, fmt) <==> LogReady(n, fmt[2..]))
            && (LogReady(m, fmt) ==> LogRun(m, fmt) == LogRun(n, fmt[2..]))
            && (AltReady(fmt, m.args) <==> AltReady(fmt[2..], p.args))
            && (AltReady(fmt, m.args) ==> AltSpec(fmt, m.args) == Before(p.out, AltSpec(fmt[2..], p.args)))
  {
    ConversionAgrees(m, fmt[1]);
    hide LogStep, Ready, AltConvert;
    assert fmt[1..][0] == fmt[1] && fmt[1..][1..] == fmt[2..];
  }

  // ---------------------------------------------------------------- out of step

  /** A beginning of the format and arguments that fit both engines but are treated differently. */
  datatype Witness = Witness(n: nat, args: seq<Arg>)

  ghost predicate Parts(fmt: string, f: Format, out: string, w: Witness) {
    w.n <= |fmt| && !Same(fmt[..w.n], Idle(f, out, w.args))
  }

  /** An argument that a shared conversion accepts. */
  function SomeArgs(c: char): seq<Arg> {
    if c == 's' then [Str("")] else if c == 'c' || c == 'x' then [Word(0)] else []
  }

  /** A format that is not in lock step: somewhere the engines part, whatever was printed before. */
  lemma {:induction false} EnginesPart(fmt: string, f: Format, out: string) returns (w: Witness)
    requires !LockStep(fmt) && ValidBase(f.base)
    ensures Parts(fmt, f, out, w)
    decreases |fmt|
  {
    hide Same;
    if fmt[0] != '%' {
      var v := EnginesPart(fmt[1..], f, out + [fmt[0]]);
      w := Witness(v.n + 1, v.args);
      LiteralFirst(fmt, f, out, v);
    } else if IsForeign(fmt[1]) {
      w := Witness(2, [Word(0)]);
      ForeignParts(fmt, f, out);
    } else if IsModifier(fmt[1]) {
      w := ModifierParts(fmt, f, out);
    } else {
      var args := SomeArgs(fmt[1]);
      var n := LogStep(LogStep(Idle(f, out, args), '%'), fmt[1]);
      ConversionAgrees(Idle(f, out, args), fmt[1]);
      var v := EnginesPart(fmt[2..], n.f, n.out);
      w := Witness(v.n + 2, args + v.args);
      PieceFirst(fmt, f, out, v);
    }
  }

  lemma LiteralFirst(fmt: string, f: Format, out: string, v: Witness)
    requires fmt != "" && fmt[0] != '%' && Parts(fmt[1..], f, out + [fmt[0]], v) && ValidBase(f.base)
    ensures Parts(fmt, f, out, Witness(v.n + 1, v.args))
  {
    var c, rest := fmt[0], fmt[1..][..v.n];
    var m := Idle(f, out, v.args);
    assert Ready(m, c) && LogStep(m, c) == Idle(f, out + [c], v.args);
    hide LogStep, Ready, LogReady, LogRun, AltReady, AltSpec;
    assert fmt[..v.n + 1] == [c] + rest;
    LogCons(m, c, rest);
    AltLiteral(c, rest, v.args);
    assert out + [c] + AltSpec(rest, v.args).out == out + ([c] + AltSpec(rest, v.args).out);
  }

  lemma PieceFirst(fmt: string, f: Format, out: string, v: Witness)
    requires |fmt| >= 2 && fmt[0] == '%' && !IsModifier(fmt[1]) && !IsForeign(fmt[1]) && ValidBase(f.base)
    requires var n := LogStep(LogStep(Idle(f, out, SomeArgs(fmt[1])), '%'), fmt[1]);
             Parts(fmt[2..], n.f, n.out, v)
    ensures Parts(fmt, f, out, Witness(v.n + 2, SomeArgs(fmt[1]) + v.args))
  {
    hide LogStep, Ready, AltConvert, LogReady, LogRun, AltReady, AltSpec, AltArgReady, IsModifier, IsForeign, SomeArgs;
    var c, rest := fmt[1], fmt[2..][..v.n];
    var args := SomeArgs(c) + v.args;
    var m := Idle(f, out, args);
    var all := fmt[..v.n + 2];
    assert all[0] == '%' && all[1] == c && all[2..] == rest;
    SameState(f, out, c, v.args);
    PieceAgrees(all, m);
    PieceTold(all, m, rest);
  }

  /** Parting after a shared conversion is parting. */
  lemma PieceTold(all: string, m: Machine, rest: string)
    requires |all| >= 2 && AltArgReady(all[1], m.args) && Ready(m, '%') && Ready(LogStep(m, '%'), all[1])
    requires var n := LogStep(LogStep(m, '%'), all[1]);
             var p := AltConvert(all[1], m.args);
             && n.out == m.out + p.out && n.args == p.args && !Same(rest, n)
             && (LogReady(m, all) <==> LogReady(n, rest))
             && (LogReady(m, all) ==> LogRun(m, all) == LogRun(n, rest))
             && (AltReady(all, m.args) <==> AltReady(rest, p.args))
             && (AltReady(all, m.args) ==> AltSpec(all, m.args) == Before(p.out, AltSpec(rest, p.args)))
    ensures !Same(all, m)
  {
    hide LogStep, Ready, AltConvert, LogReady, LogRun, AltReady, AltSpec, AltArgReady;
    var p := AltConvert(all[1], m.args);
    assert m.out + p.out + AltSpec(rest, p.args).out == m.out + (p.out + AltSpec(rest, p.args).out);
  }

  /** The arguments behind the one a conversion takes do not matter to it. */
  lemma SameState(f: Format, out: string, c: char, more: seq<Arg>)
    requires !IsModifier(c) && !IsForeign(c) && ValidBase(f.base)
    ensures var args := SomeArgs(c);
            AltArgReady(c, args) && AltArgReady(c, args + more)
    ensures var args := SomeArgs(c);
            var n := LogStep(LogStep(Idle(f, out, args), '%'), c);
            && LogStep(LogStep(Idle(f, out, args + more), '%'), c) == n.(args := more)
            && AltConvert(c, args + more).args == more
  {
    hide IntegerText, Repeat, Hex;
    var args := SomeArgs(c);
    assert args != [] ==> (args + more)[0] == args[0] && (args + more)[1..] == more;
    assert args == [] ==> args + more == more;
  }

  lemma ForeignParts(fmt: string, f: Format, out: string)
    requires |fmt| >= 2 && fmt[0] == '%' && IsForeign(fmt[1]) && ValidBase(f.base)
    ensures Parts(fmt, f, out, Witness(2, [Word(0)]))
  {
    hide IntegerText;
    var m, c := Idle(f, out, [Word(0)]), fmt[1];
    assert fmt[..2] == ['%', c] && ['%', c][2..] == "";
    LogTwo(m, '%', c);
    assert Ready(m, '%') && Ready(LogStep(m, '%'), c);
    assert LogStep(LogStep(m, '%'), c).args == [];
    assert AltReady(['%', c], [Word(0)]) && AltSpec(['%', c], [Word(0)]) == Printed("", [Word(0)]);
  }

  /** After a modifier anything but the end, or a percent sign and the end, parts the engines. */
  lemma ModifierParts(fmt: string, f: Format, out: string) returns (w: Witness)
    requires |fmt| >= 3 && fmt[0] == '%' && IsModifier(fmt[1]) && (fmt[2] == '%' ==> |fmt| >= 4) && ValidBase(f.base)
    ensures Parts(fmt, f, out, w)
  {
    hide Same;
    var c, d := fmt[1], fmt[2];
    if d != '%' {
      w := Witness(3, LetterArgs(d));
      LetterParts(c, d, Idle(f, out, w.args));
      assert fmt[..3] == ['%', c, d];
    } else {
      w := Witness(4, SomeArgs(fmt[3]));
      SecondPercentParts(c, fmt[3], Idle(f, out, w.args));
      assert fmt[..4] == ['%', c, '%', fmt[3]];
    }
  }

  /** An argument that the log engine accepts for a letter. */
  function LetterArgs(d: char): seq<Arg> {
    if d == 's' then [Str("")] else if IsForeign(d) || d == 'x' || d == 'c' then [Word(0)] else []
  }

  /** alt_printf prints the letter, the log engine takes it for the end of the conversion or a modifier. */
  lemma LetterParts(c: char, d: char, m: Machine)
    requires IsModifier(c) && d != '%' && m.mode == Chars && ValidBase(m.f.base) && m.args == LetterArgs(d)
    ensures !Same(['%', c, d], m)
  {
    var fmt := ['%', c, d];
    ModifierRead(m, c);
    LogThree(m, '%', c, d);
    AltLetter(c, d, m.args);
    hide LogReady, LogRun, AltReady, AltSpec, IntegerText, IsModifier;
    var n := LogStep(LogStep(m, '%'), c);
    LetterStep(n, d);
  }

  lemma LetterStep(n: Machine, d: char)
    requires n.mode == OtherFmtChar && ValidBase(n.f.base) && n.args == LetterArgs(d) && d != '%'
    ensures Ready(n, d)
    ensures LogStep(n, d).out == n.out || LogStep(n, d).args != n.args
  {
    hide IntegerText, Repeat;
  }

  lemma AltLetter(c: char, d: char, args: seq<Arg>)
    requires IsModifier(c) && d != '%'
    ensures AltReady(['%', c, d], args) && AltSpec(['%', c, d], args) == Printed([d], args)
  {
    assert ['%', c, d] == ['%', c] + [d] && [d] == [d] + "";
    AltPair(c, [d], args);
    AltLiteral(d, "", args);
  }

  /** alt_printf starts another conversion where the log engine has just ended one. */
  lemma SecondPercentParts(c: char, e: char, m: Machine)
    requires IsModifier(c) && m.mode == Chars && ValidBase(m.f.base) && m.args == SomeArgs(e)
    ensures !Same(['%', c, '%', e], m)
  {
    ModifierRead(m, c);
    var n := LogStep(LogStep(m, '%'), c);
    PercentDropped(n);
    var o := LogStep(n, '%');
    LogFour(m, '%', c, '%', e);
    AltSecond(c, e, m.args);
    hide LogReady, LogRun, AltReady, AltSpec, IsModifier, Hex;
    assert Ready(o, e) && LogStep(o, e).args == m.args;
    assert LogStep(o, e).out == if e == '%' then m.out else m.out + [e];
  }

  lemma AltSecond(c: char, e: char, args: seq<Arg>)
    requires IsModifier(c) && args == SomeArgs(e)
    ensures AltReady(['%', c, '%', e], args)
    ensures AltArgReady(e, args) && AltSpec(['%', c, '%', e], args) == AltConvert(e, args)
  {
    hide Hex;
    assert ['%', c, '%', e] == ['%', c] + ['%', e] && ['%', e] == ['%', e] + "";
    AltPair(c, ['%', e], args);
    AltPair(e, "", args);
  }

  lemma LogFour(m: Machine, a: char, b: char, c: char, d: char)
    ensures LogReady(m, [a, b, c, d]) <==> Ready(m, a) && Ready(LogStep(m, a), b) && Ready(LogStep(LogStep(m, a), b), c)
                                           && Ready(LogStep(LogStep(LogStep(m, a), b), c), d)
    ensures LogReady(m, [a, b, c, d]) ==>
              LogRun(m, [a, b, c, d]) == LogStep(LogStep(LogStep(LogStep(m, a), b), c), d)
  {
    hide Ready, LogStep, LogReady, LogRun;
    LogCons(m, a, [b, c, d]);
    assert [a] + [b, c, d] == [a, b, c, d];
    if Ready(m, a) {
      LogThree(LogStep(m, a), b, c, d);
    }
  }

  // ---------------------------------------------------------------- the exact class

  lemma {:induction false} LockStepBeginning(fmt: string, n: nat)
    requires LockStep(fmt) && n <= |fmt|
    ensures LockStep(fmt[..n])
    decreases |fmt|
  {
    hide IsModifier, IsForeign;
    var p := fmt[..n];
    if n >= 2 {
      assert p[0] == fmt[0] && p[1] == fmt[1];
      if fmt[0] != '%' {
        assert p[1..] == fmt[1..][..n - 1];
        LockStepBeginning(fmt[1..], n - 1);
      } else if !IsModifier(fmt[1]) {
        assert p[2..] == fmt[2..][..n - 2];
        LockStepBeginning(fmt[2..], n - 2);
      }
    }
  }

  /** The two engines agree on a format and on all its beginnings, for all arguments that fit both, if and only if
      the format is in lock step. */
  lemma AgreeThroughoutIff(fmt: string)
    ensures AgreeThroughout(fmt) <==> LockStep(fmt)
  {
    hide Same, LockStep;
    if LockStep(fmt) {
      forall n: nat, args: seq<Arg> | n <= |fmt|
        ensures Same(fmt[..n], Initial(args))
      {
        LockStepBeginning(fmt, n);
        LockStepAgrees(fmt[..n], Initial(args));
      }
    } else {
      var w := EnginesPart(fmt, PLAIN, "");
      assert Initial(w.args) == Idle(PLAIN, "", w.args);
    }
  }

  /** Agreement at the end alone is less: on this format the engines part and meet again by chance. */
  lemma MeetAgain(args: seq<Arg>)
    ensures !LockStep("%.5%5") && Same("%.5%5", Initial(args))
  {
    LogMeets(args);
    AltMeets(args);
    hide LogReady, LogRun, AltReady, AltSpec;
  }

  lemma LogMeets(args: seq<Arg>)
    ensures var m := Initial(args);
            LogReady(m, "%.5%5") && LogRun(m, "%.5%5").out == "5" && LogRun(m, "%.5%5").args == args
  {
    var m := Initial(args);
    var n := LogStep(LogStep(m, '%'), '.');
    ModifierRead(m, '.');
    var o := LogStep(n, '5');
    assert Ready(n, '5') && o == m.(mode := OtherFmtChar, f := o.f) && ValidBase(o.f.base);
    PercentDropped(o);
    var p := LogStep(o, '%');
    assert Ready(p, '5') && LogStep(p, '5') == p.(out := "5");
    hide LogStep, Ready, LogReady, LogRun;
    assert "%.5%5" == ['%'] + ['.', '5', '%', '5'];
    LogCons(m, '%', ['.', '5', '%', '5']);
    LogFour(LogStep(m, '%'), '.', '5', '%', '5');
  }

  lemma AltMeets(args: seq<Arg>)
    ensures AltReady("%.5%5", args) && AltSpec("%.5%5", args) == Printed("5", args)
  {
    assert "%.5%5" == ['%', '.'] + "5%5" && "5%5" == ['5'] + "%5" && "%5" == ['%', '5'] + "";
    AltPair('5', "", args);
    AltLiteral('5', "%5", args);
    AltPair('.', "5%5", args);
  }
}
